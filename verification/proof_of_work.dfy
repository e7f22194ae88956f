/** The proof-of-work search `solve`: the first counter, counting up from a
    start position, whose digest of `salt + str(counter)` begins with one
    `'0'` per four bits of difficulty.

    The digest (`sha256(...).hexdigest()` of the UTF-8 encoding) is a
    parameter `digest`, so nothing here depends on what SHA-256 computes. */
module ProofOfWork {
  import opened Wrappers
  import opened Text
  import opened Decimal

  /** `c * n`: `n` copies of `c`, none when `n` is not positive. */
  function Repeat(c: char, n: int): (s: string)
    ensures |s| == if n <= 0 then 0 else n
    ensures forall i :: 0 <= i < |s| ==> s[i] == c
    decreases n
  {
    if n <= 0 then [] else [c] + Repeat(c, n - 1)
  }

  /** `"0" * (diff // 4)`. Python's `//` rounds down, which for a positive
      divisor is Dafny's `/`; a difficulty below 4 asks for no zeros. */
  function ZeroPrefix(diff: int): (p: string)
    ensures |p| == if diff < 4 then 0 else diff / 4
    ensures diff >= 0 && diff % 4 == 0 ==> 4 * |p| == diff
    ensures forall i :: 0 <= i < |p| ==> p[i] == '0'
  {
    Repeat('0', diff / 4)
  }

  /** The digest of the counter `position` meets difficulty `diff`. */
  predicate Qualifies(digest: string -> string, salt: string, diff: int, position: nat)
  {
    StartsWith(digest(salt + DecimalString(position)), ZeroPrefix(diff))
  }

  /** `position` is what `solve` answers: the least qualifying counter that
      is not below `start`. */
  predicate IsFirstSolution(digest: string -> string, salt: string, diff: int, start: nat, position: nat)
  {
    && start <= position
    && Qualifies(digest, salt, diff, position)
    && forall n :: start <= n < position ==> !Qualifies(digest, salt, diff, n)
  }

  /** `solve(salt, diff, position)`. The source loops for ever when no
      counter qualifies; `bound`, a qualifying counter at or above `start`,
      only stands for the fact that the loop ends and is never computed with. */
  method Solve(digest: string -> string, salt: string, diff: int, start: nat, ghost bound: nat)
    returns (position: nat)
    requires start <= bound && Qualifies(digest, salt, diff, bound)
    ensures IsFirstSolution(digest, salt, diff, start, position)
    ensures position <= bound
    ensures diff < 4 ==> position == start
  {
    var prefix := ZeroPrefix(diff);
    position := start;
    while true
      invariant start <= position <= bound
      invariant forall n :: start <= n < position ==> !Qualifies(digest, salt, diff, n)
      invariant diff < 4 ==> position == start
      decreases bound - position
    {
      var h := digest(salt + DecimalString(position));
      if StartsWith(h, prefix) {
        return;
      }
      position := position + 1;
    }
  }

  /** The same search abandoned after `limit` digests: either the first
      solution, or the news that none of the `limit` counters from `start`
      qualifies. */
  method SolveWithin(digest: string -> string, salt: string, diff: int, start: nat, limit: nat)
    returns (r: Option<nat>)
    ensures r.Some? ==> IsFirstSolution(digest, salt, diff, start, r.value) && r.value < start + limit
    ensures r.None? ==> forall n :: start <= n < start + limit ==> !Qualifies(digest, salt, diff, n)
  {
    var prefix := ZeroPrefix(diff);
    var position := start;
    while position < start + limit
      invariant start <= position <= start + limit
      invariant forall n :: start <= n < position ==> !Qualifies(digest, salt, diff, n)
    {
      var h := digest(salt + DecimalString(position));
      if StartsWith(h, prefix) {
        return Some(position);
      }
      position := position + 1;
    }
    return None;
  }

  /** There is only one first solution, so `solve` is deterministic. */
  lemma FirstSolutionUnique(digest: string -> string, salt: string, diff: int, start: nat, p: nat, q: nat)
    requires IsFirstSolution(digest, salt, diff, start, p)
    requires IsFirstSolution(digest, salt, diff, start, q)
    ensures p == q
  {
  }

  /** A counter that meets a difficulty meets every lower one. */
  lemma QualifiesAtLowerDifficulty(digest: string -> string, salt: string, easy: int, hard: int, position: nat)
    requires easy <= hard
    requires Qualifies(digest, salt, hard, position)
    ensures Qualifies(digest, salt, easy, position)
  {
    var h := digest(salt + DecimalString(position));
    var p, q := ZeroPrefix(easy), ZeroPrefix(hard);
    assert |p| <= |q| by { assert easy / 4 <= hard / 4; }
    assert h[..|p|] == q[..|p|] == p by {
      assert h[..|q|] == q;
      assert h[..|p|] == h[..|q|][..|p|];
    }
  }
}
