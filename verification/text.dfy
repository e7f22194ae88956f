/** The Python string operations the scraper relies on: `str.strip`,
    `str.split` with a one-character separator, `str.startswith` and the
    substring test `sub in s`. */
module Text {

  /** Python's `str.isspace()` for one character: what `str.strip()` with no
      argument discards around its operand. */
  predicate IsSpace(c: char)
  {
    || ('\t' <= c <= '\r')
    || ('\U{1C}' <= c <= '\U{1F}')
    || c == ' ' || c == '\U{85}' || c == '\U{A0}' || c == '\U{1680}'
    || ('\U{2000}' <= c <= '\U{200A}')
    || c == '\U{2028}' || c == '\U{2029}' || c == '\U{202F}' || c == '\U{205F}'
    || c == '\U{3000}'
  }

  /** `s.startswith(p)`. */
  predicate StartsWith(s: string, p: string)
  {
    |p| <= |s| && s[..|p|] == p
  }

  /** `sub` occurs in `s` beginning at index `i`. */
  predicate OccursAt(s: string, sub: string, i: nat)
  {
    i + |sub| <= |s| && s[i..i + |sub|] == sub
  }

  /** `sub in s`. */
  predicate Contains(s: string, sub: string)
  {
    exists i :: 0 <= i <= |s| && OccursAt(s, sub, i)
  }

  /** Length of the longest prefix of `s` made of characters `drop` accepts. */
  function LeadingRun(s: string, drop: char -> bool): (k: nat)
    ensures k <= |s|
    ensures forall i :: 0 <= i < k ==> drop(s[i])
    ensures k < |s| ==> !drop(s[k])
  {
    if s == [] || !drop(s[0]) then 0 else 1 + LeadingRun(s[1..], drop)
  }

  /** Length of the longest suffix of `s` made of characters `drop` accepts. */
  function TrailingRun(s: string, drop: char -> bool): (k: nat)
    ensures k <= |s|
    ensures forall i :: |s| - k <= i < |s| ==> drop(s[i])
    ensures k < |s| ==> !drop(s[|s| - 1 - k])
  {
    if s == [] || !drop(s[|s| - 1]) then 0 else 1 + TrailingRun(s[..|s| - 1], drop)
  }

  /** `s.strip(chars)` where `drop` tells the characters of `chars` (or, for
      `s.strip()`, the white space). */
  function Strip(s: string, drop: char -> bool): (r: string)
    ensures forall c :: c in r ==> c in s
    ensures r == [] ==> forall i :: 0 <= i < |s| ==> drop(s[i])
    ensures r != [] ==> !drop(r[0]) && !drop(r[|r| - 1])
  {
    var a := LeadingRun(s, drop);
    var t := s[a..];
    var r := t[..|t| - TrailingRun(t, drop)];
    assert forall k :: 0 <= k < |r| ==> r[k] == s[a + k];
    assert r == [] ==> a == |s| || TrailingRun(t, drop) == |t|;
    r
  }

  /** Stripping removes exactly the padding around a core whose ends are kept. */
  lemma StripPadded(left: string, core: string, right: string, drop: char -> bool)
    requires forall i :: 0 <= i < |left| ==> drop(left[i])
    requires forall i :: 0 <= i < |right| ==> drop(right[i])
    requires core == [] || (!drop(core[0]) && !drop(core[|core| - 1]))
    ensures Strip(left + core + right, drop) == core
  {
    var s := left + core + right;
    var a := LeadingRun(s, drop);
    if core == [] {
      assert s == left + right;
      assert forall i :: 0 <= i < |s| ==> drop(s[i]) by {
        forall i | 0 <= i < |s| ensures drop(s[i]) {
          if i < |left| { assert s[i] == left[i]; } else { assert s[i] == right[i - |left|]; }
        }
      }
      assert a == |s|;
    } else {
      assert s[|left|] == core[0];
      assert a == |left|;
      var t := s[a..];
      assert t == core + right;
      var b := TrailingRun(t, drop);
      assert t[|core| - 1] == core[|core| - 1];
      assert forall k :: 0 <= k < |right| ==> t[|core| + k] == right[k];
      assert b == |right|;
      assert t[..|t| - b] == core;
    }
  }

  /** Stripping twice strips no more than once. */
  lemma StripIdempotent(s: string, drop: char -> bool)
    ensures Strip(Strip(s, drop), drop) == Strip(s, drop)
  {
    StripPadded([], Strip(s, drop), [], drop);
    assert [] + Strip(s, drop) + [] == Strip(s, drop);
  }

  /** The index of the first `c` in `s`. */
  function IndexOf(s: string, c: char): (i: nat)
    requires c in s
    ensures i < |s| && s[i] == c && c !in s[..i]
  {
    if s[0] == c then 0 else 1 + IndexOf(s[1..], c)
  }

  /** The first `c` in `a + [c] + b` is the one after `a` when `a` has none. */
  lemma {:induction false} IndexOfAfter(a: string, c: char, b: string)
    requires c !in a
    ensures c in a + [c] + b && IndexOf(a + [c] + b, c) == |a|
  {
    var s := a + [c] + b;
    assert s[|a|] == c;
    if a != [] {
      assert s[1..] == a[1..] + [c] + b;
      IndexOfAfter(a[1..], c, b);
    }
  }

  /** The index of the last `c` in `s`. */
  function LastIndexOf(s: string, c: char): (i: nat)
    requires c in s
    ensures i < |s| && s[i] == c && c !in s[i + 1..]
  {
    if s[|s| - 1] == c then |s| - 1
    else
      assert c in s[..|s| - 1] by { assert s == s[..|s| - 1] + [s[|s| - 1]]; }
      LastIndexOf(s[..|s| - 1], c)
  }

  /** The last `c` in `a + [c] + b` is the one after `a` when `b` has none. */
  lemma LastIndexOfBefore(a: string, c: char, b: string)
    requires c !in b
    ensures c in a + [c] + b && LastIndexOf(a + [c] + b, c) == |a|
  {
    var s := a + [c] + b;
    assert s[|a|] == c;
    var k := LastIndexOf(s, c);
    assert forall m :: |a| < m < |s| ==> s[m] == b[m - |a| - 1];
    assert forall m :: k < m < |s| ==> s[m] == s[k + 1..][m - k - 1];
  }

  /** `sep.join(parts)`. */
  function Join(parts: seq<string>, sep: char): string
    requires |parts| >= 1
  {
    if |parts| == 1 then parts[0] else parts[0] + [sep] + Join(parts[1..], sep)
  }

  /** `s.split(sep)`: the pieces between the separators, one more piece than
      there are separators, which join back to `s`. */
  function Split(s: string, sep: char): (parts: seq<string>)
    ensures |parts| == multiset(s)[sep] + 1
    ensures forall k :: 0 <= k < |parts| ==> sep !in parts[k]
    ensures Join(parts, sep) == s
    decreases |s|
  {
    if sep !in s then
      assert multiset(s)[sep] == 0;
      [s]
    else
      var i := IndexOf(s, sep);
      var rest := Split(s[i + 1..], sep);
      assert s == s[..i] + [sep] + s[i + 1..];
      assert multiset(s) == multiset(s[..i]) + multiset{sep} + multiset(s[i + 1..]);
      [s[..i]] + rest
  }

  /** Splitting a joined list of separator-free pieces gives the pieces back. */
  lemma {:induction false} SplitJoin(parts: seq<string>, sep: char)
    requires |parts| >= 1
    requires forall k :: 0 <= k < |parts| ==> sep !in parts[k]
    ensures Split(Join(parts, sep), sep) == parts
    decreases |parts|
  {
    if |parts| > 1 {
      var s := Join(parts, sep);
      var tail := Join(parts[1..], sep);
      assert s == parts[0] + [sep] + tail;
      assert sep in s by { assert s[|parts[0]|] == sep; }
      IndexOfAfter(parts[0], sep, tail);
      var i := IndexOf(s, sep);
      assert s[..i] == parts[0];
      assert s[i + 1..] == tail;
      SplitJoin(parts[1..], sep);
      assert Split(s, sep) == [parts[0]] + parts[1..];
    } else {
      assert multiset(parts[0])[sep] == 0;
    }
  }
}
