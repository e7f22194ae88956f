/** `Scraper._get_params`: the salt and difficulty of the inline call
    `window.sssg_challenge(SALT,DIFF,PATIENCE);` on the challenge page. */
module ChallengeParams {
  import opened Wrappers
  import opened Text
  import opened Decimal

  /** The literal part of the pattern `window\.sssg_challenge\(([^)]*)\);`
      in front of its group. */
  const Opener := "window.sssg_challenge("

  /** The dictionary `_get_params` returns, which `solve` takes as keyword
      arguments. */
  datatype Params = Params(salt: string, diff: int, position: nat)

  datatype ParamsError =
    | NoChallengeCall             // `re.search` gives `None`, whose `.group` raises
    | WrongFieldCount(count: nat) // unpacking the comma split into three names raises
    | BadDifficulty(field: string) // `int()` rejects the second field

  /** The characters `salt.strip("\" ")` removes. */
  predicate IsSaltPad(c: char)
  {
    c == '"' || c == ' '
  }

  /** What a salt read out of a call looks like: no ',' or ')', and no quote
      or space at either end. */
  predicate IsSalt(salt: string)
  {
    && ',' !in salt && ')' !in salt
    && (salt == [] || (!IsSaltPad(salt[0]) && !IsSaltPad(salt[|salt| - 1])))
  }

  /** The pattern matches at `i`, its group `[^)]*` running up to `j`: the
      opener, a run without ')', then ");". */
  predicate IsMatch(text: string, i: nat, j: nat)
  {
    && OccursAt(text, Opener, i)
    && i + |Opener| <= j && j + 2 <= |text|
    && ')' !in text[i + |Opener|..j]
    && text[j] == ')' && text[j + 1] == ';'
  }

  /** A match is a stretch of the text made of the opener, a group without
      ')', and ");". */
  lemma MatchText(text: string, i: nat, j: nat)
    ensures IsMatch(text, i, j) <==>
              && i + |Opener| <= j && j + 2 <= |text|
              && text[i..j + 2] == Opener + text[i + |Opener|..j] + ");"
              && ')' !in text[i + |Opener|..j]
  {
    if i + |Opener| <= j && j + 2 <= |text| {
      var g := text[i + |Opener|..j];
      var whole := Opener + g + ");";
      var span := text[i..j + 2];
      assert |span| == |whole|;
      if IsMatch(text, i, j) {
        assert forall m :: 0 <= m < |whole| ==> span[m] == whole[m];
      }
      if span == whole {
        assert span[..|Opener|] == text[i..i + |Opener|];
        assert whole[..|Opener|] == Opener;
        assert span[j - i] == text[j] && whole[j - i] == ')';
        assert span[j + 1 - i] == text[j + 1] && whole[j + 1 - i] == ';';
      }
    }
  }

  /** Where the group of a match at `i` ends, if the pattern matches at `i`:
      the group is greedy and cannot hold ')', so only the first ')' after
      the opener can close it. */
  function MatchAt(text: string, i: nat): (r: Option<nat>)
    ensures r.Some? ==> IsMatch(text, i, r.value)
    ensures r.None? ==> forall j :: !IsMatch(text, i, j)
  {
    if !OccursAt(text, Opener, i) then None
    else
      var start := i + |Opener|;
      if ')' !in text[start..] then
        NoCloseNoMatch(text, i);
        None
      else
        var j := start + IndexOf(text[start..], ')');
        FirstCloseEndsMatch(text, i, j);
        if j + 1 < |text| && text[j + 1] == ';' then Some(j) else None
  }

  /** Without a ')' after the opener there is no match at `i`. */
  lemma NoCloseNoMatch(text: string, i: nat)
    requires OccursAt(text, Opener, i) && ')' !in text[i + |Opener|..]
    ensures forall j :: !IsMatch(text, i, j)
  {
    var start := i + |Opener|;
    assert forall j :: start <= j < |text| ==> text[j] == text[start..][j - start];
  }

  /** The first ')' after the opener is the only place a match at `i` can
      end. */
  lemma FirstCloseEndsMatch(text: string, i: nat, j: nat)
    requires OccursAt(text, Opener, i)
    requires ')' in text[i + |Opener|..] && j == i + |Opener| + IndexOf(text[i + |Opener|..], ')')
    ensures j < |text| && text[j] == ')' && ')' !in text[i + |Opener|..j]
    ensures forall k :: IsMatch(text, i, k) ==> k == j
  {
    var start := i + |Opener|;
    var rest := text[start..];
    assert text[start..j] == rest[..j - start];
    forall k | IsMatch(text, i, k) ensures k == j {
      MatchEndUnique(text, i, k, j);
    }
  }

  /** A match at `i` has one end: the first ')' after the opener. */
  lemma MatchEndUnique(text: string, i: nat, j: nat, k: nat)
    requires OccursAt(text, Opener, i)
    requires i + |Opener| <= j < |text| && i + |Opener| <= k < |text|
    requires text[j] == ')' && ')' !in text[i + |Opener|..j]
    requires text[k] == ')' && ')' !in text[i + |Opener|..k]
    ensures j == k
  {
    var start := i + |Opener|;
    assert forall m :: start <= m < j ==> text[m] == text[start..j][m - start];
    assert forall m :: start <= m < k ==> text[m] == text[start..k][m - start];
  }

  /** `re.search` from index `i` on: the leftmost match at or after `i`. */
  function FindFrom(text: string, i: nat): (r: Option<(nat, nat)>)
    requires i <= |text|
    ensures r.Some? ==> i <= r.value.0 && IsMatch(text, r.value.0, r.value.1)
    ensures r.Some? ==> forall k, j :: i <= k < r.value.0 ==> !IsMatch(text, k, j)
    ensures r.None? ==> forall k, j :: i <= k ==> !IsMatch(text, k, j)
    decreases |text| - i
  {
    match MatchAt(text, i)
    case Some(j) => Some((i, j))
    case None =>
      if i == |text| then None else FindFrom(text, i + 1)
  }

  /** `re.search(...).group(1)`: the text between the opener and the ')' of
      the leftmost match, or `None` when the page has no match. */
  function Group(text: string): (g: Option<string>)
    ensures g.None? <==> forall i, j :: !IsMatch(text, i, j)
    ensures g.Some? ==> && FindFrom(text, 0).Some?
                        && g.value == text[FindFrom(text, 0).value.0 + |Opener|..FindFrom(text, 0).value.1]
    ensures g.Some? ==> ')' !in g.value
  {
    match FindFrom(text, 0)
    case None => None
    case Some((i, j)) => Some(text[i + |Opener|..j])
  }

  /** `_get_params` on the page's text, with the start counter `position`
      supplied by the caller. */
  function GetParams(text: string, position: nat): (r: Result<Params, ParamsError>)
    ensures r == Failure(NoChallengeCall) <==> Group(text).None?
    ensures (r.Failure? && r.error.WrongFieldCount?) <==> Group(text).Some? && multiset(Group(text).value)[','] != 2
    ensures r.Failure? && r.error.WrongFieldCount? ==> r.error.count == |Split(Group(text).value, ',')| != 3
    ensures (r.Failure? && r.error.BadDifficulty?) <==>
              && Group(text).Some? && |Split(Group(text).value, ',')| == 3
              && ParseInt(Split(Group(text).value, ',')[1]).None?
    ensures r.Failure? && r.error.BadDifficulty? ==> r.error.field == Split(Group(text).value, ',')[1]
    ensures r.Success? ==>
              && Group(text).Some?
              && var fields := Split(Group(text).value, ',');
              && |fields| == 3
              && r.value.salt == Strip(fields[0], IsSaltPad)
              && ParseInt(fields[1]) == Some(r.value.diff)
              && r.value.position == position
    ensures r.Success? ==> IsSalt(r.value.salt)
  {
    match Group(text)
    case None => Failure(NoChallengeCall)
    case Some(g) =>
      var fields := Split(g, ',');
      if |fields| != 3 then Failure(WrongFieldCount(|fields|))
      else
        var salt := Strip(fields[0], IsSaltPad);
        SaltOfGroup(g);
        match ParseInt(fields[1])
        case None => Failure(BadDifficulty(fields[1]))
        case Some(diff) => Success(Params(salt, diff, position))
  }

  /** The salt read out of a group with three fields holds no ',' or ')',
      and neither of its ends is a quote or a space. */
  lemma SaltOfGroup(g: string)
    requires ')' !in g && |Split(g, ',')| == 3
    ensures IsSalt(Strip(Split(g, ',')[0], IsSaltPad))
  {
    var fields := Split(g, ',');
    assert g == fields[0] + [','] + Join(fields[1..], ',');
    assert ')' !in fields[0];
  }

  /** No match of the pattern begins before index `n`. */
  ghost predicate NoMatchBefore(text: string, n: nat)
  {
    forall k, j :: 0 <= k < n ==> !IsMatch(text, k, j)
  }

  /** A call to the challenge function with the three argument texts
      `first`, `second` and `third`, as a page may carry it. */
  function RenderCall(first: string, second: string, third: string): string
  {
    Opener + Arguments(first, second, third) + ");"
  }

  function Arguments(first: string, second: string, third: string): string
  {
    first + "," + second + "," + third
  }

  /** No match can begin before index `n` when the opener starts there and
      the text in front of it has no '(': the opener's only '(' is its last
      character. */
  lemma NoParenNoMatchBefore(text: string, n: nat)
    requires n + |Opener| <= |text| && text[n..n + |Opener|] == Opener
    requires '(' !in text[..n]
    ensures NoMatchBefore(text, n)
  {
    assert '(' !in Opener[..|Opener| - 1];
    forall k | 0 <= k < n
      ensures !OccursAt(text, Opener, k)
    {
      var m := k + |Opener| - 1;
      if m < n {
        assert text[m] == text[..n][m];
      } else {
        assert text[m] == Opener[..|Opener| - 1][m - n];
      }
      assert Opener[|Opener| - 1] == '(';
    }
  }

  /** Three comma-free argument texts split back apart. */
  lemma SplitArguments(first: string, second: string, third: string)
    requires ',' !in first && ',' !in second && ',' !in third
    ensures Split(Arguments(first, second, third), ',') == [first, second, third]
  {
    var fields := [first, second, third];
    assert fields[1..][1..] == [third];
    assert Join(fields[1..], ',') == second + [','] + third;
    assert Join(fields, ',') == Arguments(first, second, third);
    SplitJoin(fields, ',');
  }

  /** The group of a page whose first match is the opener, `args` and ");"
      is `args`. */
  lemma GroupOfCall(pre: string, args: string, post: string)
    requires NoMatchBefore(pre + (Opener + args + ");") + post, |pre|)
    requires ')' !in args
    ensures Group(pre + (Opener + args + ");") + post) == Some(args)
  {
    var text := pre + (Opener + args + ");") + post;
    var i := |pre|;
    var j := i + |Opener| + |args|;
    assert text[i..i + |Opener|] == Opener;
    assert text[i + |Opener|..j] == args;
    assert text[j] == ')' && text[j + 1] == ';';
    assert IsMatch(text, i, j);
    var found := FindFrom(text, 0);
    assert found.Some? && found.value.0 == i;
    MatchEndUnique(text, i, found.value.1, j);
  }

  /** Any page whose first match is a call with three argument texts free of
      ',' and ')': the salt is the first stripped of quotes and spaces, and
      the difficulty is `int()` of the second or its error; the third is
      ignored. */
  lemma GetParamsOfCall(pre: string, first: string, second: string, third: string, post: string, position: nat)
    requires NoMatchBefore(pre + RenderCall(first, second, third) + post, |pre|)
    requires ',' !in first && ',' !in second && ',' !in third
    requires ')' !in first && ')' !in second && ')' !in third
    ensures GetParams(pre + RenderCall(first, second, third) + post, position)
            == match ParseInt(second)
               case None => Failure(BadDifficulty(second))
               case Some(diff) => Success(Params(Strip(first, IsSaltPad), diff, position))
  {
    var args := Arguments(first, second, third);
    assert ')' !in args by {
      assert forall c :: c in args ==> c in first || c == ',' || c in second || c in third;
    }
    GroupOfCall(pre, args, post);
    SplitArguments(first, second, third);
  }

  /** Reading the parameters back out of a page whose first match is a call
      the server wrote gives back its salt and difficulty: whatever quotes
      and spaces surround the salt, whatever white space surrounds the
      numeral, whatever the patience hint and whatever precedes and follows
      the call. */
  lemma GetParamsOfWrittenCall(pre: string, quoteL: string, salt: string, quoteR: string,
                               spaceL: string, diff: nat, spaceR: string,
                               patience: string, post: string, position: nat)
    requires forall i :: 0 <= i < |quoteL| ==> IsSaltPad(quoteL[i])
    requires forall i :: 0 <= i < |quoteR| ==> IsSaltPad(quoteR[i])
    requires IsSalt(salt)
    requires forall i :: 0 <= i < |spaceL| ==> IsIntSpace(spaceL[i])
    requires forall i :: 0 <= i < |spaceR| ==> IsIntSpace(spaceR[i])
    requires ',' !in patience && ')' !in patience
    requires NoMatchBefore(pre + RenderCall(quoteL + salt + quoteR, spaceL + DecimalString(diff) + spaceR, patience) + post, |pre|)
    ensures GetParams(pre + RenderCall(quoteL + salt + quoteR, spaceL + DecimalString(diff) + spaceR, patience) + post, position)
            == Success(Params(salt, diff, position))
  {
    var first, second := quoteL + salt + quoteR, spaceL + DecimalString(diff) + spaceR;
    PaddingFree(quoteL, salt, quoteR);
    NumeralFree(spaceL, diff, spaceR);
    StripPadded(quoteL, salt, quoteR, IsSaltPad);
    ParseIntOfDecimal(diff, false, spaceL, spaceR);
    assert "" + DecimalString(diff) == DecimalString(diff);
    GetParamsOfCall(pre, first, second, patience, post, position);
  }

  /** Padding made of quotes and spaces around a salt adds no ',' or ')'. */
  lemma PaddingFree(left: string, core: string, right: string)
    requires forall i :: 0 <= i < |left| ==> IsSaltPad(left[i])
    requires forall i :: 0 <= i < |right| ==> IsSaltPad(right[i])
    requires ',' !in core && ')' !in core
    ensures ',' !in left + core + right && ')' !in left + core + right
  {
    assert forall c :: c in left + core + right ==> c in left || c in core || c in right;
  }

  /** A numeral padded with white space holds no ',' or ')'. */
  lemma NumeralFree(left: string, n: nat, right: string)
    requires forall i :: 0 <= i < |left| ==> IsIntSpace(left[i])
    requires forall i :: 0 <= i < |right| ==> IsIntSpace(right[i])
    ensures var s := left + DecimalString(n) + right; ',' !in s && ')' !in s
  {
    var d := DecimalString(n);
    assert forall k :: 0 <= k < |d| ==> IsDigit(d[k]);
    assert forall c :: c in left + d + right ==> c in left || c in d || c in right;
  }

  /** In a page made of `pre`, a call and `post`, the opener comes right
      after `pre`. */
  lemma CallFollowsPrefix(pre: string, first: string, second: string, third: string, post: string)
    ensures var text := pre + RenderCall(first, second, third) + post;
            && |pre| + |Opener| <= |text|
            && text[..|pre|] == pre
            && text[|pre|..|pre| + |Opener|] == Opener
  {
    var call := RenderCall(first, second, third);
    var text := pre + call + post;
    assert text[|pre|..|pre| + |Opener|] == call[..|Opener|];
  }

  /** An example page: salt "abc123", difficulty 8,
      patience 5, inside a script element. */
  lemma ExampleChallengeCall()
    ensures GetParams("<script>" + "window.sssg_challenge(\"abc123\",8,5);" + "</script>", 0)
            == Success(Params("abc123", 8, 0))
  {
    var first, second := "\"" + "abc123" + "\"", "" + DecimalString(8) + "";
    ExamplePage();
    CallFollowsPrefix("<script>", first, second, "5", "</script>");
    NoParenNoMatchBefore("<script>" + RenderCall(first, second, "5") + "</script>", 8);
    GetParamsOfWrittenCall("<script>", "\"", "abc123", "\"", "", 8, "", "5", "</script>", 0);
  }

  /** The example page is a written call: salt "abc123" between
      quotes, the numeral of 8 and patience 5. */
  lemma ExamplePage()
    ensures "<script>" + "window.sssg_challenge(\"abc123\",8,5);" + "</script>"
            == "<script>" + RenderCall("\"" + "abc123" + "\"", "" + DecimalString(8) + "", "5") + "</script>"
  {
    assert "\"" + "abc123" + "\"" == "\"abc123\"";
    assert DecimalString(8) == "8";
    assert "" + "8" + "" == "8";
    ExampleCallText();
  }

  /** The call of the example page, written out. */
  lemma ExampleCallText()
    ensures RenderCall("\"abc123\"", "8", "5") == "window.sssg_challenge(\"abc123\",8,5);"
  {
  }
}
