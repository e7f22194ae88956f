/** `Scraper._is_challenge_page`: recognising the proof-of-work interstitial
    by its exact preamble and its marker text. */
module ChallengePage {
  import opened Text

  /** The interstitial's text the page must contain: one string, written as
      two literals so that the solver can read its first characters. */
  const Marker := "Checking your browser " + "before accessing kiwifarms.net"

  /** The exact preamble the page must begin with, line by line, carriage
      returns included. */
  const DoctypeLine := "<!DOCTYPE html>\r\n"
  const HtmlLine := "<html class=\"no-js\">\r\n"
  const BlankLine := "\r\n"
  const HeadLine := "<head>\r\n"
  const TitleLine := "    <title>Just a moment...</title>\r\n"
  const PagePrefix := DoctypeLine + HtmlLine + BlankLine + HeadLine + TitleLine

  /** `Scraper._is_challenge_page` on the response's text. */
  predicate IsChallengePage(text: string): (b: bool)
    ensures b ==> |PagePrefix| + |Marker| <= |text|
  {
    if StartsWith(text, PagePrefix) then
      MarkerNotInPrefix(text);
      Contains(text, Marker)
    else false
  }

  /** Apart from the 'C' of "DOCTYPE", no line of the preamble holds a 'C'. */
  lemma NoCapitalCInDoctype(i: nat)
    requires i < |DoctypeLine| && i != 4
    ensures DoctypeLine[i] != 'C'
  {
  }

  lemma NoCapitalCInLaterLines()
    ensures 'C' !in HtmlLine && 'C' !in BlankLine && 'C' !in HeadLine && 'C' !in TitleLine
  {
  }

  /** The only 'C' of the preamble is the one of "DOCTYPE". */
  lemma OneCapitalCInPrefix(i: nat)
    requires i < |PagePrefix| && i != 4
    ensures PagePrefix[i] != 'C'
  {
    NoCapitalCInLaterLines();
    var p1 := DoctypeLine + HtmlLine;
    var p2 := p1 + BlankLine;
    var p3 := p2 + HeadLine;
    if i < |p3| {
      assert PagePrefix[i] == p3[i];
      if i < |p2| {
        assert p3[i] == p2[i];
        if i < |p1| {
          assert p2[i] == p1[i];
          if i < |DoctypeLine| {
            NoCapitalCInDoctype(i);
            assert p1[i] == DoctypeLine[i];
          } else {
            assert p1[i] == HtmlLine[i - |DoctypeLine|];
          }
        } else {
          assert p2[i] == BlankLine[i - |p1|];
        }
      } else {
        assert p3[i] == HeadLine[i - |p2|];
      }
    } else {
      assert PagePrefix[i] == TitleLine[i - |p3|];
    }
  }

  /** The marker cannot begin inside the preamble: its 'C' would have to be
      the one of "DOCTYPE", which is followed by 'T' and not by 'h'. */
  lemma MarkerNotInPrefix(text: string)
    requires StartsWith(text, PagePrefix)
    ensures forall i :: 0 <= i < |PagePrefix| ==> !OccursAt(text, Marker, i)
  {
    forall i | 0 <= i < |PagePrefix|
      ensures !OccursAt(text, Marker, i)
    {
      assert text[i] == PagePrefix[i];
      if i == 4 {
        assert text[5] == PagePrefix[5] == 'T';
        assert Marker[1] == 'h';
      } else {
        OneCapitalCInPrefix(i);
        assert Marker[0] == 'C';
      }
    }
  }

  /** An occurrence in `text[p..]` is an occurrence in `text`, `p` further on,
      and the other way round. */
  lemma OccursAtShift(text: string, sub: string, p: nat, i: nat)
    requires p <= |text|
    ensures OccursAt(text[p..], sub, i) <==> OccursAt(text, sub, i + p)
  {
    if i + p + |sub| <= |text| {
      assert text[p..][i..i + |sub|] == text[i + p..i + p + |sub|];
    }
  }

  /** A challenge page is exactly a text that begins with the preamble and
      has the marker somewhere after it. */
  lemma ChallengePageIff(text: string)
    ensures IsChallengePage(text) <==> StartsWith(text, PagePrefix) && Contains(text[|PagePrefix|..], Marker)
  {
    if StartsWith(text, PagePrefix) {
      var p := |PagePrefix|;
      var rest := text[p..];
      if Contains(text, Marker) {
        var i :| 0 <= i <= |text| && OccursAt(text, Marker, i);
        MarkerNotInPrefix(text);
        OccursAtShift(text, Marker, p, i - p);
      }
      if Contains(rest, Marker) {
        var i :| 0 <= i <= |rest| && OccursAt(rest, Marker, i);
        OccursAtShift(text, Marker, p, i);
      }
    }
  }

  /** A text that differs from the preamble in any one of its characters is
      not a challenge page, whatever follows. */
  lemma AlteredPrefixIsNotChallenge(text: string, k: nat)
    requires k < |PagePrefix| && k < |text| && text[k] != PagePrefix[k]
    ensures !IsChallengePage(text)
  {
  }

  /** The same page served with bare line feeds instead of CRLF is not
      recognised. */
  lemma LineFeedPageIsNotChallenge(rest: string)
    ensures !IsChallengePage("<!DOCTYPE html>\n" + rest)
  {
    var text := "<!DOCTYPE html>\n" + rest;
    assert text[15] == '\n';
    assert PagePrefix[15] == DoctypeLine[15] == '\r';
    AlteredPrefixIsNotChallenge(text, 15);
  }
}
