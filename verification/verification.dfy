/** The verification request `Scraper.get` sends once `solve` has answered:
    the salt as the last path segment and the counter, in decimal, as the
    whole query string. */
module Verification {
  import opened Wrappers
  import opened Text
  import opened Decimal

  const ApiBase := "https://kiwifarms.net/.sssg/api/"

  /** `f"https://kiwifarms.net/.sssg/api/{salt}?{counter}"`. */
  function VerifyUrl(salt: string, counter: nat): (url: string)
    ensures StartsWith(url, ApiBase) && '?' in url
    ensures LastIndexOf(url, '?') == |ApiBase| + |salt|
    ensures url[|ApiBase|..|ApiBase| + |salt|] == salt
    ensures url[|ApiBase| + |salt| + 1..] == DecimalString(counter)
  {
    var d := DecimalString(counter);
    assert '?' !in d by {
      assert forall i :: 0 <= i < |d| ==> IsDigit(d[i]);
    }
    LastIndexOfBefore(ApiBase + salt, '?', d);
    ApiBase + salt + "?" + d
  }

  /** How the receiving end reads such an address: the salt runs up to the
      last '?', the counter is the canonical numeral after it. */
  function SplitVerifyUrl(url: string): (r: Option<(string, nat)>)
    ensures r.Some? ==> StartsWith(url, ApiBase)
  {
    if !StartsWith(url, ApiBase) then None
    else
      var rest := url[|ApiBase|..];
      if '?' !in rest then None
      else
        var k := LastIndexOf(rest, '?');
        var query := rest[k + 1..];
        if IsCanonical(query) then Some((rest[..k], DigitsValue(query))) else None
  }

  /** The salt and the counter can be read back from the address, whatever
      the salt holds (a '?' in it included). */
  lemma SplitVerifyUrlOfVerifyUrl(salt: string, counter: nat)
    ensures SplitVerifyUrl(VerifyUrl(salt, counter)) == Some((salt, counter))
  {
    var url := VerifyUrl(salt, counter);
    var rest := url[|ApiBase|..];
    LastIndexOfShift(url, |ApiBase|);
    assert rest[..|salt|] == salt;
    assert rest[|salt| + 1..] == DecimalString(counter);
    DigitsValueOfDecimal(counter);
  }

  /** The last '?' of an address whose last '?' lies beyond `p` is the last
      '?' of its tail from `p` on. */
  lemma LastIndexOfShift(url: string, p: nat)
    requires '?' in url && p <= LastIndexOf(url, '?')
    ensures '?' in url[p..] && LastIndexOf(url[p..], '?') == LastIndexOf(url, '?') - p
  {
    var k := LastIndexOf(url, '?');
    var rest := url[p..];
    assert rest[k - p] == url[k] == '?';
  }

  /** Every address the receiving end accepts is the address of what it reads
      out of it. */
  lemma VerifyUrlOfSplitVerifyUrl(url: string)
    requires SplitVerifyUrl(url).Some?
    ensures VerifyUrl(SplitVerifyUrl(url).value.0, SplitVerifyUrl(url).value.1) == url
  {
    var rest := url[|ApiBase|..];
    var k := LastIndexOf(rest, '?');
    var query := rest[k + 1..];
    var salt, counter := rest[..k], DigitsValue(query);
    assert SplitVerifyUrl(url).value == (salt, counter);
    DecimalOfDigitsValue(query);
    Reassemble(url, rest, k);
  }

  /** An address that starts with the base is the base, its tail up to the
      tail's `k`-th character, that character and the rest. */
  lemma Reassemble(url: string, rest: string, k: nat)
    requires StartsWith(url, ApiBase) && rest == url[|ApiBase|..] && k < |rest|
    ensures url == ApiBase + rest[..k] + [rest[k]] + rest[k + 1..]
  {
    assert rest == rest[..k] + [rest[k]] + rest[k + 1..];
    assert url == url[..|ApiBase|] + rest;
  }
}
