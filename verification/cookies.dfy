/** `cookie_from_string`: meant to turn a `Set-Cookie`-style line and a
    domain into the record `http.cookiejar` stores. As written, the final
    constructor call always raises (see `CookieFromStringAsWritten`). */
module Cookies {
  import opened Wrappers
  import opened Text

  /** The fields of `http.cookiejar.Cookie` that `cookie_from_string` sets.
      `expires` keeps the text of the date; reading it as a timestamp is not
      part of this model. */
  datatype Cookie = Cookie(
    version: int,
    name: string, value: string,
    port: Option<string>, portSpecified: bool,
    domain: string, domainSpecified: bool, domainInitialDot: bool,
    path: Option<string>, pathSpecified: bool,
    secure: bool,
    expires: Option<string>,
    comment: Option<string>, commentUrl: Option<string>,
    rfc2109: bool)

  datatype CookieError =
    | MalformedNameValue               // `name, value = parts[0].split("=")` raises
    | MalformedAttribute(index: nat)   // `k, v = tok.split("=")` raises on `parts[index]`
    | MissingArguments(names: set<string>) // `Cookie(...)` raises for want of these

  /** `[t.strip() for t in text.split(";")]`. */
  function Segments(text: string): (parts: seq<string>)
    ensures |parts| == multiset(text)[';'] + 1
    ensures forall k :: 0 <= k < |parts| ==> parts[k] == Strip(Split(text, ';')[k], IsSpace)
  {
    var pieces := Split(text, ';');
    seq(|pieces|, k requires 0 <= k < |pieces| => Strip(pieces[k], IsSpace))
  }

  /** No segment holds a ';' or starts or ends with whitespace. */
  lemma SegmentsAreStripped(text: string)
    ensures forall k :: 0 <= k < |Segments(text)| ==> ';' !in Segments(text)[k]
    ensures forall k :: 0 <= k < |Segments(text)| ==>
              var part := Segments(text)[k];
              part == [] || (!IsSpace(part[0]) && !IsSpace(part[|part| - 1]))
  {
    var parts, pieces := Segments(text), Split(text, ';');
    forall k | 0 <= k < |parts|
      ensures ';' !in parts[k]
      ensures parts[k] == [] || (!IsSpace(parts[k][0]) && !IsSpace(parts[k][|parts[k]| - 1]))
    {
      var part := Strip(pieces[k], IsSpace);
      assert parts[k] == part;
      assert ';' !in pieces[k];
    }
  }

  /** `k, v = tok.split("=")`: the key and the value around the segment's
      only '=', and nothing when it has none or more than one. */
  function KeyValue(segment: string): (kv: Option<(string, string)>)
    ensures kv.Some? ==> segment == kv.value.0 + "=" + kv.value.1
    ensures kv.Some? ==> '=' !in kv.value.0 && '=' !in kv.value.1
  {
    if '=' !in segment then None
    else
      var i := IndexOf(segment, '=');
      if '=' in segment[i + 1..] then None
      else
        assert segment == segment[..i] + "=" + segment[i + 1..];
        Some((segment[..i], segment[i + 1..]))
  }

  /** `KeyValue` is the two fields of `split("=")` when there are two. */
  lemma KeyValueIsSplit(segment: string)
    ensures KeyValue(segment).Some? <==> multiset(segment)['='] == 1
    ensures KeyValue(segment).Some? <==> |Split(segment, '=')| == 2
    ensures KeyValue(segment).Some? ==>
              Split(segment, '=') == [KeyValue(segment).value.0, KeyValue(segment).value.1]
  {
    var kv := KeyValue(segment);
    if kv.Some? {
      SplitJoin([kv.value.0, kv.value.1], '=');
    } else if '=' in segment {
      var i := IndexOf(segment, '=');
      var j := i + 1 + IndexOf(segment[i + 1..], '=');
      TwoOccurrences(segment, '=', i, j);
    }
  }

  /** A character found at two positions occurs at least twice. */
  lemma TwoOccurrences(s: string, c: char, i: nat, j: nat)
    requires i < j < |s| && s[i] == c && s[j] == c
    ensures multiset(s)[c] >= 2
  {
    assert s == s[..i] + [s[i]] + s[i + 1..j] + [s[j]] + s[j + 1..];
  }

  /** The attributes after the name and value, as key and value, in the
      order the loop meets them. */
  function Attributes(parts: seq<string>): (attrs: seq<(string, string)>)
    requires forall k :: 1 <= k < |parts| ==> KeyValue(parts[k]).Some?
    ensures |attrs| == if parts == [] then 0 else |parts| - 1
    ensures forall k :: 1 <= k < |parts| ==> attrs[k - 1] == KeyValue(parts[k]).value
  {
    if |parts| <= 1 then []
    else
      var init := parts[..|parts| - 1];
      assert forall k :: 0 <= k < |init| ==> init[k] == parts[k];
      var front := Attributes(init);
      var last := KeyValue(parts[|parts| - 1]).value;
      var attrs := front + [last];
      assert forall k :: 1 <= k < |parts| ==> attrs[k - 1] == KeyValue(parts[k]).value by {
        forall k | 1 <= k < |parts|
          ensures attrs[k - 1] == KeyValue(parts[k]).value
        {
          if k < |parts| - 1 {
            assert init[k] == parts[k];
            assert attrs[k - 1] == front[k - 1];
          }
        }
      }
      attrs
  }

  /** The position of the last attribute named `key` (compared exactly, so
      case matters), if there is one. */
  function LastIndex(attrs: seq<(string, string)>, key: string): (i: Option<nat>)
    ensures i.None? <==> forall k :: 0 <= k < |attrs| ==> attrs[k].0 != key
    ensures i.Some? ==> i.value < |attrs| && attrs[i.value].0 == key
    ensures i.Some? ==> forall k :: i.value < k < |attrs| ==> attrs[k].0 != key
  {
    if attrs == [] then None
    else if attrs[|attrs| - 1].0 == key then Some(|attrs| - 1)
    else
      assert forall k :: 0 <= k < |attrs| - 1 ==> attrs[..|attrs| - 1][k] == attrs[k];
      LastIndex(attrs[..|attrs| - 1], key)
  }

  /** The value of the last attribute named `key`: what the loop leaves in
      `path` for "path" and in `expires` for "expires". */
  function LastValue(attrs: seq<(string, string)>, key: string): (v: Option<string>)
    ensures v.None? <==> forall k :: 0 <= k < |attrs| ==> attrs[k].0 != key
    ensures v.Some? ==> (key, v.value) in attrs
  {
    match LastIndex(attrs, key)
    case None => None
    case Some(i) => Some(attrs[i].1)
  }

  /** One more attribute: it is the last one named `key` if it has that
      name, and otherwise changes nothing for `key`. */
  lemma LastValueAppend(attrs: seq<(string, string)>, a: (string, string), key: string)
    ensures LastValue(attrs + [a], key) == if a.0 == key then Some(a.1) else LastValue(attrs, key)
  {
    assert (attrs + [a])[..|attrs|] == attrs;
  }

  /** The attributes read so far are those of `parts[1..i]`. */
  predicate ReadUpTo(parts: seq<string>, attrs: seq<(string, string)>, i: nat)
  {
    && 1 <= i <= |parts|
    && |attrs| == i - 1
    && forall k :: 1 <= k < i ==> KeyValue(parts[k]) == Some(attrs[k - 1])
  }

  /** Reading the attribute `parts[i]` extends what has been read. */
  lemma ReadOneMore(parts: seq<string>, attrs: seq<(string, string)>, i: nat, a: (string, string))
    requires ReadUpTo(parts, attrs, i) && i < |parts|
    requires KeyValue(parts[i]) == Some(a)
    ensures ReadUpTo(parts, attrs + [a], i + 1)
  {
    var next := attrs + [a];
    forall k | 1 <= k < i + 1 ensures KeyValue(parts[k]) == Some(next[k - 1]) {
      if k < i {
        assert next[k - 1] == attrs[k - 1];
      }
    }
  }

  /** Once every attribute is read, they are `Attributes(parts)`. */
  lemma ReadAll(parts: seq<string>, attrs: seq<(string, string)>)
    requires ReadUpTo(parts, attrs, |parts|)
    ensures forall k :: 1 <= k < |parts| ==> KeyValue(parts[k]).Some?
    ensures attrs == Attributes(parts)
  {
    var expected := Attributes(parts);
    forall k | 0 <= k < |attrs| ensures attrs[k] == expected[k] {
      assert KeyValue(parts[k + 1]) == Some(attrs[k]);
    }
  }

  /** The loop of `cookie_from_string` over the segments `parts` of the
      line: the error of the first segment that is not one `key=value`
      pair, or the cookie. */
  method CookieFromSegments(parts: seq<string>, domain: string) returns (r: Result<Cookie, CookieError>)
    requires parts != []
    ensures r == Failure(MalformedNameValue) <==> KeyValue(parts[0]).None?
    ensures r.Success? <==> forall k :: 0 <= k < |parts| ==> KeyValue(parts[k]).Some?
    ensures r.Failure? ==> r.error.MalformedNameValue? || r.error.MalformedAttribute?
    ensures r.Failure? && r.error.MalformedAttribute? ==>
              && 1 <= r.error.index < |parts|
              && KeyValue(parts[r.error.index]).None?
              && forall k :: 0 <= k < r.error.index ==> KeyValue(parts[k]).Some?
    ensures r.Success? ==>
              && KeyValue(parts[0]) == Some((r.value.name, r.value.value))
              && r.value.path == LastValue(Attributes(parts), "path")
              && r.value.pathSpecified == r.value.path.Some?
              && r.value.expires == LastValue(Attributes(parts), "expires")
              && r.value.domain == domain
              && r.value.version == 0 && r.value.port == None && !r.value.portSpecified
              && r.value.domainSpecified && !r.value.domainInitialDot && !r.value.secure
              && r.value.comment == None && r.value.commentUrl == None && !r.value.rfc2109
  {
    var nameValue := KeyValue(parts[0]);
    if nameValue.None? {
      return Failure(MalformedNameValue);
    }
    var path: Option<string> := None;
    var expires: Option<string> := None;
    ghost var attrs: seq<(string, string)> := [];
    for i := 1 to |parts|
      invariant ReadUpTo(parts, attrs, i)
      invariant path == LastValue(attrs, "path") && expires == LastValue(attrs, "expires")
    {
      var kv := KeyValue(parts[i]);
      if kv.None? {
        return Failure(MalformedAttribute(i));
      }
      var (key, val) := kv.value;
      if key == "path" {
        path := Some(val);
      }
      if key == "expires" {
        expires := Some(val);
      }
      LastValueAppend(attrs, (key, val), "path");
      LastValueAppend(attrs, (key, val), "expires");
      ReadOneMore(parts, attrs, i, (key, val));
      attrs := attrs + [(key, val)];
    }
    ReadAll(parts, attrs);
    var (name, value) := nameValue.value;
    return Success(Cookie(
      version := 0,
      name := name, value := value,
      port := None, portSpecified := false,
      domain := domain, domainSpecified := true, domainInitialDot := false,
      path := path, pathSpecified := path.Some?,
      secure := false,
      expires := expires,
      comment := None, commentUrl := None,
      rfc2109 := false));
  }

  /** `cookie_from_string(text, domain)` with the record built as the code
      evidently means it to be. */
  method CookieFromString(text: string, domain: string) returns (r: Result<Cookie, CookieError>)
    ensures r == Failure(MalformedNameValue) <==> KeyValue(Segments(text)[0]).None?
    ensures r.Success? <==> forall k :: 0 <= k < |Segments(text)| ==> KeyValue(Segments(text)[k]).Some?
    ensures r.Failure? ==> r.error.MalformedNameValue? || r.error.MalformedAttribute?
    ensures r.Failure? && r.error.MalformedAttribute? ==>
              && 1 <= r.error.index < |Segments(text)|
              && KeyValue(Segments(text)[r.error.index]).None?
              && forall k :: 0 <= k < r.error.index ==> KeyValue(Segments(text)[k]).Some?
    ensures r.Success? ==>
              var parts := Segments(text);
              && KeyValue(parts[0]) == Some((r.value.name, r.value.value))
              && r.value.path == LastValue(Attributes(parts), "path")
              && r.value.pathSpecified == r.value.path.Some?
              && r.value.expires == LastValue(Attributes(parts), "expires")
              && r.value.domain == domain
              && r.value.version == 0 && r.value.port == None && !r.value.portSpecified
              && r.value.domainSpecified && !r.value.domainInitialDot && !r.value.secure
              && r.value.comment == None && r.value.commentUrl == None && !r.value.rfc2109
  {
    r := CookieFromSegments(Segments(text), domain);
  }

  /** The keyword arguments `cookie_from_string` passes to `Cookie(...)`. */
  const PassedArguments: set<string> := {
    "version", "name", "value", "port", "port_specified", "domain",
    "domain_specified", "domain_initial_dot", "path", "path_specified",
    "secure", "expires", "comment", "comment_url", "rfc2109"}

  /** The parameters of `http.cookiejar.Cookie` that have no default value
      (`rfc2109` is the only one that has). */
  const RequiredParameters: set<string> := {
    "version", "name", "value", "port", "port_specified", "domain",
    "domain_specified", "domain_initial_dot", "path", "path_specified",
    "secure", "expires", "discard", "comment", "comment_url", "rest"}

  /** The call leaves `discard` and `rest` without a value. */
  lemma CookieCallMissesArguments()
    ensures RequiredParameters - PassedArguments == {"discard", "rest"}
  {
  }

  /** `cookie_from_string` as written: the parsing of `CookieFromString`,
      then the constructor call, which raises `TypeError` because two
      required arguments are missing. It never returns a cookie. */
  method CookieFromStringAsWritten(text: string, domain: string) returns (r: Result<Cookie, CookieError>)
    ensures r.Failure?
    ensures (forall k :: 0 <= k < |Segments(text)| ==> KeyValue(Segments(text)[k]).Some?)
            <==> r == Failure(MissingArguments({"discard", "rest"}))
  {
    r := CookieFromString(text, domain);
    if r.Success? {
      CookieCallMissesArguments();
      r := Failure(MissingArguments(RequiredParameters - PassedArguments));
    }
  }
}
