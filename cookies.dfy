/**
 * Parsing of `Set-Cookie` header values into cookie records, and the
 * name-keyed cookie collection a response exposes.
 */
module Cookies {
  import opened Options
  import opened Seqs
  import opened Text

  /** A parsed cookie; attribute values other than the flags are kept as raw strings. */
  datatype Cookie = Cookie(
    name: string,
    value: string,
    path: string,
    domain: Option<string>,
    expires: Option<string>,
    maxAge: Option<string>,
    httpOnly: bool,
    secure: bool,
    sameSite: Option<string>)

  /** A cookie with no attributes yet: path `/`, neither http-only nor secure. */
  function NewCookie(name: string, value: string): Cookie {
    Cookie(name, value, "/", None, None, None, false, false, None)
  }

  /** The attribute names recognised, case-folded. */
  const KnownAttributes: set<string> :=
    {"path", "domain", "expires", "max-age", "secure", "httponly", "samesite"}

  /** A segment split at its first `=` (no `=` gives an empty value), both sides trimmed. */
  function NameValue(segment: string): (string, string) {
    match Find(segment, '=')
    case None => (Trim(segment), "")
    case Some(k) => (Trim(segment[..k]), Trim(segment[k + 1..]))
  }

  /** Applies one attribute segment to a cookie; unknown attributes are ignored. */
  function ApplyAttribute(c: Cookie, segment: string): (r: Cookie)
    ensures r.name == c.name && r.value == c.value
  {
    var (attr, v) := NameValue(segment);
    var key := Lower(attr);
    if key == "path" then c.(path := v)
    else if key == "domain" then c.(domain := Some(v))
    else if key == "expires" then c.(expires := Some(v))
    else if key == "max-age" then c.(maxAge := Some(v))
    else if key == "secure" then c.(secure := true)
    else if key == "httponly" then c.(httpOnly := true)
    else if key == "samesite" then c.(sameSite := Some(v))
    else c
  }

  /** What each recognised attribute sets; anything else leaves the cookie as it was. */
  lemma ApplyAttributeSpec(c: Cookie, segment: string)
    ensures var (attr, v) := NameValue(segment);
      && (Lower(attr) !in KnownAttributes ==> ApplyAttribute(c, segment) == c)
      && (Lower(attr) == "path" ==> ApplyAttribute(c, segment) == c.(path := v))
      && (Lower(attr) == "domain" ==> ApplyAttribute(c, segment) == c.(domain := Some(v)))
      && (Lower(attr) == "expires" ==> ApplyAttribute(c, segment) == c.(expires := Some(v)))
      && (Lower(attr) == "max-age" ==> ApplyAttribute(c, segment) == c.(maxAge := Some(v)))
      && (Lower(attr) == "secure" ==> ApplyAttribute(c, segment) == c.(secure := true))
      && (Lower(attr) == "httponly" ==> ApplyAttribute(c, segment) == c.(httpOnly := true))
      && (Lower(attr) == "samesite" ==> ApplyAttribute(c, segment) == c.(sameSite := Some(v)))
  {
  }

  /** Applies attribute segments left to right; a later one overrides an earlier one. */
  function ApplyAttributes(c: Cookie, segments: seq<string>): (r: Cookie)
    ensures r.name == c.name && r.value == c.value
  {
    if |segments| == 0 then c
    else ApplyAttribute(ApplyAttributes(c, segments[..|segments| - 1]), segments[|segments| - 1])
  }

  /**
   * The cookie that `;`-separated segments describe: `name=value` first,
   * attributes after. A first segment without `=` or with an empty name
   * describes no cookie.
   */
  function FromSegments(segments: seq<string>): (r: Option<Cookie>)
    requires |segments| >= 1
    ensures r.None? <==> '=' !in segments[0] || NameValue(segments[0]).0 == ""
    ensures r.Some? ==> r.value.name == NameValue(segments[0]).0 && r.value.value == NameValue(segments[0]).1
  {
    var first := segments[0];
    var (name, value) := NameValue(first);
    if '=' !in first || name == "" then None
    else Some(ApplyAttributes(NewCookie(name, value), segments[1..]))
  }

  /** Parses one `Set-Cookie` value. */
  function ParseCookie(header: string): (r: Option<Cookie>)
    ensures r.Some? ==> r.value.name != ""
  {
    FromSegments(Split(header, ';'))
  }

  /** An attribute appended to a parsable header is applied after all the others. */
  lemma ParseCookieAppend(header: string, segment: string)
    requires ';' !in segment && ParseCookie(header).Some?
    ensures ParseCookie(header + ";" + segment) == Some(ApplyAttribute(ParseCookie(header).value, segment))
  {
    var segments := Split(header, ';');
    assert header + ";" + segment == header + [';'] + segment;
    SplitAppend(header, ';', segment);
    FromSegmentsAppend(segments, segment);
  }

  /** One more segment after the ones that describe a cookie is applied to it last. */
  lemma FromSegmentsAppend(segments: seq<string>, segment: string)
    requires |segments| >= 1 && FromSegments(segments).Some?
    ensures FromSegments(segments + [segment]) == Some(ApplyAttribute(FromSegments(segments).value, segment))
  {
    var longer := segments + [segment];
    var head := segments[0];
    var first := NameValue(head);
    var c := NewCookie(first.0, first.1);
    assert longer[0] == head;
    DropAppend(segments, segment);
    ApplyAttributesAppend(c, segments[1..], segment);
  }

  /** Applying one more segment after a run of them applies it last. */
  lemma ApplyAttributesAppend(c: Cookie, segments: seq<string>, segment: string)
    ensures ApplyAttributes(c, segments + [segment]) == ApplyAttribute(ApplyAttributes(c, segments), segment)
  {
    TakeAppend(segments, segment);
  }

  /** A token that trimming leaves alone. */
  predicate Unpadded(s: string) {
    s == [] || (!IsSpace(s[0]) && !IsSpace(s[|s| - 1]))
  }

  /** A segment with `=` after an `=`-free key splits there. */
  lemma NameValueAt(key: string, value: string)
    requires '=' !in key
    ensures NameValue(key + "=" + value) == (Trim(key), Trim(value))
  {
    var s := key + "=" + value;
    assert s == key + ['='] + value;
    FindAfter(key, '=', value);
    assert s[..|key|] == key;
    assert s[|key| + 1..] == value;
  }

  /** `name=value` with unpadded tokens splits into exactly those tokens. */
  lemma NameValueOfPair(name: string, value: string)
    requires '=' !in name && Unpadded(name) && Unpadded(value)
    ensures NameValue(name + "=" + value) == (name, value)
  {
    TrimUnchanged(name);
    TrimUnchanged(value);
    NameValueAt(name, value);
  }

  /** A bare `name=value` yields a cookie with every default: path `/`, not http-only, not secure. */
  lemma ParseBareCookie(name: string, value: string)
    requires name != "" && Unpadded(name) && Unpadded(value)
    requires '=' !in name && ';' !in name && ';' !in value
    ensures ParseCookie(name + "=" + value) == Some(NewCookie(name, value))
  {
    var header := name + "=" + value;
    NameValueOfPair(name, value);
    assert header[|name|] == '=';
    assert ';' !in header;
    SplitNone(header, ';');
    var segments := [header];
    assert segments[1..] == [];
    assert FromSegments(segments) == Some(ApplyAttributes(NewCookie(name, value), []));
  }

  /** The first segment alone decides a cookie's name and value, whatever attributes follow. */
  lemma ParseCookieFirstSegment(name: string, value: string, attributes: string)
    requires name != "" && Unpadded(name) && Unpadded(value)
    requires '=' !in name && ';' !in name && ';' !in value
    ensures ParseCookie(name + "=" + value + ";" + attributes).Some?
    ensures ParseCookie(name + "=" + value + ";" + attributes).value.name == name
    ensures ParseCookie(name + "=" + value + ";" + attributes).value.value == value
  {
    var first := name + "=" + value;
    NameValueOfPair(name, value);
    assert first[|name|] == '=';
    assert ';' !in first;
    assert first + ";" + attributes == first + [';'] + attributes;
    SplitCons(first, ';', attributes);
    assert Split(first + ";" + attributes, ';')[0] == first;
  }

  /** An attribute segment ` attr=value` as it follows a `;`. */
  lemma AttributeWithValue(attr: string, value: string)
    requires '=' !in attr && attr != "" && Unpadded(attr) && Unpadded(value)
    ensures NameValue(" " + attr + "=" + value) == (attr, value)
  {
    var padded := [' '] + attr;
    assert " " + attr == padded;
    assert '=' !in padded;
    NameValueAt(padded, value);
    TrimSpaceCons(' ', attr);
    TrimUnchanged(attr);
    TrimUnchanged(value);
  }

  /** A flag segment ` attr` as it follows a `;`. */
  lemma FlagAttribute(attr: string)
    requires '=' !in attr && attr != "" && Unpadded(attr)
    ensures NameValue(" " + attr) == (attr, "")
  {
    TrimSpaceCons(' ', attr);
    TrimUnchanged(attr);
  }

  /** Each header parsed on its own. */
  function ParseEach(headers: seq<string>): (parsed: seq<Option<Cookie>>)
    ensures |parsed| == |headers|
    ensures forall i :: 0 <= i < |headers| ==> parsed[i] == ParseCookie(headers[i])
  {
    seq(|headers|, i requires 0 <= i < |headers| => ParseCookie(headers[i]))
  }

  /** Gathers parsed cookies by name: missing ones are skipped and a later name replaces an earlier one. */
  function Collect(parsed: seq<Option<Cookie>>): (r: map<string, Cookie>)
    ensures forall n :: n in r ==> r[n].name == n
    ensures |r| <= |parsed|
  {
    if |parsed| == 0 then map[]
    else
      var cookies := Collect(parsed[..|parsed| - 1]);
      match parsed[|parsed| - 1]
      case None => cookies
      case Some(c) => cookies[c.name := c]
  }

  /**
   * The cookie collection of a response from its `Set-Cookie` values: at
   * most one cookie per value, each filed under its own name, and none
   * without a name.
   */
  function ParseCookies(headers: seq<string>): (cookies: map<string, Cookie>)
    ensures forall n :: n in cookies ==> cookies[n].name == n && n != ""
    ensures |cookies| <= |headers|
  {
    var parsed := ParseEach(headers);
    assert forall n :: n in Collect(parsed) ==> n != "" by {
      forall n | n in Collect(parsed) ensures n != "" {
        CollectSound(parsed, n);
        var i :| LastNamedAt(parsed, i, n, Collect(parsed)[n]);
        assert ParseCookie(headers[i]) == Some(Collect(parsed)[n]);
      }
    }
    Collect(parsed)
  }

  /** Entry `i` is the last parsed cookie named `name`, and that cookie is `c`. */
  ghost predicate LastNamedAt(parsed: seq<Option<Cookie>>, i: int, name: string, c: Cookie) {
    && 0 <= i < |parsed|
    && parsed[i] == Some(c)
    && c.name == name
    && forall j :: i < j < |parsed| ==> parsed[j].None? || parsed[j].value.name != name
  }

  lemma {:induction false} CollectSound(parsed: seq<Option<Cookie>>, name: string)
    requires name in Collect(parsed)
    ensures exists i :: LastNamedAt(parsed, i, name, Collect(parsed)[name])
  {
    var n := |parsed| - 1;
    var init := parsed[..n];
    var c := Collect(parsed)[name];
    if parsed[n].Some? && parsed[n].value.name == name {
      assert LastNamedAt(parsed, n, name, c);
    } else {
      assert name in Collect(init) && Collect(init)[name] == c;
      CollectSound(init, name);
      var i :| LastNamedAt(init, i, name, c);
      assert parsed[i] == init[i];
      assert LastNamedAt(parsed, i, name, c);
    }
  }

  lemma {:induction false} CollectComplete(parsed: seq<Option<Cookie>>, i: int, name: string, c: Cookie)
    requires LastNamedAt(parsed, i, name, c)
    ensures name in Collect(parsed) && Collect(parsed)[name] == c
  {
    var n := |parsed| - 1;
    var init := parsed[..n];
    if i < n {
      assert init[i] == parsed[i];
      assert LastNamedAt(init, i, name, c);
      CollectComplete(init, i, name, c);
    }
  }

  /**
   * The collection holds cookie `c` under `name` exactly when `c` comes from
   * the last header that parses to a cookie of that name.
   */
  lemma ParseCookiesLastWins(headers: seq<string>, name: string, c: Cookie)
    ensures (name in ParseCookies(headers) && ParseCookies(headers)[name] == c) <==>
      exists i :: LastNamedAt(ParseEach(headers), i, name, c)
  {
    var parsed := ParseEach(headers);
    if name in Collect(parsed) && Collect(parsed)[name] == c {
      CollectSound(parsed, name);
    }
    if exists i :: LastNamedAt(parsed, i, name, c) {
      var i :| LastNamedAt(parsed, i, name, c);
      CollectComplete(parsed, i, name, c);
    }
  }

  lemma {:induction false} CollectEmpty(parsed: seq<Option<Cookie>>)
    requires forall i :: 0 <= i < |parsed| ==> parsed[i].None?
    ensures Collect(parsed) == map[]
  {
    if |parsed| > 0 {
      CollectEmpty(parsed[..|parsed| - 1]);
    }
  }

  /** Headers none of which parses give an empty collection. */
  lemma ParseCookiesEmpty(headers: seq<string>)
    requires forall i :: 0 <= i < |headers| ==> ParseCookie(headers[i]).None?
    ensures ParseCookies(headers) == map[]
  {
    CollectEmpty(ParseEach(headers));
  }

  /** One more `Set-Cookie` value that parses: its cookie is filed under its name, replacing any earlier one. */
  lemma ParseCookiesAppend(headers: seq<string>, header: string, c: Cookie)
    requires ParseCookie(header) == Some(c)
    ensures ParseCookies(headers + [header]) == ParseCookies(headers)[c.name := c]
  {
    var parsed := ParseEach(headers + [header]);
    assert parsed[..|headers|] == ParseEach(headers);
  }

  /** One more `Set-Cookie` value that does not parse leaves the collection as it was. */
  lemma ParseCookiesAppendNone(headers: seq<string>, header: string)
    requires ParseCookie(header).None?
    ensures ParseCookies(headers + [header]) == ParseCookies(headers)
  {
    var parsed := ParseEach(headers + [header]);
    assert parsed[..|headers|] == ParseEach(headers);
  }
}
