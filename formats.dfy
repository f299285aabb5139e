/**
 * Content formats of a response body: detection from the `Content-Type`
 * header, detection by sniffing the body, and the urlencoded body codec.
 */
module Formats {
  import opened Options
  import opened Text

  /** The symbolic formats a body can be classified as; unknown is `None`. */
  datatype Format = Urlencoded | Json | Xml

  /** The media type of a `Content-Type` value: the part before any `;` parameter, trimmed and case-folded. */
  function MediaType(contentType: string): (r: string)
    ensures ';' !in r
    ensures forall i :: 0 <= i < |r| ==> !('A' <= r[i] <= 'Z')
    ensures r == [] || (!IsSpace(r[0]) && !IsSpace(r[|r| - 1]))
  {
    var head := Split(contentType, ';')[0];
    assert ';' !in Trim(head);
    Lower(Trim(head))
  }

  /** Parameters after the first `;` never change the media type. */
  lemma MediaTypeParameters(mediaType: string, parameters: string)
    requires ';' !in mediaType
    ensures MediaType(mediaType + ";" + parameters) == MediaType(mediaType)
  {
    assert mediaType + ";" + parameters == mediaType + [';'] + parameters;
    SplitCons(mediaType, ';', parameters);
    SplitNone(mediaType, ';');
  }

  /** A bare media type without parameters, padding or upper-case letters is its own media type. */
  lemma BareMediaType(mediaType: string)
    requires ';' !in mediaType
    requires mediaType == [] || (!IsSpace(mediaType[0]) && !IsSpace(mediaType[|mediaType| - 1]))
    requires forall i :: 0 <= i < |mediaType| ==> !('A' <= mediaType[i] <= 'Z')
    ensures MediaType(mediaType) == mediaType
  {
    SplitNone(mediaType, ';');
    assert Split(mediaType, ';')[0] == mediaType;
    TrimUnchanged(mediaType);
    LowerUnchanged(mediaType);
  }

  /** A `Content-Type` value with parameters maps as its bare media type. */
  lemma ParameterizedContentType(mediaType: string, parameters: string)
    requires ';' !in mediaType
    requires mediaType == [] || (!IsSpace(mediaType[0]) && !IsSpace(mediaType[|mediaType| - 1]))
    requires forall i :: 0 <= i < |mediaType| ==> !('A' <= mediaType[i] <= 'Z')
    ensures FormatOfContentType(mediaType + ";" + parameters) == FormatOfMediaType(mediaType)
  {
    assert MediaType(mediaType + ";" + parameters) == mediaType by {
      MediaTypeParameters(mediaType, parameters);
      BareMediaType(mediaType);
    }
  }

  /** The format a media type stands for, if any. */
  function FormatOfMediaType(mediaType: string): (r: Option<Format>)
    ensures r == Some(Urlencoded) <==> mediaType == "application/x-www-form-urlencoded"
    ensures r == Some(Json) <==> mediaType == "application/json"
    ensures r == Some(Xml) <==> mediaType in {"text/xml", "application/xml"}
  {
    if mediaType == "application/x-www-form-urlencoded" then Some(Urlencoded)
    else if mediaType == "application/json" then Some(Json)
    else if mediaType == "text/xml" || mediaType == "application/xml" then Some(Xml)
    else None
  }

  function FormatOfContentType(contentType: string): Option<Format> {
    FormatOfMediaType(MediaType(contentType))
  }

  /** The format each `Content-Type` value names, in order. */
  function FormatsOf(contentTypes: seq<string>): (r: seq<Option<Format>>)
    ensures |r| == |contentTypes|
    ensures forall i :: 0 <= i < |r| ==> r[i] == FormatOfContentType(contentTypes[i])
  {
    seq(|contentTypes|, i requires 0 <= i < |contentTypes| => FormatOfContentType(contentTypes[i]))
  }

  /** The first known format of a sequence, scanning from the front. */
  function FirstKnown(formats: seq<Option<Format>>): Option<Format> {
    if |formats| == 0 then None
    else if formats[0].Some? then formats[0]
    else FirstKnown(formats[1..])
  }

  /** Detection by header: the format of the first `Content-Type` value that names a known one. */
  function DetectByHeaders(contentTypes: seq<string>): Option<Format> {
    FirstKnown(FormatsOf(contentTypes))
  }

  /** Entry `i` is the first known format, and it is `f`. */
  ghost predicate FirstKnownAt(formats: seq<Option<Format>>, i: int, f: Format) {
    && 0 <= i < |formats|
    && formats[i] == Some(f)
    && forall j :: 0 <= j < i ==> formats[j].None?
  }

  lemma {:induction false} FirstKnownSound(formats: seq<Option<Format>>, f: Format)
    requires FirstKnown(formats) == Some(f)
    ensures exists i :: FirstKnownAt(formats, i, f)
  {
    if formats[0].Some? {
      assert FirstKnownAt(formats, 0, f);
    } else {
      var rest := formats[1..];
      FirstKnownSound(rest, f);
      var i :| FirstKnownAt(rest, i, f);
      assert forall j :: 0 < j < i + 1 ==> formats[j] == rest[j - 1];
      assert FirstKnownAt(formats, i + 1, f);
    }
  }

  lemma {:induction false} FirstKnownComplete(formats: seq<Option<Format>>, i: int, f: Format)
    requires FirstKnownAt(formats, i, f)
    ensures FirstKnown(formats) == Some(f)
  {
    if i > 0 {
      var rest := formats[1..];
      assert forall j :: 0 <= j < i - 1 ==> rest[j] == formats[j + 1];
      assert FirstKnownAt(rest, i - 1, f);
      FirstKnownComplete(rest, i - 1, f);
    }
  }

  lemma {:induction false} FirstKnownNone(formats: seq<Option<Format>>)
    ensures FirstKnown(formats).None? <==> forall i :: 0 <= i < |formats| ==> formats[i].None?
  {
    if |formats| > 0 {
      var rest := formats[1..];
      FirstKnownNone(rest);
      assert forall i :: 0 < i < |formats| ==> formats[i] == rest[i - 1];
    }
  }

  /** Value `i` is the first `Content-Type` value naming a known format, and that format is `f`. */
  ghost predicate FirstMatchAt(contentTypes: seq<string>, i: int, f: Format) {
    && 0 <= i < |contentTypes|
    && FormatOfContentType(contentTypes[i]) == Some(f)
    && forall j :: 0 <= j < i ==> FormatOfContentType(contentTypes[j]).None?
  }

  /** Header detection yields `f` exactly when some value maps to `f` and no earlier value maps to anything. */
  lemma DetectByHeadersFirstMatch(contentTypes: seq<string>, f: Format)
    ensures DetectByHeaders(contentTypes) == Some(f) <==> exists i :: FirstMatchAt(contentTypes, i, f)
  {
    var formats := FormatsOf(contentTypes);
    if DetectByHeaders(contentTypes) == Some(f) {
      FirstKnownSound(formats, f);
      var i :| FirstKnownAt(formats, i, f);
      assert FirstMatchAt(contentTypes, i, f);
    }
    if exists i :: FirstMatchAt(contentTypes, i, f) {
      var i :| FirstMatchAt(contentTypes, i, f);
      assert FirstKnownAt(formats, i, f);
      FirstKnownComplete(formats, i, f);
    }
  }

  /** No `Content-Type` value names a known format. */
  ghost predicate NoneMatch(contentTypes: seq<string>) {
    forall i :: 0 <= i < |contentTypes| ==> FormatOfContentType(contentTypes[i]).None?
  }

  /** Header detection yields nothing exactly when no value names a known format. */
  lemma DetectByHeadersNone(contentTypes: seq<string>)
    ensures DetectByHeaders(contentTypes).None? <==> NoneMatch(contentTypes)
  {
    var formats := FormatsOf(contentTypes);
    FirstKnownNone(formats);
    assert (forall i :: 0 <= i < |formats| ==> formats[i].None?) <==>
      forall i :: 0 <= i < |contentTypes| ==> FormatOfContentType(contentTypes[i]).None?;
  }

  /** A piece of text that opens like a JSON value or an XML document. */
  predicate OpensStructure(s: string) {
    |s| > 0 && (s[0] == '{' || s[0] == '[' || s[0] == '<')
  }

  /**
   * One `key=value` pair: exactly one `=`, no `&`, and not the opening of a
   * JSON or XML document. The key or the value may be empty (`a=`).
   */
  predicate IsFormPair(segment: string) {
    |Split(segment, '=')| == 2 && '&' !in segment && !OpensStructure(segment)
  }

  /** A body shaped like `key=value[&key=value...]`. */
  predicate IsFormEncoded(body: string) {
    var segments := Split(body, '&');
    forall i :: 0 <= i < |segments| ==> IsFormPair(segments[i])
  }

  /** A body that opens and closes as a JSON object or array. */
  predicate LooksLikeJson(body: string) {
    |body| >= 2 &&
    ((body[0] == '{' && body[|body| - 1] == '}') || (body[0] == '[' && body[|body| - 1] == ']'))
  }

  /** A body that opens with a tag (an XML declaration or a root element) and closes one. */
  predicate LooksLikeXml(body: string) {
    |body| >= 2 && body[0] == '<' && body[|body| - 1] == '>'
  }

  /** The first piece of a split starts with the string's first character, unless that is the separator. */
  lemma SplitHead(s: string, sep: char)
    requires |s| > 0 && s[0] != sep
    ensures |Split(s, sep)[0]| > 0 && Split(s, sep)[0][0] == s[0]
  {
    match Find(s, sep)
    case None =>
    case Some(k) =>
      assert k > 0;
  }

  /** A body that opens like JSON or XML is never urlencoded, whatever `=` and `&` it holds. */
  lemma StructureNotForm(body: string)
    requires OpensStructure(body)
    ensures !IsFormEncoded(body)
  {
    SplitHead(body, '&');
    assert !IsFormPair(Split(body, '&')[0]);
  }

  /**
   * Detection by content: urlencoded, then JSON, then XML; anything else is
   * unknown. A body shaped like JSON or XML is always classified so, even
   * when it holds `key=value` text.
   */
  function DetectByContent(body: string): (r: Option<Format>)
    ensures r == Some(Urlencoded) <==> IsFormEncoded(body)
    ensures LooksLikeJson(body) ==> r == Some(Json)
    ensures LooksLikeXml(body) ==> r == Some(Xml)
    ensures r.None? <==> !IsFormEncoded(body) && !LooksLikeJson(body) && !LooksLikeXml(body)
  {
    if OpensStructure(body) then StructureNotForm(body); DetectStructure(body)
    else if IsFormEncoded(body) then Some(Urlencoded)
    else None
  }

  /** The classification of a body that opens like JSON or XML. */
  function DetectStructure(body: string): (r: Option<Format>)
    requires OpensStructure(body)
  {
    if LooksLikeJson(body) then Some(Json)
    else if LooksLikeXml(body) then Some(Xml)
    else None
  }

  /** A body without `=` is not urlencoded. */
  lemma NoEqualsNotForm(body: string)
    requires '=' !in body
    ensures !IsFormEncoded(body)
  {
    var segments := Split(body, '&');
    JoinSplit(body, '&');
    SplitNoChar(segments, '&', '=');
    SplitNone(segments[0], '=');
  }

  /** A body with no `=`, `{`, `[` or `<` is never classified. */
  lemma PlainTextUnknown(body: string)
    requires '=' !in body && '{' !in body && '[' !in body && '<' !in body
    ensures DetectByContent(body).None?
  {
    NoEqualsNotForm(body);
    if |body| >= 2 { assert body[0] in body; }
  }

  /** A character absent from a joined string is absent from every piece. */
  lemma {:induction false} SplitNoChar(parts: seq<string>, sep: char, c: char)
    requires c !in Join(parts, sep)
    ensures forall i :: 0 <= i < |parts| ==> c !in parts[i]
  {
    if |parts| > 1 {
      var rest := Join(parts[1..], sep);
      assert Join(parts, sep) == parts[0] + [sep] + rest;
      forall k | 0 <= k < |parts[0]| ensures parts[0][k] != c {
        assert Join(parts, sep)[k] == parts[0][k];
      }
      forall k | 0 <= k < |rest| ensures rest[k] != c {
        assert Join(parts, sep)[|parts[0]| + 1 + k] == rest[k];
      }
      SplitNoChar(parts[1..], sep, c);
      forall i | 1 <= i < |parts| ensures c !in parts[i] {
        assert parts[i] == parts[1..][i - 1];
      }
    }
  }

  /** A urlencoded segment read as a pair; a segment without `=` has an empty value. */
  function ParsePair(segment: string): (string, string) {
    match Find(segment, '=')
    case None => (segment, "")
    case Some(k) => (segment[..k], segment[k + 1..])
  }

  /** The fields of the segments in order; empty segments are skipped and a later key replaces an earlier one. */
  function FieldsOf(segments: seq<string>): map<string, string> {
    if |segments| == 0 then map[]
    else
      var fields := FieldsOf(segments[..|segments| - 1]);
      var last := segments[|segments| - 1];
      if last == "" then fields
      else
        var pair := ParsePair(last);
        fields[pair.0 := pair.1]
  }

  /** Parses a urlencoded body into its fields. */
  function ParseForm(body: string): map<string, string> {
    FieldsOf(Split(body, '&'))
  }

  /** A pair as `key=value`. */
  function EncodePair(pair: (string, string)): string {
    pair.0 + "=" + pair.1
  }

  /** Serialises pairs as a urlencoded body: `key=value` joined with `&`. */
  function EncodeForm(pairs: seq<(string, string)>): string {
    Join(seq(|pairs|, i requires 0 <= i < |pairs| => EncodePair(pairs[i])), '&')
  }

  /** The map that pairs denote, a later key replacing an earlier one. */
  function ToMap(pairs: seq<(string, string)>): map<string, string> {
    if |pairs| == 0 then map[]
    else ToMap(pairs[..|pairs| - 1])[pairs[|pairs| - 1].0 := pairs[|pairs| - 1].1]
  }

  /** A key or value the codec can carry verbatim. */
  predicate IsFormToken(s: string) {
    '=' !in s && '&' !in s
  }

  predicate WellFormedPairs(pairs: seq<(string, string)>) {
    forall i :: 0 <= i < |pairs| ==> IsFormToken(pairs[i].0) && IsFormToken(pairs[i].1)
  }

  lemma ParseEncodePair(pair: (string, string))
    requires '=' !in pair.0
    ensures ParsePair(EncodePair(pair)) == pair
  {
    FindAfter(pair.0, '=', pair.1);
    var s := EncodePair(pair);
    assert s[..|pair.0|] == pair.0;
    assert s[|pair.0| + 1..] == pair.1;
  }

  lemma {:induction false} FieldsOfEncoded(pairs: seq<(string, string)>)
    requires WellFormedPairs(pairs)
    ensures FieldsOf(seq(|pairs|, i requires 0 <= i < |pairs| => EncodePair(pairs[i]))) == ToMap(pairs)
  {
    var segs := seq(|pairs|, i requires 0 <= i < |pairs| => EncodePair(pairs[i]));
    if |pairs| > 0 {
      var init := pairs[..|pairs| - 1];
      assert segs[..|segs| - 1] == seq(|init|, i requires 0 <= i < |init| => EncodePair(init[i]));
      FieldsOfEncoded(init);
      ParseEncodePair(pairs[|pairs| - 1]);
    }
  }

  /** Parsing a serialised form gives back the fields it was made from. */
  lemma ParseEncodeForm(pairs: seq<(string, string)>)
    requires WellFormedPairs(pairs)
    ensures ParseForm(EncodeForm(pairs)) == ToMap(pairs)
  {
    var segs := seq(|pairs|, i requires 0 <= i < |pairs| => EncodePair(pairs[i]));
    if |pairs| == 0 {
      assert Split("", '&') == [""];
    } else {
      forall i | 0 <= i < |segs| ensures '&' !in segs[i] {
        assert segs[i] == pairs[i].0 + "=" + pairs[i].1;
      }
      SplitJoin(segs, '&');
      FieldsOfEncoded(pairs);
    }
  }

  /**
   * A serialised form is recognised as urlencoded by sniffing, empty values
   * included, provided no key opens like JSON or XML.
   */
  lemma EncodedFormDetected(pairs: seq<(string, string)>)
    requires |pairs| > 0 && WellFormedPairs(pairs)
    requires forall i :: 0 <= i < |pairs| ==> !OpensStructure(pairs[i].0)
    ensures DetectByContent(EncodeForm(pairs)) == Some(Urlencoded)
  {
    var segs := seq(|pairs|, i requires 0 <= i < |pairs| => EncodePair(pairs[i]));
    forall i | 0 <= i < |segs| ensures '&' !in segs[i] && IsFormPair(segs[i]) {
      var p := pairs[i];
      assert segs[i] == p.0 + "=" + p.1;
      if p.0 != "" { assert segs[i][0] == p.0[0]; }
      SplitJoin([p.0, p.1], '=');
      assert Join([p.0, p.1], '=') == segs[i];
    }
    SplitJoin(segs, '&');
  }
}
