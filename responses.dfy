/**
 * The inbound HTTP response: headers, raw body, an optional pinned format,
 * an optional pinned parsed body and an optional explicit status line, with
 * the getters that derive format, parsed body, status, cookies and the
 * diagnostic rendering from that state.
 */
module Responses {
  import opened Options
  import opened Text
  import opened Headers
  import opened Formats
  import opened Cookies
  import opened Status

  const ContentTypeHeader: string := "content-type"
  const SetCookieHeader: string := "set-cookie"

  /**
   * A structured body: the fields of a urlencoded body, the raw text of a
   * body of unknown format, or a JSON or XML document (kept undecoded here).
   */
  datatype ParsedBody =
    | Fields(fields: map<string, string>)
    | Raw(content: string)
    | Document(format: Format, content: string)

  /** Parses a body according to its format. */
  function ParseBody(format: Option<Format>, body: string): (r: ParsedBody)
    ensures format == Some(Urlencoded) ==> r == Fields(ParseForm(body))
    ensures format.None? ==> r == Raw(body)
    ensures format.Some? && format != Some(Urlencoded) ==> r == Document(format.value, body)
  {
    match format
    case None => Raw(body)
    case Some(Urlencoded) => Fields(ParseForm(body))
    case Some(f) => Document(f, body)
  }

  /**
   * The format of a response: when some `Content-Type` value names a known
   * format, the first such value decides; otherwise the body is sniffed.
   */
  function DetectFormat(headers: HeaderCollection, body: string): (r: Option<Format>)
    ensures !NoneMatch(Get(headers, ContentTypeHeader)) ==>
      r.Some? && exists i :: FirstMatchAt(Get(headers, ContentTypeHeader), i, r.value)
    ensures NoneMatch(Get(headers, ContentTypeHeader)) ==> r == DetectByContent(body)
  {
    var contentTypes := Get(headers, ContentTypeHeader);
    var byHeaders := DetectByHeaders(contentTypes);
    DetectByHeadersNone(contentTypes);
    if byHeaders.Some? then
      DetectByHeadersFirstMatch(contentTypes, byHeaders.value);
      byHeaders
    else DetectByContent(body)
  }

  /** Detection gives `f` exactly when a header value decides `f`, or none decides and sniffing the body gives `f`. */
  lemma DetectFormatSpec(headers: HeaderCollection, body: string, f: Format)
    ensures DetectFormat(headers, body) == Some(f) <==>
      (exists i :: FirstMatchAt(Get(headers, ContentTypeHeader), i, f)) ||
      (NoneMatch(Get(headers, ContentTypeHeader)) && DetectByContent(body) == Some(f))
  {
    var contentTypes := Get(headers, ContentTypeHeader);
    DetectByHeadersFirstMatch(contentTypes, f);
    DetectByHeadersNone(contentTypes);
  }

  /** The diagnostic text: one `Name: value` line per header value, a blank line, then the body verbatim. */
  function Render(headers: HeaderCollection, body: string): (text: string)
    ensures |text| >= |body| + 2
    ensures text[|text| - |body|..] == body
    ensures text[|text| - |body| - 2..|text| - |body|] == "\n\n"
  {
    Join(Lines(headers.entries), '\n') + "\n\n" + body
  }

  /** The rendering reads back: the header block splits into the header lines, and the body follows the blank line verbatim. */
  lemma RenderReadsBack(headers: HeaderCollection, body: string)
    requires |Lines(headers.entries)| > 0
    requires forall i :: 0 <= i < |Lines(headers.entries)| ==> '\n' !in Lines(headers.entries)[i]
    ensures var text := Render(headers, body);
      var block := |Join(Lines(headers.entries), '\n')|;
      && Split(text[..block], '\n') == Lines(headers.entries)
      && text[block..block + 2] == "\n\n"
      && text[block + 2..] == body
  {
    var block := Join(Lines(headers.entries), '\n');
    var text := Render(headers, body);
    assert text[..|block|] == block;
    SplitJoin(Lines(headers.entries), '\n');
  }

  class Response {
    var headers: HeaderCollection
    var body: string
    /** A format pinned by configuration; overrides detection. */
    var format: Option<Format>
    /** A parsed body set explicitly; returned verbatim until headers, body or format change. */
    var parsedBody: Option<ParsedBody>
    var statusCode: Option<int>
    var reasonPhrase: Option<string>

    /** The header collection is well formed, so every rendered header reads back (`HeadersReadBack`). */
    ghost predicate Valid()
      reads this
    {
      Headers.Valid(headers)
    }

    constructor ()
      ensures Valid()
      ensures headers == Empty && body == "" && format == None && parsedBody == None
      ensures statusCode == None && reasonPhrase == None
    {
      headers := Empty;
      body := "";
      format := None;
      parsedBody := None;
      statusCode := None;
      reasonPhrase := None;
    }

    /** Replaces the whole header collection; a pinned parsed body is dropped. */
    method SetHeaders(pairs: seq<(string, seq<string>)>)
      modifies this
      ensures Valid()
      ensures headers == FromPairs(pairs)
      ensures forall name :: Get(headers, name) == LastValues(pairs, Lower(name))
      ensures parsedBody == None && GetParsedBody() == ParseBody(GetFormat(), body)
      ensures body == old(body) && format == old(format)
      ensures statusCode == old(statusCode) && reasonPhrase == old(reasonPhrase)
    {
      headers := FromPairs(pairs);
      parsedBody := None;
      forall name ensures Get(headers, name) == LastValues(pairs, Lower(name)) {
        FromPairsGet(pairs, name);
      }
      FromPairsGet(pairs, "");
    }

    /** Replaces the values of one header; a pinned parsed body is dropped. */
    method SetHeader(name: string, values: seq<string>)
      requires Valid()
      modifies this
      ensures Valid()
      ensures headers == Set(old(headers), name, values)
      ensures forall other :: Get(headers, other) == if Lower(other) == Lower(name) then values else Get(old(headers), other)
      ensures parsedBody == None && GetParsedBody() == ParseBody(GetFormat(), body)
      ensures body == old(body) && format == old(format)
      ensures statusCode == old(statusCode) && reasonPhrase == old(reasonPhrase)
    {
      SetValid(headers, name, values);
      forall other ensures Get(Set(headers, name, values), other) == if Lower(other) == Lower(name) then values else Get(headers, other) {
        GetSet(headers, name, values, other);
      }
      headers := Set(headers, name, values);
      parsedBody := None;
    }

    /** Appends one value to a header; a pinned parsed body is dropped. */
    method AddHeader(name: string, value: string)
      requires Valid()
      modifies this
      ensures Valid()
      ensures headers == Add(old(headers), name, value)
      ensures Get(headers, name) == Get(old(headers), name) + [value]
      ensures forall other :: Lower(other) != Lower(name) ==> Get(headers, other) == Get(old(headers), other)
      ensures parsedBody == None && GetParsedBody() == ParseBody(GetFormat(), body)
      ensures body == old(body) && format == old(format)
      ensures statusCode == old(statusCode) && reasonPhrase == old(reasonPhrase)
    {
      SetValid(headers, name, Get(headers, name) + [value]);
      GetAdd(headers, name, value, name);
      forall other | Lower(other) != Lower(name) ensures Get(Add(headers, name, value), other) == Get(headers, other) {
        GetAdd(headers, name, value, other);
      }
      headers := Add(headers, name, value);
      parsedBody := None;
    }

    /** Appends content to the body, as a write to the body stream does; a pinned parsed body is dropped. */
    method Write(content: string)
      requires Valid()
      modifies this
      ensures Valid()
      ensures body == old(body) + content
      ensures parsedBody == None && GetParsedBody() == ParseBody(GetFormat(), body)
      ensures headers == old(headers) && format == old(format)
      ensures statusCode == old(statusCode) && reasonPhrase == old(reasonPhrase)
    {
      body := body + content;
      parsedBody := None;
    }

    /** Pins the format, bypassing detection; `None` restores detection. A pinned parsed body is dropped. */
    method SetFormat(f: Option<Format>)
      requires Valid()
      modifies this
      ensures Valid()
      ensures format == f && GetFormat() == (if f.Some? then f else DetectFormat(headers, body))
      ensures parsedBody == None && GetParsedBody() == ParseBody(GetFormat(), body)
      ensures headers == old(headers) && body == old(body)
      ensures statusCode == old(statusCode) && reasonPhrase == old(reasonPhrase)
    {
      format := f;
      parsedBody := None;
    }

    /** Sets the structured body directly; reads return it verbatim, whatever the raw body holds. */
    method SetParsedBody(data: ParsedBody)
      requires Valid()
      modifies this
      ensures Valid()
      ensures parsedBody == Some(data) && GetParsedBody() == data
      ensures headers == old(headers) && body == old(body) && format == old(format)
      ensures statusCode == old(statusCode) && reasonPhrase == old(reasonPhrase)
    {
      parsedBody := Some(data);
    }

    /**
     * Sets the status explicitly. Without a phrase the reason phrase is the
     * standard one for the code.
     */
    method SetStatus(code: int, phrase: Option<string>)
      requires Valid()
      modifies this
      ensures Valid()
      ensures statusCode == Some(code) && reasonPhrase == phrase
      ensures GetStatusCode() == Success(code)
      ensures GetReasonPhrase() == if phrase.Some? then phrase.value else ReasonPhrase(code)
      ensures GetIsOk() == Success(IsOk(code))
      ensures headers == old(headers) && body == old(body)
      ensures format == old(format) && parsedBody == old(parsedBody)
    {
      statusCode := Some(code);
      reasonPhrase := phrase;
    }

    /**
     * The pinned format, else the format of the first `Content-Type` value
     * naming one, else the sniffed one; `None` (unknown) is a legal answer.
     */
    function GetFormat(): (r: Option<Format>)
      reads this
      ensures format.Some? ==> r == format
      ensures format.None? && !NoneMatch(Get(headers, ContentTypeHeader)) ==>
        r.Some? && exists i :: FirstMatchAt(Get(headers, ContentTypeHeader), i, r.value)
      ensures format.None? && NoneMatch(Get(headers, ContentTypeHeader)) ==> r == DetectByContent(body)
    {
      if format.Some? then format else DetectFormat(headers, body)
    }

    /** The explicitly set parsed body, else the body parsed by its format. */
    function GetParsedBody(): (r: ParsedBody)
      reads this
      ensures parsedBody.Some? ==> r == parsedBody.value
      ensures parsedBody.None? && GetFormat() == Some(Urlencoded) ==> r == Fields(ParseForm(body))
      ensures parsedBody.None? && GetFormat().None? ==> r == Raw(body)
    {
      if parsedBody.Some? then parsedBody.value else ParseBody(GetFormat(), body)
    }

    /** The explicit status, else the code the last `http-code` value carries. */
    function GetStatusCode(): (r: Result<int, StatusError>)
      reads this
      ensures statusCode.Some? ==> r == Success(statusCode.value)
      ensures statusCode.None? ==> (r == Failure(StatusUnavailable) <==> Get(headers, StatusHeader) == [])
      ensures statusCode.None? && r.Success? ==>
        var values := Get(headers, StatusHeader);
        ParseNat(values[|values| - 1]) == Some(r.value)
    {
      if statusCode.Some? then Success(statusCode.value) else CodeFromHeader(Get(headers, StatusHeader))
    }

    /** The explicit phrase, else the standard phrase of the code, else the empty string. */
    function GetReasonPhrase(): (r: string)
      reads this
      ensures reasonPhrase.Some? ==> r == reasonPhrase.value
      ensures reasonPhrase.None? && GetStatusCode().Success? ==> r == ReasonPhrase(GetStatusCode().value)
      ensures reasonPhrase.None? && GetStatusCode().Failure? ==> r == ""
    {
      if reasonPhrase.Some? then reasonPhrase.value
      else match GetStatusCode()
        case Success(code) => ReasonPhrase(code)
        case Failure(_) => ""
    }

    /** Whether the status code lies in [200, 300); fails as the status does. */
    function GetIsOk(): (r: Result<bool, StatusError>)
      reads this
      ensures r.Success? <==> GetStatusCode().Success?
      ensures r.Success? ==> (r.value <==> 200 <= GetStatusCode().value < 300)
      ensures r.Failure? ==> r.error == GetStatusCode().error
    {
      match GetStatusCode()
      case Success(code) => Success(IsOk(code))
      case Failure(e) => Failure(e)
    }

    /** The cookies of all `Set-Cookie` values, by name; none when the header is absent. */
    function GetCookies(): (cookies: map<string, Cookie>)
      reads this
      ensures forall n :: n in cookies ==> cookies[n].name == n && n != ""
      ensures |cookies| <= |Get(headers, SetCookieHeader)|
    {
      ParseCookies(Get(headers, SetCookieHeader))
    }

    /** The diagnostic rendering: the header lines, a blank line, then the body verbatim. */
    function ToString(): (text: string)
      reads this
      ensures |text| >= |body| + 2
      ensures text[|text| - |body|..] == body
      ensures text[|text| - |body| - 2..|text| - |body|] == "\n\n"
    {
      Render(headers, body)
    }
  }

  /**
   * Without an explicit status, the last `http-code` value decides the code,
   * the reason phrase and success, whatever values precede it.
   */
  lemma StatusFromHeader(r: Response, earlier: seq<string>, code: nat)
    requires r.statusCode.None? && r.reasonPhrase.None?
    requires Get(r.headers, StatusHeader) == earlier + [ShowNat(code)]
    ensures r.GetStatusCode() == Success(code)
    ensures r.GetReasonPhrase() == ReasonPhrase(code)
    ensures r.GetIsOk() == Success(IsOk(code))
  {
    CodeFromHeaderLastWins(earlier, code);
  }

  /**
   * Every header of a valid response reads back under the canonical name
   * `toString` renders it with, giving exactly the values rendered under it.
   */
  lemma HeadersReadBack(r: Response)
    requires r.Valid()
    ensures forall i :: 0 <= i < |r.headers.entries| ==>
      Get(r.headers, Canonical(r.headers.entries[i].name)) == r.headers.entries[i].values
  {
    forall i | 0 <= i < |r.headers.entries|
      ensures Get(r.headers, Canonical(r.headers.entries[i].name)) == r.headers.entries[i].values
    {
      EntryReadBack(r.headers, i);
    }
  }
}
