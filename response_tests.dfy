/**
 * The unit tests of the response, replayed on the model: each method builds
 * a response step by step as its test does and states the outcome the test
 * asserts.
 */
module ResponseTests {
  import opened Options
  import opened Seqs
  import opened Text
  import opened Headers
  import opened Formats
  import opened Cookies
  import opened Status
  import opened Responses

  /** An empty body is not classified. */
  lemma EmptyBodyUnknown()
    ensures DetectByContent("").None?
  {
    PlainTextUnknown("");
  }

  /** The media types the header-detection test feeds in, one per row. */
  lemma UrlencodedRow()
    ensures FormatOfContentType("application/x-www-form-urlencoded") == Some(Urlencoded)
  {
    BareMediaType("application/x-www-form-urlencoded");
  }

  lemma JsonRow()
    ensures FormatOfContentType("application/json") == Some(Json)
  {
    BareMediaType("application/json");
  }

  lemma XmlRow()
    ensures FormatOfContentType("text/xml") == Some(Xml)
  {
    BareMediaType("text/xml");
  }

  /** The first known format of one or two entries. */
  lemma FirstKnownShort(a: Option<Format>, b: Option<Format>)
    ensures FirstKnown([a]) == a
    ensures FirstKnown([None, b]) == b
  {
    assert [a][1..] == [];
    assert FirstKnown([b]) == b by {
      assert [b][1..] == [];
    }
    assert [None, b][1..] == [b];
  }

  /** Proof step: the formats of a one-element list of values. */
  lemma FormatsOfOne(first: string)
    ensures FormatsOf([first]) == [FormatOfContentType(first)]
  {
    Singleton(FormatsOf([first]), FormatOfContentType(first));
  }

  /** Proof step: the formats of a two-element list of values. */
  lemma FormatsOfTwo(first: string, second: string)
    ensures FormatsOf([first, second]) == [FormatOfContentType(first), FormatOfContentType(second)]
  {
    Pair(FormatsOf([first, second]), FormatOfContentType(first), FormatOfContentType(second));
  }

  lemma DetectSingle(contentType: string)
    ensures DetectByHeaders([contentType]) == FormatOfContentType(contentType)
  {
    FormatsOfOne(contentType);
    FirstKnownShort(FormatOfContentType(contentType), None);
  }

  lemma DetectSecond(first: string, second: string)
    requires FormatOfContentType(first).None?
    ensures DetectByHeaders([first, second]) == FormatOfContentType(second)
  {
    FormatsOfTwo(first, second);
    FirstKnownShort(None, FormatOfContentType(second));
  }

  /** With a single `Content-Type` value and an empty body, the format is the one that value names. */
  lemma SingleContentType(headers: HeaderCollection, contentType: string)
    requires Get(headers, ContentTypeHeader) == [contentType]
    ensures DetectFormat(headers, "") == FormatOfContentType(contentType)
  {
    DetectSingle(contentType);
    EmptyBodyUnknown();
  }

  /** Proof step: a single pair's values are what a lookup of its name returns. */
  lemma SinglePair(name: string, values: seq<string>)
    ensures LastValues([(name, values)], Lower(name)) == values
  {
  }

  /** The test spells the header `Content-type`; it is the same header as `content-type`. */
  lemma ContentTypeSpelling(values: seq<string>)
    ensures LastValues([("Content-type", values)], Lower(ContentTypeHeader)) == values
  {
    assert Lower("Content-type") == Lower(ContentTypeHeader);
    SinglePair("Content-type", values);
  }

  /** The header-detection test: one `Content-type` header, nothing written to the body. */
  method DetectFormatByHeaders(contentType: string) returns (f: Option<Format>)
    ensures f == FormatOfContentType(contentType)
    ensures contentType == "application/x-www-form-urlencoded" ==> f == Some(Urlencoded)
    ensures contentType == "application/json" ==> f == Some(Json)
    ensures contentType == "text/xml" ==> f == Some(Xml)
  {
    if contentType == "application/x-www-form-urlencoded" { UrlencodedRow(); }
    if contentType == "application/json" { JsonRow(); }
    if contentType == "text/xml" { XmlRow(); }
    ContentTypeSpelling([contentType]);
    var r := new Response();
    r.SetHeaders([("Content-type", [contentType])]);
    SingleContentType(r.headers, contentType);
    f := r.GetFormat();
  }

  /** `text/html` with a charset parameter names no known format. */
  lemma HtmlRow()
    ensures FormatOfContentType("text/html; charset=utf-8").None?
  {
    assert "text/html; charset=utf-8" == "text/html" + ";" + " charset=utf-8";
    ParameterizedContentType("text/html", " charset=utf-8");
  }

  /** Detection skips the `text/html` value and settles on the JSON one. */
  lemma MultipleRow()
    ensures DetectByHeaders(["text/html; charset=utf-8", "application/json"]) == Some(Json)
  {
    HtmlRow();
    JsonRow();
    DetectSecond("text/html; charset=utf-8", "application/json");
  }

  /** Two `Content-type` values, only the second of which names a format. */
  method DetectFormatByHeadersMultiple() returns (f: Option<Format>)
    ensures f == Some(Json)
  {
    var values := ["text/html; charset=utf-8", "application/json"];
    MultipleRow();
    ContentTypeSpelling(values);
    var r := new Response();
    r.SetHeaders([("Content-type", values)]);
    assert Get(r.headers, ContentTypeHeader) == values;
    f := r.GetFormat();
  }

  lemma TwoFieldsEncoded()
    ensures EncodeForm([("name1", "value1"), ("name2", "value2")]) == "name1=value1&name2=value2"
  {
    var pairs := [("name1", "value1"), ("name2", "value2")];
    var segs := seq(|pairs|, i requires 0 <= i < |pairs| => EncodePair(pairs[i]));
    assert segs[0] == "name1=value1";
    assert segs[1] == "name2=value2";
    assert segs[1..] == ["name2=value2"];
    assert Join(segs, '&') == "name1=value1" + ['&'] + Join(["name2=value2"], '&');
  }

  /** The content-detection rows. */
  lemma FormContentRow()
    ensures DetectByContent("name1=value1&name2=value2") == Some(Urlencoded)
  {
    TwoFieldsEncoded();
    EncodedFormDetected([("name1", "value1"), ("name2", "value2")]);
  }

  lemma TokenEncoded()
    ensures EncodeForm([("access_token", "begin|end")]) == "access_token=begin|end"
  {
    var pairs := [("access_token", "begin|end")];
    var segs := seq(|pairs|, i requires 0 <= i < |pairs| => EncodePair(pairs[i]));
    assert segs[0] == "access_token=begin|end";
  }

  lemma TokenContentRow()
    ensures DetectByContent("access_token=begin|end") == Some(Urlencoded)
  {
    TokenEncoded();
    EncodedFormDetected([("access_token", "begin|end")]);
  }

  lemma JsonContentRow()
    ensures DetectByContent("{\"name1\":\"value1\", \"name2\":\"value2\"}") == Some(Json)
  {
    assert LooksLikeJson("{\"name1\":\"value1\", \"name2\":\"value2\"}");
  }

  /** The XML row, `<?xml version="1.0" encoding="utf-8"?><root></root>`, written in two pieces. */
  const XmlDocument: string := "<?xml version=\"1.0\" " + "encoding=\"utf-8\"?><root></root>"

  /** The XML row holds `=` twice, yet opens like XML and so is classified as XML. */
  lemma XmlContentRow()
    ensures DetectByContent(XmlDocument) == Some(Xml)
  {
    assert LooksLikeXml(XmlDocument);
  }

  lemma PlainContentRow()
    ensures DetectByContent("some-plain-string").None?
  {
    PlainTextUnknown("some-plain-string");
  }

  /** The content-detection test: no headers, `content` written to the body. */
  method DetectFormatByContent(content: string) returns (f: Option<Format>)
    ensures f == DetectByContent(content)
    ensures content == "name1=value1&name2=value2" ==> f == Some(Urlencoded)
    ensures content == "{\"name1\":\"value1\", \"name2\":\"value2\"}" ==> f == Some(Json)
    ensures content == XmlDocument ==> f == Some(Xml)
    ensures content == "access_token=begin|end" ==> f == Some(Urlencoded)
    ensures content == "some-plain-string" ==> f == None
  {
    var r := new Response();
    r.Write(content);
    assert r.body == content;
    assert Get(r.headers, ContentTypeHeader) == [];
    f := r.GetFormat();
    if content == "name1=value1&name2=value2" { FormContentRow(); }
    if content == "{\"name1\":\"value1\", \"name2\":\"value2\"}" { JsonContentRow(); }
    if content == XmlDocument { XmlContentRow(); }
    if content == "access_token=begin|end" { TokenContentRow(); }
    if content == "some-plain-string" { PlainContentRow(); }
  }

  lemma NameValueEncoded()
    ensures EncodeForm([("name", "value")]) == "name=value"
  {
    var pairs := [("name", "value")];
    var segs := seq(|pairs|, i requires 0 <= i < |pairs| => EncodePair(pairs[i]));
    assert segs[0] == "name=value";
  }

  /** A urlencoded `name=value` parses to the one field `name`. */
  lemma NameValueParsed()
    ensures ParseForm("name=value") == map["name" := "value"]
  {
    NameValueEncoded();
    ParseEncodeForm([("name", "value")]);
    assert ToMap([("name", "value")]) == map["name" := "value"];
  }

  /** The body-parsing test: format pinned to urlencoded, `name=value` written to the body. */
  method ParseBody() returns (parsed: ParsedBody)
    ensures parsed == Fields(map["name" := "value"])
  {
    var r := new Response();
    r.SetFormat(Some(Urlencoded));
    r.Write("name=value");
    assert r.body == "name=value";
    NameValueParsed();
    parsed := r.GetParsedBody();
  }

  /** The explicit parsed-body test: what is set is what is read back. */
  method SetupParsedBody() returns (parsed: ParsedBody)
    ensures parsed == Fields(map["field1" := "value1", "field2" := "value2"])
  {
    var r := new Response();
    r.SetParsedBody(Fields(map["field1" := "value1", "field2" := "value2"]));
    parsed := r.GetParsedBody();
  }

  /** The explicit-status test: code and phrase are read back as set. */
  method SetupStatus() returns (code: Result<int, StatusError>, phrase: string)
    ensures code == Success(123) && phrase == "Test status"
  {
    var r := new Response();
    r.SetStatus(123, Some("Test status"));
    code := r.GetStatusCode();
    phrase := r.GetReasonPhrase();
  }

  lemma OkPhrase()
    ensures ReasonPhrase(200) == "OK"
  {
    assert ReasonPhrases[200] == "OK";
  }

  lemma NotFoundPhrase()
    ensures ReasonPhrase(404) == "Not Found"
  {
    assert ReasonPhrases[404] == "Not Found";
  }

  /** The reason-phrase test: a status set without a phrase takes the standard one, twice on one response. */
  method DetectReasonPhrase() returns (first: string, second: string)
    ensures first == "OK" && second == "Not Found"
  {
    var r := new Response();
    r.SetStatus(200, None);
    first := r.GetReasonPhrase();
    OkPhrase();
    r.SetStatus(404, None);
    second := r.GetReasonPhrase();
    NotFoundPhrase();
  }

  /** The status-header test: one value, then two values of which the last counts. */
  method GetStatusCode() returns (single: Result<int, StatusError>, multiple: Result<int, StatusError>)
    ensures single == Success(123) && multiple == Success(123)
  {
    var r := new Response();
    var values := [] + [ShowNat(123)];
    SinglePair(StatusHeader, values);
    r.SetHeaders([(StatusHeader, values)]);
    StatusFromHeader(r, [], 123);
    single := r.GetStatusCode();

    values := [ShowNat(123 + 10)] + [ShowNat(123)];
    SinglePair(StatusHeader, values);
    r.SetHeaders([(StatusHeader, values)]);
    StatusFromHeader(r, [ShowNat(123 + 10)], 123);
    multiple := r.GetStatusCode();
  }

  /** The success test: the status header alone decides; 200 and 201 are OK, 400 is not. */
  method IsOkByHeader(statusCode: nat) returns (ok: Result<bool, StatusError>)
    ensures ok == Success(200 <= statusCode < 300)
    ensures statusCode == 200 ==> ok == Success(true)
    ensures statusCode == 201 ==> ok == Success(true)
    ensures statusCode == 400 ==> ok == Success(false)
  {
    var r := new Response();
    SinglePair(StatusHeader, [ShowNat(statusCode)]);
    r.SetHeaders([(StatusHeader, [ShowNat(statusCode)])]);
    StatusFromHeader(r, [], statusCode);
    ok := r.GetIsOk();
  }

  /** Proof step: the attribute names the test headers use, case-folded. */
  lemma AttributeNamesFolded()
    ensures Lower("path") == "path" && Lower("httponly") == "httponly" && Lower("Max-Age") == "max-age"
  {
    LowerUnchanged("path");
    LowerUnchanged("httponly");
  }

  /** The segment `; path=/` sets the path to `/`. */
  lemma PathSegment(c: Cookie)
    ensures ApplyAttribute(c, " path=/") == c.(path := "/")
  {
    assert " path=/" == " " + "path" + "=" + "/";
    AttributeWithValue("path", "/");
    AttributeNamesFolded();
    ApplyAttributeSpec(c, " path=/");
  }

  /** The segment `; httponly` sets the http-only flag. */
  lemma HttpOnlySegment(c: Cookie)
    ensures ApplyAttribute(c, " httponly") == c.(httpOnly := true)
  {
    assert " httponly" == " " + "httponly";
    FlagAttribute("httponly");
    AttributeNamesFolded();
    ApplyAttributeSpec(c, " httponly");
  }

  /** The segment `; Max-Age=3600` records the max-age, whatever the case of its name. */
  lemma MaxAgeSegment(c: Cookie)
    ensures ApplyAttribute(c, " Max-Age=3600") == c.(maxAge := Some("3600"))
  {
    assert " Max-Age=3600" == " " + "Max-Age" + "=" + "3600";
    AttributeWithValue("Max-Age", "3600");
    AttributeNamesFolded();
    ApplyAttributeSpec(c, " Max-Age=3600");
  }

  /** Appending `; path=/` sets the path and keeps the rest. */
  lemma AppendPath(header: string, c: Cookie)
    requires ParseCookie(header) == Some(c)
    ensures ParseCookie(header + ";" + " path=/") == Some(c.(path := "/"))
  {
    assert ';' !in " path=/";
    ParseCookieAppend(header, " path=/");
    PathSegment(c);
  }

  /** Appending `; httponly` sets the http-only flag and keeps the rest. */
  lemma AppendHttpOnly(header: string, c: Cookie)
    requires ParseCookie(header) == Some(c)
    ensures ParseCookie(header + ";" + " httponly") == Some(c.(httpOnly := true))
  {
    assert ';' !in " httponly";
    ParseCookieAppend(header, " httponly");
    HttpOnlySegment(c);
  }

  /** Appending `; Max-Age=3600` records the max-age and keeps the rest. */
  lemma AppendMaxAge(header: string, c: Cookie)
    requires ParseCookie(header) == Some(c)
    ensures ParseCookie(header + ";" + " Max-Age=3600") == Some(c.(maxAge := Some("3600")))
  {
    assert ';' !in " Max-Age=3600";
    ParseCookieAppend(header, " Max-Age=3600");
    MaxAgeSegment(c);
  }

  /**
   * `name=value; path=/; httponly`, the shape the test headers share: a
   * cookie with that name and value, path `/` and the http-only flag.
   */
  lemma PathHttpOnlyCookie(name: string, value: string)
    requires name != "" && Unpadded(name) && Unpadded(value)
    requires '=' !in name && ';' !in name && ';' !in value
    ensures ParseCookie(name + "=" + value + "; path=/; httponly") == Some(NewCookie(name, value).(httpOnly := true))
  {
    var withPath := name + "=" + value + ";" + " path=/";
    WithPathCookie(name, value);
    AppendHttpOnly(withPath, NewCookie(name, value));
    PathHttpOnlyPieces(name, value);
  }

  lemma WithPathCookie(name: string, value: string)
    requires name != "" && Unpadded(name) && Unpadded(value)
    requires '=' !in name && ';' !in name && ';' !in value
    ensures ParseCookie(name + "=" + value + ";" + " path=/") == Some(NewCookie(name, value))
  {
    ParseBareCookie(name, value);
    AppendPath(name + "=" + value, NewCookie(name, value));
  }

  /** Proof step: `; path=/; httponly` written as two `;` segments. */
  lemma PathHttpOnlyPieces(name: string, value: string)
    ensures name + "=" + value + "; path=/; httponly" == (name + "=" + value + ";" + " path=/") + ";" + " httponly"
  {
  }

  /** Proof step: the names and values of the test cookies are plain tokens. */
  lemma TestTokens()
    ensures forall t :: t in ["name1", "value1", "name2", "value2", "extraParam", "maxAge"] ==>
      t != "" && Unpadded(t) && '=' !in t && ';' !in t
  {
  }

  /** Proof step: the first test header, written as name, `=`, value and attributes. */
  lemma Name1Header()
    ensures "name1=value1; path=/; httponly" == "name1" + "=" + "value1" + "; path=/; httponly"
  {
  }

  /** Proof step: the second test header, written as name, `=`, value and attributes. */
  lemma Name2Header()
    ensures "name2=value2; path=/; httponly" == "name2" + "=" + "value2" + "; path=/; httponly"
  {
  }

  /** Proof step: the last test header without its `Max-Age`, written as name, `=`, value and attributes. */
  lemma ExtraParamHeader()
    ensures "extraParam=maxAge; path=/; httponly" == "extraParam" + "=" + "maxAge" + "; path=/; httponly"
  {
  }

  /** Proof step: the last test header, written as the part before `Max-Age` and the `Max-Age` segment. */
  lemma MaxAgeHeader()
    ensures "extraParam=maxAge; path=/; httponly; Max-Age=3600" == "extraParam=maxAge; path=/; httponly" + ";" + " Max-Age=3600"
  {
  }

  /** The cookie collection of a single `Set-Cookie` value that parses. */
  lemma SingleHeaderCookies(header: string, c: Cookie)
    requires ParseCookie(header) == Some(c)
    ensures ParseCookies([header]) == map[c.name := c]
  {
    Singleton(ParseEach([header]), Some(c));
    var parsed := [Some(c)];
    assert parsed[..0] == [];
    assert Collect(parsed) == Collect([])[c.name := c];
  }

  /** The cookie test, part one: no `Set-Cookie` header, no cookies. */
  method NoCookies() returns (count: nat)
    ensures count == 0
  {
    var r := new Response();
    assert Get(r.headers, SetCookieHeader) == [];
    count := |r.GetCookies()|;
  }

  lemma Name1Cookie()
    ensures ParseCookie("name1=value1; path=/; httponly") == Some(NewCookie("name1", "value1").(httpOnly := true))
  {
    TestTokens();
    Name1Header();
    PathHttpOnlyCookie("name1", "value1");
  }

  /** The cookie test, part two: one cookie, read back by name with its value, path and flag. */
  method SingleCookie() returns (count: nat, cookie: Cookie)
    ensures count == 1
    ensures cookie.name == "name1" && cookie.value == "value1" && cookie.path == "/" && cookie.httpOnly
  {
    var header := "name1=value1; path=/; httponly";
    Name1Cookie();
    SingleHeaderCookies(header, NewCookie("name1", "value1").(httpOnly := true));
    SinglePair(SetCookieHeader, [header]);
    var r := new Response();
    r.SetHeaders([(SetCookieHeader, [header])]);
    var cookies := r.GetCookies();
    count := |cookies|;
    cookie := cookies["name1"];
  }

  /** The third test header, `COUNTRY=NA%2C195.177.208.1; expires=...; path=/; domain=.php.net`, written as its name, value and attributes. */
  const CountryHeader: string :=
    "COUNTRY" + "=" + "NA%2C195.177.208.1" + ";" + " expires=Thu, 23-Jul-2015 13:39:41 GMT; path=/; domain=.php.net"

  lemma CountryCookie()
    ensures ParseCookie(CountryHeader).Some? && ParseCookie(CountryHeader).value.name == "COUNTRY"
  {
    ParseCookieFirstSegment("COUNTRY", "NA%2C195.177.208.1", " expires=Thu, 23-Jul-2015 13:39:41 GMT; path=/; domain=.php.net");
  }

  /** The cookie test, part three: a cookie with an expiry date and a domain is found by name. */
  method CookieWithExpiry() returns (found: bool)
    ensures found
  {
    CountryCookie();
    SingleHeaderCookies(CountryHeader, ParseCookie(CountryHeader).value);
    SinglePair(SetCookieHeader, [CountryHeader]);
    var r := new Response();
    r.SetHeaders([(SetCookieHeader, [CountryHeader])]);
    found := "COUNTRY" in r.GetCookies();
  }

  /** Proof step: a two-element list of values written as a concatenation. */
  lemma TwoValues(first: string, second: string)
    ensures ParseCookies([first, second]) == ParseCookies([first] + [second])
  {
    assert [first, second] == [first] + [second];
  }

  /** The cookie collection of two `Set-Cookie` values that both parse. */
  lemma TwoHeaderCookies(first: string, second: string, c1: Cookie, c2: Cookie)
    requires ParseCookie(first) == Some(c1) && ParseCookie(second) == Some(c2)
    ensures ParseCookies([first, second]) == map[c1.name := c1][c2.name := c2]
  {
    TwoValues(first, second);
    SingleHeaderCookies(first, c1);
    ParseCookiesAppend([first], second, c2);
  }

  /** Two cookies under different names are both kept. */
  lemma TwoNamesCount(c1: Cookie, c2: Cookie)
    requires c1.name != c2.name
    ensures |map[c1.name := c1][c2.name := c2]| == 2
  {
    assert map[c1.name := c1][c2.name := c2].Keys == {c1.name, c2.name};
  }

  lemma TwoCookieCount()
    ensures |ParseCookies(["name1=value1; path=/; httponly", "name2=value2; path=/; httponly"])| == 2
  {
    var c1 := NewCookie("name1", "value1").(httpOnly := true);
    var c2 := NewCookie("name2", "value2").(httpOnly := true);
    Name1Cookie();
    TestTokens();
    Name2Header();
    PathHttpOnlyCookie("name2", "value2");
    TwoHeaderCookies("name1=value1; path=/; httponly", "name2=value2; path=/; httponly", c1, c2);
    assert c1.name[4] != c2.name[4];
    TwoNamesCount(c1, c2);
  }

  /** The cookie test, part four: two `Set-Cookie` values with distinct names give two cookies. */
  method TwoCookies() returns (count: nat)
    ensures count == 2
  {
    var values := ["name1=value1; path=/; httponly", "name2=value2; path=/; httponly"];
    TwoCookieCount();
    SinglePair(SetCookieHeader, values);
    var r := new Response();
    r.SetHeaders([(SetCookieHeader, values)]);
    count := |r.GetCookies()|;
  }

  /** `extraParam=maxAge; path=/; httponly; Max-Age=3600`: the trailing `Max-Age` is read, and the rest is kept. */
  lemma ExtraParamCookie()
    ensures ParseCookie("extraParam=maxAge; path=/; httponly; Max-Age=3600") ==
      Some(NewCookie("extraParam", "maxAge").(httpOnly := true, maxAge := Some("3600")))
  {
    TestTokens();
    ExtraParamHeader();
    MaxAgeHeader();
    PathHttpOnlyCookie("extraParam", "maxAge");
    AppendMaxAge("extraParam=maxAge; path=/; httponly", NewCookie("extraParam", "maxAge").(httpOnly := true));
  }

  /** The cookie test, part five: a `Max-Age` after `httponly` is read, and the cookie is found by name. */
  method CookieWithMaxAge() returns (found: bool, cookie: Cookie)
    ensures found && cookie.name == "extraParam" && cookie.maxAge == Some("3600")
  {
    var header := "extraParam=maxAge; path=/; httponly; Max-Age=3600";
    ExtraParamCookie();
    SingleHeaderCookies(header, NewCookie("extraParam", "maxAge").(httpOnly := true, maxAge := Some("3600")));
    SinglePair(SetCookieHeader, [header]);
    var r := new Response();
    r.SetHeaders([(SetCookieHeader, [header])]);
    var cookies := r.GetCookies();
    found := "extraParam" in cookies;
    cookie := cookies["extraParam"];
  }

  lemma ContentTypeCanonical()
    ensures Canonical(ContentTypeHeader) == "Content-Type"
  {
    var c := Canonical(ContentTypeHeader);
    assert c[0] == 'C' && c[8] == 'T';
    assert c == "Content-Type";
  }

  /** A single already-folded header builds a one-entry collection. */
  lemma SingleEntry(name: string, values: seq<string>)
    requires Lower(name) == name
    ensures FromPairs([(name, values)]).entries == [Entry(name, values)]
  {
    assert [(name, values)][..0] == [];
  }

  lemma ToStringText(value: string, body: string)
    ensures Render(HeaderCollection([Entry(ContentTypeHeader, [value])]), body) == "Content-Type: " + value + "\n\n" + body
  {
    ContentTypeCanonical();
    var e := Entry(ContentTypeHeader, [value]);
    var one := EntryLines(e);
    assert |one| == 1 && one[0] == "Content-Type" + ": " + value;
    assert [e][1..] == [];
    assert Lines([e]) == one + Lines([]);
    assert Lines([e]) == one;
    assert Join(one, '\n') == "Content-Type: " + value;
  }

  /** The rendering test: the canonical header line, a blank line, then the body. */
  method RenderResponse() returns (text: string)
    ensures text == "Content-Type: " + "text/html; charset=UTF-8" + "\n\n" + "<html>Content</html>"
  {
    var r := new Response();
    LowerUnchanged(ContentTypeHeader);
    SingleEntry(ContentTypeHeader, ["text/html; charset=UTF-8"]);
    r.SetHeaders([(ContentTypeHeader, ["text/html; charset=UTF-8"])]);
    r.Write("<html>Content</html>");
    assert r.body == "<html>Content</html>";
    assert r.headers == HeaderCollection([Entry(ContentTypeHeader, ["text/html; charset=UTF-8"])]);
    ToStringText("text/html; charset=UTF-8", "<html>Content</html>");
    text := r.ToString();
  }
}
