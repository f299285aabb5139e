# HTTP client response, modelled in Dafny

This project models the inbound `Response` of the yii HTTP client, as its unit
test `tests/unit/ResponseTest.php` exercises it. A response holds a header
collection, a raw body, an optional pinned format, an optional pinned parsed
body and an optional explicit status line. From that state it derives the
following:

- **format.** A format pinned by configuration wins. Otherwise the first
  `Content-Type` value that names a known media type decides; its parameters
  after `;`, padding and letter case do not matter. Otherwise the body is
  sniffed: urlencoded, then JSON, then XML, else unknown. A body that opens like
  JSON or XML is never taken for urlencoded, even when it holds `key=value` text.
- **parsed body.** A parsed body set explicitly is returned verbatim until the
  headers, the body or the format change. Otherwise a urlencoded body becomes
  its fields, a JSON or XML body is kept as an undecoded document, and a body
  of unknown format is returned raw.
- **status code.** The explicit status wins. Otherwise the value of the
  `http-code` pseudo-header is read as a decimal number; when that header holds
  several values, the last one counts.
- **reason phrase.** The explicit phrase wins. Otherwise the RFC 7231 (section 6.1)
  phrase for the code is used, or the empty string for a code the table does not list.
- **`isOk`.** The code lies in [200, 300).
- **cookies.** Every `Set-Cookie` value is parsed as `name=value; attr[=v]; ...`.
  The cookies are gathered by name, and a later cookie with the same name replaces an earlier one.
- **diagnostic rendering.** One `Name: value` line per header value, with the
  name in canonical capitalisation, then a blank line, then the body.

Modules:

| module | file | role |
|---|---|---|
| `Options` | `options.dfy` | `Option` and `Result` |
| `Seqs` | `seqs.dfy` | small facts about sequences, over any element type |
| `Text` | `text.dfy` | ASCII case folding, `trim`, `explode`/`implode`, decimal numerals |
| `Headers` | `headers.dfy` | the case-insensitive multi-valued header collection and its rendering |
| `Formats` | `formats.dfy` | format detection by header and by content, and the urlencoded codec |
| `Cookies` | `cookies.dfy` | `Set-Cookie` parsing and the cookie collection |
| `Status` | `status.dfy` | the reason-phrase table, `isOk`, and the code carried by `http-code` |
| `Responses` | `responses.dfy` | the `Response` class: state, setters, getters |
| `ResponseTests` | `response_tests.dfy` | each unit test replayed on the model, as a method with a concrete postcondition |

`Responses.Response` is a class because the source mutates a response in place.
Its setters are methods with `modifies this` and state the whole new state.
Its getters are `reads this` functions over the pure definitions in the other
modules, and the properties are proved about those definitions.

Two choices rest on the test alone:

- **`http-code` with several values.** `tests/unit/ResponseTest.php:162-167` sets
  `[133, 123]` and expects 123, so the model reads the **last** value (`Status.CodeFromHeader`).
  Header values are strings in the model, so the test's integer `http-code` values are
  stored as their decimal spellings (`Text.ShowNat`).
- **Several `Content-Type` values.** `tests/unit/ResponseTest.php:50-58` only shows
  that a second value can decide when the first names no format. Both "first value that
  maps" and "last value" fit that test. The model takes the first value that maps.

## Model

| member | source | states |
|---|---|---|
| `Formats.MediaType` | tests/unit/ResponseTest.php:43 | the media type of a `Content-Type` value holds no `;`, no upper-case letter and no leading or trailing space |
| `Formats.MediaTypeParameters` | tests/unit/ResponseTest.php:54 | parameters after the first `;` never change the media type |
| `Formats.BareMediaType` | tests/unit/ResponseTest.php:20-28 | a media type without parameters, padding or upper-case letters is its own media type |
| `Formats.ParameterizedContentType` | tests/unit/ResponseTest.php:53-57 | a `Content-Type` value with parameters maps to the format of its bare media type |
| `Formats.FormatOfMediaType` | tests/unit/ResponseTest.php:16-32 | the urlencoded, JSON and XML media types map to their formats, each as an if-and-only-if; `text/xml` and `application/xml` both mean XML |
| `Formats.FirstKnownSound` | tests/unit/ResponseTest.php:50-58 | when the scan yields a format, some entry holds it and every earlier entry holds none |
| `Formats.FirstKnownComplete` | tests/unit/ResponseTest.php:50-58 | an entry holding a format after entries holding none makes the scan yield that format |
| `Formats.FirstKnownNone` | tests/unit/ResponseTest.php:50-58 | the scan yields nothing exactly when no entry holds a format |
| `Formats.DetectByHeadersFirstMatch` | tests/unit/ResponseTest.php:50-58 | header detection yields `f` if and only if some value names `f` and no earlier value names a known format |
| `Formats.DetectByHeadersNone` | tests/unit/ResponseTest.php:40-58 | header detection yields nothing exactly when no `Content-Type` value names a known format |
| `Responses.DetectFormatSpec` | tests/unit/ResponseTest.php:40-101 | the format is `f` iff a header value decides `f`, or no header value decides and sniffing the body gives `f` |
| `Responses.DetectFormat` | tests/unit/ResponseTest.php:40-101 | when some `Content-Type` value names a format, the result is the format of the first such value; when none does, the result is the sniffed format of the body |
| `Formats.DetectByContent` | tests/unit/ResponseTest.php:64-101 | sniffing yields urlencoded exactly when every `&` segment holds exactly one `=` (key and value may be empty) and none opens like JSON or XML; a body shaped like JSON or XML is classified as such; nothing is yielded exactly when the body is neither urlencoded nor shaped like JSON or XML |
| `Formats.StructureNotForm` | tests/unit/ResponseTest.php:71-78 | a body opening with `{`, `[` or `<` is never urlencoded, whatever `=` and `&` it holds |
| `Formats.NoEqualsNotForm` | tests/unit/ResponseTest.php:71-74 | a body without `=` is never urlencoded |
| `Formats.PlainTextUnknown` | tests/unit/ResponseTest.php:83-86 | a body without `=`, `{`, `[` or `<` is not classified |
| `Formats.SplitNoChar` | tests/unit/ResponseTest.php:64-101 | a character absent from a joined string is absent from every piece |
| `Formats.ParseEncodePair` | tests/unit/ResponseTest.php:111-113 | `key=value` parses back into the pair when the key holds no `=` |
| `Formats.FieldsOfEncoded` | tests/unit/ResponseTest.php:103-114 | the fields of encoded pairs are the map those pairs denote, a later key replacing an earlier one |
| `Formats.ParseEncodeForm` | tests/unit/ResponseTest.php:103-114 | parsing a serialised form gives back the map of its pairs (the codec's round trip) |
| `Formats.EncodedFormDetected` | tests/unit/ResponseTest.php:67-82 | every serialised form whose keys open neither like JSON nor like XML is sniffed as urlencoded, empty values included |
| `Responses.ParseBody` | tests/unit/ResponseTest.php:103-114 | a urlencoded body parses to its fields, a body of unknown format stays raw, JSON and XML stay undecoded documents |
| `Responses.RenderReadsBack` | tests/unit/ResponseTest.php:230-244 | the rendering splits back into the header lines, then a blank line, then the body verbatim |
| `Responses.Render` | tests/unit/ResponseTest.php:230-244 | the rendering ends with a blank line followed by the body verbatim |
| `Headers.LookupPut` | tests/unit/ResponseTest.php:43 | after storing values under a key, that key finds them and every other key finds what it found before |
| `Headers.GetSet` | tests/unit/ResponseTest.php:43 | replacing a header is seen under every spelling of its name and under no other name |
| `Headers.GetAdd` | tests/unit/ResponseTest.php:53-56 | adding a value appends it to that header's values and leaves every other header alone |
| `Headers.PutNames` | tests/unit/ResponseTest.php:43 | storing under a key adds that key to the stored names and no other |
| `Headers.PutDistinct` | tests/unit/ResponseTest.php:43 | storing keeps every name stored at most once |
| `Headers.SetValid` | tests/unit/ResponseTest.php:43 | replacing a header keeps the names case-folded and distinct |
| `Headers.FromPairsGet` | tests/unit/ResponseTest.php:43 | after `setHeaders`, any spelling of a name reads the values of the last pair whose name folds to it |
| `Headers.CanonicalChar` | tests/unit/ResponseTest.php:238 | each character of the canonical spelling folds like the original; a word-starting character is not a lower-case letter, and every other character is kept as stored |
| `Headers.CanonicalSameName` | tests/unit/ResponseTest.php:238 | the canonical spelling names the same header as the original; for a stored (case-folded) name, a character of the canonical spelling is upper case exactly when it is a letter that starts a word, so `content-type` gives `Content-Type` |
| `Headers.GetCanonical` | tests/unit/ResponseTest.php:238 | looking a header up by its canonical spelling finds its values |
| `Headers.LookupDistinct` | tests/unit/ResponseTest.php:43 | in a collection with distinct names, looking up a stored name finds the values stored with it |
| `Headers.EntryReadBack` | tests/unit/ResponseTest.php:233-238 | in a well-formed collection, every stored header reads back under its canonical spelling |
| `Headers.LinesCount` | tests/unit/ResponseTest.php:230-244 | the rendering has one line per header value |
| `Text.LowerEqual` | tests/unit/ResponseTest.php:43 | strings that agree character by character up to case fold to the same string |
| `Text.Find` | tests/unit/ResponseTest.php:111 | a found position holds the character and nothing before it does; not found means absent |
| `Text.FindAfter` | tests/unit/ResponseTest.php:111 | the first occurrence after a prefix free of the character is at the prefix's length |
| `Text.Split` | tests/unit/ResponseTest.php:68 | a split has at least one piece, and no piece holds the separator |
| `Text.JoinSplit` | tests/unit/ResponseTest.php:68 | joining the pieces of a split gives back the string |
| `Text.SplitJoin` | tests/unit/ResponseTest.php:68 | splitting a join of separator-free pieces gives back the pieces |
| `Text.SplitAppend` | tests/unit/ResponseTest.php:225 | appending a separator and a separator-free piece adds exactly that piece to the split |
| `Text.ParseShowNat` | tests/unit/ResponseTest.php:158-160 | a number written in decimal reads back as that number |
| `Text.ParseNat` | tests/unit/ResponseTest.php:159 | a string is read as a number exactly when it is a non-empty run of digits |
| `Status.ReasonPhrase` | tests/unit/ResponseTest.php:140-149 | a listed code gets its table phrase, an unlisted one the empty string |
| `Status.IsOk` | tests/unit/ResponseTest.php:174-195 | a code is OK exactly when it is in the 2xx class |
| `Status.CodeFromHeader` | tests/unit/ResponseTest.php:154-168 | the status is unavailable exactly when there is no value; otherwise a code is read exactly when the last value is a decimal numeral, the code is that numeral's number, and any other last value is reported as malformed |
| `Status.CodeFromHeaderLastWins` | tests/unit/ResponseTest.php:162-167 | the last `http-code` value decides the code, whatever values precede it |
| `Cookies.ApplyAttribute` | tests/unit/ResponseTest.php:203-209 | an attribute never changes the cookie's name or value |
| `Cookies.ApplyAttributeSpec` | tests/unit/ResponseTest.php:203-209 | `path`, `domain`, `expires`, `max-age`, `samesite` record their value, `secure` and `httponly` set their flag, any other attribute is ignored |
| `Cookies.ApplyAttributes` | tests/unit/ResponseTest.php:203-226 | applying the attribute segments left to right keeps the cookie's name and value |
| `Cookies.FromSegments` | tests/unit/ResponseTest.php:197-228 | no cookie exactly when the first segment has no `=` or an empty name; otherwise name and value come from the first segment |
| `Cookies.ParseCookie` | tests/unit/ResponseTest.php:197-228 | a parsed cookie always has a non-empty name |
| `Cookies.NameValueAt` | tests/unit/ResponseTest.php:212 | a segment splits at its first `=` into the trimmed key and the trimmed value |
| `Cookies.NameValueOfPair` | tests/unit/ResponseTest.php:212 | `name=value` with unpadded tokens splits into exactly those tokens |
| `Cookies.ParseBareCookie` | tests/unit/ResponseTest.php:203-209 | a bare `name=value` yields a cookie with path `/`, not http-only, not secure |
| `Cookies.ParseCookieFirstSegment` | tests/unit/ResponseTest.php:212-214 | the first segment alone decides name and value, whatever attributes follow |
| `Cookies.ParseCookieAppend` | tests/unit/ResponseTest.php:225-227 | an attribute appended to a parsable header is applied after all the others |
| `Cookies.FromSegmentsAppend` | tests/unit/ResponseTest.php:225-227 | one more segment after those describing a cookie is applied to it last |
| `Cookies.ApplyAttributesAppend` | tests/unit/ResponseTest.php:225-227 | applying segments in order applies the last one last |
| `Cookies.AttributeWithValue` | tests/unit/ResponseTest.php:225 | ` attr=value` after a `;` reads as that attribute and value |
| `Cookies.FlagAttribute` | tests/unit/ResponseTest.php:203 | ` attr` after a `;` reads as that attribute with an empty value |
| `Cookies.Collect` | tests/unit/ResponseTest.php:205 | every cookie in the collection is filed under its own name |
| `Cookies.ParseCookies` | tests/unit/ResponseTest.php:197-228 | every cookie is filed under its own non-empty name, and there are never more cookies than `Set-Cookie` values |
| `Cookies.CollectSound` | tests/unit/ResponseTest.php:216-221 | a cookie in the collection is the last parsed cookie with that name |
| `Cookies.CollectComplete` | tests/unit/ResponseTest.php:216-221 | the last parsed cookie with a name is the one the collection holds under it |
| `Cookies.ParseCookiesLastWins` | tests/unit/ResponseTest.php:216-221 | the collection holds `c` under `name` iff some value parses to `c` named `name` and no later value parses to a cookie with that name |
| `Cookies.CollectEmpty` | tests/unit/ResponseTest.php:199-200 | with nothing parsed, the collection is empty |
| `Cookies.ParseCookiesEmpty` | tests/unit/ResponseTest.php:199-200 | when no value parses, there are no cookies |
| `Cookies.ParseCookiesAppend` | tests/unit/ResponseTest.php:216-221 | one more `Set-Cookie` value that parses files its cookie under its name, replacing any earlier cookie of that name and keeping all others |
| `Cookies.ParseCookiesAppendNone` | tests/unit/ResponseTest.php:216-221 | one more `Set-Cookie` value that does not parse leaves the cookies as they were |
| `Responses.Response.constructor` | tests/unit/ResponseTest.php:42 | a new response has no headers, an empty body and nothing pinned |
| `Responses.Response.SetHeaders` | tests/unit/ResponseTest.php:43 | the headers become the given pairs, read case-insensitively with the last pair per name winning; a set parsed body is dropped, so the body is parsed again by its format; nothing else changes |
| `Responses.Response.SetHeader` | tests/unit/ResponseTest.php:43 | one header's values are replaced under every spelling of its name; a set parsed body is dropped; other headers and fields are unchanged |
| `Responses.Response.AddHeader` | tests/unit/ResponseTest.php:53-56 | one value is appended to a header; a set parsed body is dropped; other headers and fields are unchanged |
| `Responses.Response.Write` | tests/unit/ResponseTest.php:99 | the content is appended to the body; a set parsed body is dropped, so the new body is parsed by its format; nothing else changes |
| `Responses.Response.SetFormat` | tests/unit/ResponseTest.php:108 | a pinned format is what `getFormat` returns, none restores detection, and a set parsed body is dropped |
| `Responses.Response.SetParsedBody` | tests/unit/ResponseTest.php:116-125 | `getParsedBody` returns exactly the data set, whatever the raw body holds |
| `Responses.Response.SetStatus` | tests/unit/ResponseTest.php:127-149 | the status code is the one set; the phrase is the one given, else the standard phrase of the code; `isOk` follows the code |
| `Responses.Response.GetFormat` | tests/unit/ResponseTest.php:40-101 | a pinned format wins; else the first `Content-Type` value naming a format decides; else the body is sniffed |
| `Responses.Response.GetParsedBody` | tests/unit/ResponseTest.php:103-125 | a parsed body set explicitly is returned as set; otherwise a urlencoded body gives its fields and a body of unknown format is returned raw |
| `Responses.Response.GetStatusCode` | tests/unit/ResponseTest.php:127-168 | an explicit status wins; otherwise the status is unavailable exactly when `http-code` is absent, and a code read is the number the last `http-code` value spells |
| `Responses.Response.GetReasonPhrase` | tests/unit/ResponseTest.php:127-149 | an explicit phrase wins; otherwise the standard phrase of the code; the empty string when there is no code |
| `Responses.Response.GetIsOk` | tests/unit/ResponseTest.php:190-195 | `isOk` is available exactly when the status code is, and then holds exactly for codes in [200, 300) |
| `Responses.Response.GetCookies` | tests/unit/ResponseTest.php:197-228 | every cookie is filed under its own non-empty name, and there are never more cookies than `Set-Cookie` values |
| `Responses.Response.ToString` | tests/unit/ResponseTest.php:230-244 | the rendering ends with a blank line followed by the body verbatim |
| `Responses.StatusFromHeader` | tests/unit/ResponseTest.php:154-195 | with no explicit status, the last `http-code` value decides the code, the reason phrase and `isOk`, whatever values precede it |
| `Responses.HeadersReadBack` | tests/unit/ResponseTest.php:230-244 | in a valid response, every header reads back under the canonical name it is rendered with, giving exactly the values rendered under it |
| `ResponseTests.ContentTypeSpelling` | tests/unit/ResponseTest.php:43 | the header set as `Content-type` is read as `content-type` |
| `ResponseTests.DetectFormatByHeaders` | tests/unit/ResponseTest.php:16-45 | after `setHeaders(['Content-type' => ct])` with an empty body, the format is the one `ct` names; the three data rows give urlencoded, JSON and XML |
| `ResponseTests.HtmlRow` | tests/unit/ResponseTest.php:54 | `text/html; charset=utf-8` names no known format |
| `ResponseTests.MultipleRow` | tests/unit/ResponseTest.php:53-57 | with `text/html` then `application/json`, header detection gives JSON |
| `ResponseTests.DetectFormatByHeadersMultiple` | tests/unit/ResponseTest.php:50-58 | the response's format is JSON |
| `ResponseTests.FormContentRow` | tests/unit/ResponseTest.php:67-70 | `name1=value1&name2=value2` is sniffed as urlencoded |
| `ResponseTests.JsonContentRow` | tests/unit/ResponseTest.php:71-74 | the JSON object body is sniffed as JSON |
| `ResponseTests.XmlContentRow` | tests/unit/ResponseTest.php:75-78 | the XML declaration body is sniffed as XML, not as urlencoded although it holds `=` twice |
| `ResponseTests.TokenContentRow` | tests/unit/ResponseTest.php:79-82 | `access_token=begin|end` is sniffed as urlencoded |
| `ResponseTests.PlainContentRow` | tests/unit/ResponseTest.php:83-86 | `some-plain-string` is not classified |
| `ResponseTests.DetectFormatByContent` | tests/unit/ResponseTest.php:64-101 | with no headers, the format of a written body is the sniffed one, and the five data rows give their expected formats |
| `ResponseTests.ParseBody` | tests/unit/ResponseTest.php:103-114 | with the format pinned to urlencoded, `name=value` parses to the single field `name` => `value` |
| `ResponseTests.SetupParsedBody` | tests/unit/ResponseTest.php:116-125 | a parsed body set on a new response is read back unchanged |
| `ResponseTests.SetupStatus` | tests/unit/ResponseTest.php:127-135 | `setStatus(123, 'Test status')` gives code 123 and that phrase |
| `ResponseTests.OkPhrase` | tests/unit/ResponseTest.php:144-145 | the phrase of 200 is `OK` |
| `ResponseTests.NotFoundPhrase` | tests/unit/ResponseTest.php:147-148 | the phrase of 404 is `Not Found` |
| `ResponseTests.DetectReasonPhrase` | tests/unit/ResponseTest.php:140-149 | statuses 200 and then 404, set without phrases, read back `OK` and `Not Found` |
| `ResponseTests.GetStatusCode` | tests/unit/ResponseTest.php:154-168 | `http-code` 123 gives 123, and `[133, 123]` gives 123 too |
| `ResponseTests.IsOkByHeader` | tests/unit/ResponseTest.php:174-195 | with `http-code` set, `isOk` is true exactly for 2xx; rows 200, 201 and 400 give true, true, false |
| `ResponseTests.NoCookies` | tests/unit/ResponseTest.php:199-200 | a new response has no cookies |
| `ResponseTests.Name1Cookie` | tests/unit/ResponseTest.php:203 | `name1=value1; path=/; httponly` parses to `name1`, `value1`, path `/`, http-only |
| `ResponseTests.SingleCookie` | tests/unit/ResponseTest.php:202-209 | one cookie, found as `name1`, with value `value1`, path `/` and http-only set |
| `ResponseTests.CountryCookie` | tests/unit/ResponseTest.php:212 | the `COUNTRY` header with `expires`, `path` and `domain` parses to a cookie named `COUNTRY` |
| `ResponseTests.CookieWithExpiry` | tests/unit/ResponseTest.php:211-214 | the `COUNTRY` cookie is found by name |
| `ResponseTests.TwoHeaderCookies` | tests/unit/ResponseTest.php:216-220 | two parsable values give the collection of both cookies by name |
| `ResponseTests.TwoNamesCount` | tests/unit/ResponseTest.php:221 | two cookies under different names are both kept |
| `ResponseTests.TwoCookies` | tests/unit/ResponseTest.php:216-221 | two `Set-Cookie` values with distinct names give two cookies |
| `ResponseTests.AppendMaxAge` | tests/unit/ResponseTest.php:225 | appending `; Max-Age=3600` records the max-age and keeps the rest of the cookie |
| `ResponseTests.ExtraParamCookie` | tests/unit/ResponseTest.php:225 | `extraParam=maxAge; path=/; httponly; Max-Age=3600` parses to `extraParam` with max-age `3600` |
| `ResponseTests.CookieWithMaxAge` | tests/unit/ResponseTest.php:223-227 | the cookie is found as `extraParam`, and a `Max-Age` after `httponly` is read |
| `ResponseTests.ContentTypeCanonical` | tests/unit/ResponseTest.php:238 | `content-type` renders as `Content-Type` |
| `ResponseTests.ToStringText` | tests/unit/ResponseTest.php:230-244 | a response with one `content-type` value renders as `Content-Type: value`, a blank line, then the body |
| `ResponseTests.RenderResponse` | tests/unit/ResponseTest.php:230-244 | the rendering of the test's response is `Content-Type: text/html; charset=UTF-8`, a blank line, then `<html>Content</html>` |

## Left out

- The HTTP client that sends requests and produces responses, dependency injection, and the transport. Only the response object is modelled.
- The body stream is modelled as a string that `Write` appends to. Stream positions, seeking and rewinding are not modelled.
- JSON and XML decoding. A body of either format parses to `Document(format, text)` with its text undecoded, because the decoders are outside this model.
- Percent-decoding and `+` decoding of urlencoded fields. Keys and values are kept verbatim.
- Array-style urlencoded keys (`a[]=1`) are not modelled. A key is an opaque string.
- `Expires` dates are not parsed, and `Max-Age` is not converted to a number. Cookie attribute values are kept as the strings the header carries, and cookie values are not percent-decoded (`NA%2C195.177.208.1` stays as written).
- Cookie policy: when two `Set-Cookie` values share a name, the later one wins. The test never sends such a pair.
- Caching of the detected format, the parsed body and the cookie collection. Each getter is a function of the current state, and that matches the behaviour any correct cache must show.
- Case folding covers ASCII letters only. Header names and attribute names are ASCII in HTTP.
- `Status.CodeFromHeader`: the model reads only a non-empty run of decimal digits and reports any other value as `MalformedStatus`. The test only uses decimal numbers, so how other values would be read is a choice of the model.
- `Responses.Response.SetStatus`: the model accepts any integer code and does not check its range. The test sets only 123, 200 and 404.
- Header detection when several `Content-Type` values each name a different format is modelled as "first value that names a format wins". The test settles only the case where the first value names none.
