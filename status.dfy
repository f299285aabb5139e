/**
 * Status codes and reason phrases: the reason-phrase table of section 6.1 of
 * RFC 7231, the success range, and reading the code from the `http-code`
 * pseudo-header.
 */
module Status {
  import opened Options
  import opened Text

  /** The name of the pseudo-header that carries the numeric status. */
  const StatusHeader: string := "http-code"

  /** Reason phrases of the status codes registered by section 6.1 of RFC 7231. */
  const ReasonPhrases: map<int, string> := map[
    100 := "Continue",
    101 := "Switching Protocols",
    200 := "OK",
    201 := "Created",
    202 := "Accepted",
    203 := "Non-Authoritative Information",
    204 := "No Content",
    205 := "Reset Content",
    206 := "Partial Content",
    300 := "Multiple Choices",
    301 := "Moved Permanently",
    302 := "Found",
    303 := "See Other",
    304 := "Not Modified",
    305 := "Use Proxy",
    307 := "Temporary Redirect",
    400 := "Bad Request",
    401 := "Unauthorized",
    402 := "Payment Required",
    403 := "Forbidden",
    404 := "Not Found",
    405 := "Method Not Allowed",
    406 := "Not Acceptable",
    407 := "Proxy Authentication Required",
    408 := "Request Timeout",
    409 := "Conflict",
    410 := "Gone",
    411 := "Length Required",
    412 := "Precondition Failed",
    413 := "Payload Too Large",
    414 := "URI Too Long",
    415 := "Unsupported Media Type",
    416 := "Range Not Satisfiable",
    417 := "Expectation Failed",
    426 := "Upgrade Required",
    500 := "Internal Server Error",
    501 := "Not Implemented",
    502 := "Bad Gateway",
    503 := "Service Unavailable",
    504 := "Gateway Timeout",
    505 := "HTTP Version Not Supported"
  ]

  /** The standard phrase of a code; the empty string for a code the table does not list. */
  function ReasonPhrase(code: int): (r: string)
    ensures code in ReasonPhrases ==> r == ReasonPhrases[code]
    ensures code !in ReasonPhrases ==> r == ""
  {
    if code in ReasonPhrases then ReasonPhrases[code] else ""
  }

  /** A successful response: the code lies in [200, 300), the 2xx class of section 6.3 of RFC 7231. */
  function IsOk(code: int): (ok: bool)
    ensures ok <==> code / 100 == 2
  {
    200 <= code < 300
  }

  /** Why no status code can be given. */
  datatype StatusError =
    | StatusUnavailable            // neither an explicit status nor the pseudo-header
    | MalformedStatus(text: string) // the pseudo-header's value is not a decimal number

  /**
   * The code carried by the pseudo-header's values: the LAST value counts,
   * read as a decimal number.
   */
  function CodeFromHeader(values: seq<string>): (r: Result<int, StatusError>)
    ensures r == Failure(StatusUnavailable) <==> values == []
    ensures values != [] ==> (r.Success? <==> ParseNat(values[|values| - 1]).Some?)
    ensures r.Success? ==> r.value >= 0 && ParseNat(values[|values| - 1]) == Some(r.value)
    ensures r.Failure? && values != [] ==> r == Failure(MalformedStatus(values[|values| - 1]))
  {
    if |values| == 0 then Failure(StatusUnavailable)
    else
      var last := values[|values| - 1];
      match ParseNat(last)
      case Some(n) => Success(n)
      case None => Failure(MalformedStatus(last))
  }

  /** The last value decides the code, whatever values come before it. */
  lemma CodeFromHeaderLastWins(earlier: seq<string>, code: nat)
    ensures CodeFromHeader(earlier + [ShowNat(code)]) == Success(code)
  {
    ParseShowNat(code);
  }
}
