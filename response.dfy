/**
 * The response (src/Message/Response.php): a message plus the status code
 * and the reason phrase. The older copy, src/Http/Message/Response.php,
 * holds the same table and the same two methods, line for line, and is
 * modelled by the same members.
 */
module Response {
  import opened Wrappers
  import opened PhpString
  import opened Message
  import opened Streams

  datatype Response = Response(message: Message, statusCode: int, reasonPhrase: string)

  /** The class's table of reason phrases (section 6 of RFC 7231 and the IANA registry). */
  function Phrase(code: int): (r: Option<string>)
    ensures r.Some? ==> |r.value| >= 2
  {
    match code
    case 100 => Some("Continue")
    case 101 => Some("Switching Protocols")
    case 102 => Some("Processing")
    case 200 => Some("OK")
    case 201 => Some("Created")
    case 202 => Some("Accepted")
    case 203 => Some("Non-Authoritative Information")
    case 204 => Some("No Content")
    case 205 => Some("Reset Content")
    case 206 => Some("Partial Content")
    case 207 => Some("Multi-Status")
    case 208 => Some("Already Reported")
    case 226 => Some("IM Used")
    case 300 => Some("Multiple Choices")
    case 301 => Some("Moved Permanently")
    case 302 => Some("Found")
    case 303 => Some("See Other")
    case 304 => Some("Not Modified")
    case 305 => Some("Use Proxy")
    case 306 => Some("Switch Proxy")
    case 307 => Some("Temporary Redirect")
    case 308 => Some("Permanent Redirect")
    case 400 => Some("Bad Request")
    case 401 => Some("Unauthorized")
    case 402 => Some("Payment Required")
    case 403 => Some("Forbidden")
    case 404 => Some("Not Found")
    case 405 => Some("Method Not Allowed")
    case 406 => Some("Not Acceptable")
    case 407 => Some("Proxy Authentication Required")
    case 408 => Some("Request Time-out")
    case 409 => Some("Conflict")
    case 410 => Some("Gone")
    case 411 => Some("Length Required")
    case 412 => Some("Precondition Failed")
    case 413 => Some("Request Entity Too Large")
    case 414 => Some("Request-URI Too Large")
    case 415 => Some("Unsupported Media Type")
    case 416 => Some("Requested range not satisfiable")
    case 417 => Some("Expectation Failed")
    case 418 => Some("I'm a teapot")
    case 422 => Some("Unprocessable Entity")
    case 423 => Some("Locked")
    case 424 => Some("Failed Dependency")
    case 426 => Some("Upgrade Required")
    case 428 => Some("Precondition Required")
    case 429 => Some("Too Many Requests")
    case 431 => Some("Request Header Fields Too Large")
    case 451 => Some("Unavailable For Legal Reasons")
    case 500 => Some("Internal Server Error")
    case 501 => Some("Not Implemented")
    case 502 => Some("Bad Gateway")
    case 503 => Some("Service Unavailable")
    case 504 => Some("Gateway Timeout")
    case 505 => Some("HTTP Version Not Supported")
    case 506 => Some("Variant Also Negotiates")
    case 507 => Some("Insufficient Storage")
    case 508 => Some("Loop Detected")
    case 511 => Some("Network Authentication Required")
    case _ => None
  }

  /** PHP `empty()` on the `?string` reason: null, "" and "0". */
  predicate ReasonEmpty(reason: Option<string>) {
    reason.None? || IsEmpty(reason.value)
  }

  /** `(string) $reason`: null reads as "". */
  function ReasonText(reason: Option<string>): string {
    if reason.None? then "" else reason.value
  }

  /**
   * The defaulting rule the constructor and withStatus share: an empty
   * reason for a listed code takes the table's phrase; anything else is
   * stored as its string form.
   */
  function DefaultReason(status: int, reason: Option<string>): (r: string)
    ensures !ReasonEmpty(reason) ==> r == reason.value
    ensures ReasonEmpty(reason) && Phrase(status).Some? ==> r == Phrase(status).value && !IsEmpty(r)
    ensures ReasonEmpty(reason) && Phrase(status).None? ==> r == (if reason == Some("0") then "0" else "")
  {
    if ReasonEmpty(reason) && Phrase(status).Some? then Phrase(status).value else ReasonText(reason)
  }

  /** The constructor: setHeaders, the body, the version, then the status and the reason. */
  function Construct(status: int, headers: seq<(string, HeaderValue)>, body: Option<Stream>, version: string,
                     reason: Option<string>): (r: Response)
    ensures r.statusCode == status
    ensures r.reasonPhrase == DefaultReason(status, reason)
    ensures r.message == SetAll(Initial, headers).(body := body, protocolVersion := version)
  {
    Response(SetAll(Initial, headers).(body := body, protocolVersion := version), status, DefaultReason(status, reason))
  }

  /** `new Response(...)`: the constructor's statements, with the setHeaders loop. */
  method Create(status: int, headers: seq<(string, HeaderValue)>, body: Option<Stream>, version: string,
                reason: Option<string>) returns (r: Response)
    ensures r == Construct(status, headers, body, version, reason)
  {
    var m := SetHeaders(Initial, headers);
    m := m.(body := body, protocolVersion := version);
    var phrase: string;
    if ReasonEmpty(reason) && Phrase(status).Some? {
      phrase := Phrase(status).value;
    } else {
      phrase := ReasonText(reason);
    }
    r := Response(m, status, phrase);
  }

  /** `withStatus`: the code, and the reason by the constructor's rule; the message is kept. */
  function WithStatus(r: Response, code: int, reasonPhrase: string): (res: Response)
    ensures res.message == r.message && res.statusCode == code
    ensures res.reasonPhrase == DefaultReason(code, Some(reasonPhrase))
  {
    r.(statusCode := code, reasonPhrase := DefaultReason(code, Some(reasonPhrase)))
  }

  /** withStatus and the constructor agree on the phrase for the same code and reason. */
  lemma WithStatusMatchesConstructor(r: Response, code: int, reasonPhrase: string)
    ensures WithStatus(r, code, reasonPhrase).reasonPhrase
            == Construct(code, [], None, "1.1", Some(reasonPhrase)).reasonPhrase
    ensures WithStatus(r, code, "").reasonPhrase == Construct(code, [], None, "1.1", None).reasonPhrase
  {
  }

  /** Some entries of the table, as the constructor returns them. */
  lemma KnownPhrases()
    ensures Construct(200, [], None, "1.1", None).reasonPhrase == "OK"
    ensures Construct(404, [], None, "1.1", None).reasonPhrase == "Not Found"
    ensures Construct(418, [], None, "1.1", None).reasonPhrase == "I'm a teapot"
  {
  }

  /** An explicit reason that PHP does not find empty always wins over the table. */
  lemma ExplicitReasonWins(status: int, reason: string, r: Response)
    requires !IsEmpty(reason)
    ensures Construct(status, [], None, "1.1", Some(reason)).reasonPhrase == reason
    ensures WithStatus(r, status, reason).reasonPhrase == reason
  {
  }

  /**
   * Any integer is accepted as the status; an unlisted one with an empty
   * reason gets "" (or "0", the reason's own text).
   */
  lemma UnlistedCodeHasNoPhrase(status: int, r: Response)
    requires Phrase(status).None?
    ensures Construct(status, [], None, "1.1", None).reasonPhrase == ""
    ensures Construct(status, [], None, "1.1", Some("0")).reasonPhrase == "0"
    ensures WithStatus(r, status, "").reasonPhrase == "" && WithStatus(r, status, "").statusCode == status
  {
  }

  /** 999 and -1 are stored as given, with an empty phrase: no range check runs. */
  lemma NoRangeCheck(r: Response)
    ensures WithStatus(r, 999, "").statusCode == 999 && WithStatus(r, 999, "").reasonPhrase == ""
    ensures Construct(-1, [], None, "1.1", None).statusCode == -1
  {
  }
}
