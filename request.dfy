/**
 * The client request (src/Message/Request.php): a message plus the request
 * target, the method and the URI. Its Host header is added by array union,
 * which appends the entry and never replaces one.
 */
module Request {
  import opened Wrappers
  import opened PhpString
  import opened PhpArray
  import opened Uri
  import opened Message
  import opened Streams

  datatype Request = Request(message: Message, requestTarget: string, requestMethod: string, uri: Uri)

  /**
   * `replaceHostHeader`: for a non-empty host, `['Host' => [host[:port]]]` is
   * added to both arrays with `+=`. The entry goes last, and only where the
   * key 'Host' is absent; the lookup view gets the key 'Host', not 'host'.
   */
  function ReplaceHostHeader(m: Message, u: Uri): (r: Message)
    ensures r.protocolVersion == m.protocolVersion && r.body == m.body
    ensures IsEmpty(u.host) ==> r == m
    ensures !IsEmpty(u.host) ==>
              && r.headers == (if HasKey(m.headers, "Host") then m.headers else m.headers + [("Host", [HostPort(u)])])
              && r.headersOriginal == (if HasKey(m.headersOriginal, "Host") then m.headersOriginal
                                       else m.headersOriginal + [("Host", [HostPort(u)])])
  {
    if IsEmpty(u.host) then m
    else
      var entry := [("Host", [HostPort(u)])];
      UnionSingleton(m.headers, entry[0]);
      UnionSingleton(m.headersOriginal, entry[0]);
      AddHeadersOriginal(AddHeaders(m, entry), entry)
  }

  lemma LowerHost()
    ensures Lower("Host") == "host" != "Host"
  {
    assert Lower("Host")[0] == LowerChar('H');
  }

  /**
   * The union puts Host after every existing header, though the comment on
   * the line asks for it to come first (section 5.4 of RFC 7230).
   */
  lemma HostGoesLast(m: Message, u: Uri)
    requires !IsEmpty(u.host) && m.headersOriginal != [] && !HasKey(m.headersOriginal, "Host")
    ensures var r := ReplaceHostHeader(m, u);
            && Keys(r.headersOriginal) == Keys(m.headersOriginal) + ["Host"]
            && r.headersOriginal[0] == m.headersOriginal[0] != ("Host", [HostPort(u)])
  {
    var entry := ("Host", [HostPort(u)]);
    assert ReplaceHostHeader(m, u).headersOriginal == m.headersOriginal + [entry];
    assert m.headersOriginal[0].0 != "Host";
    KeysAppend(m.headersOriginal, entry);
  }

  /** A 'Host' entry already listed is never replaced, whatever the new host. */
  lemma HostNeverReplaced(m: Message, u: Uri)
    requires HasKey(m.headersOriginal, "Host")
    ensures ReplaceHostHeader(m, u).headersOriginal == m.headersOriginal
  {
  }

  /**
   * The lookup view gains the key 'Host' rather than 'host', so the header
   * the method adds cannot be read back: `hasHeader('Host')` and
   * `getHeader('Host')` answer as before.
   */
  lemma HostNotReadable(m: Message, u: Uri)
    ensures HasHeader(ReplaceHostHeader(m, u), "Host") == HasHeader(m, "Host")
    ensures GetHeader(ReplaceHostHeader(m, u), "Host") == GetHeader(m, "Host")
  {
    LowerHost();
    if !IsEmpty(u.host) && !HasKey(m.headers, "Host") {
      LookupAppend(m.headers, ("Host", [HostPort(u)]));
    }
  }

  /** The constructor: setHeaders, the body, the version, then Host, the upper-cased method and the URI. */
  function Construct(requestMethod: string, uri: Uri, headers: seq<(string, HeaderValue)>, body: Option<Stream>,
                     version: string): (r: Request)
    ensures r.requestMethod == Upper(requestMethod) && r.uri == uri && r.requestTarget == ""
    ensures r.message.body == body && r.message.protocolVersion == version
    ensures var m := SetAll(Initial, headers);
            if !IsEmpty(uri.host) && !HasHeader(m, "Host") then
              && r.message.headers == m.headers + [("Host", [HostPort(uri)])]
              && r.message.headersOriginal == m.headersOriginal + [("Host", [HostPort(uri)])]
            else r.message.headers == m.headers && r.message.headersOriginal == m.headersOriginal
  {
    var m := SetAll(Initial, headers).(body := body, protocolVersion := version);
    if !IsEmpty(uri.host) && !HasHeader(m, "Host") then
      SetAllFolded(Initial, headers);
      LowerHost();
      FoldedAbsent(m, "Host");
      Request(ReplaceHostHeader(m, uri), "", Upper(requestMethod), uri)
    else Request(m, "", Upper(requestMethod), uri)
  }

  /** `new Request(...)`: the constructor's statements, with the setHeaders loop. */
  method Create(requestMethod: string, uri: Uri, headers: seq<(string, HeaderValue)>, body: Option<Stream>,
                version: string) returns (r: Request)
    ensures r == Construct(requestMethod, uri, headers, body, version)
  {
    var m := SetHeaders(Initial, headers);
    m := m.(body := body, protocolVersion := version);
    if !IsEmpty(uri.host) && !HasHeader(m, "Host") {
      m := ReplaceHostHeader(m, uri);
    }
    r := Request(m, "", Upper(requestMethod), uri);
  }

  /**
   * `getRequestTarget`: the explicit target when it is not empty; otherwise
   * the origin form of section 5.3.1 of RFC 7230, the path ('/' when it is
   * empty) followed by '?' and the query when there is one.
   */
  function GetRequestTarget(r: Request): (t: string)
    ensures t != ""
    ensures !IsEmpty(r.requestTarget) ==> t == r.requestTarget
  {
    if !IsEmpty(r.requestTarget) then r.requestTarget
    else
      var target := if IsEmpty(r.uri.path) then "/" else r.uri.path;
      if IsEmpty(r.uri.query) then target else target + "?" + r.uri.query
  }

  /**
   * A derived target splits back, at its first '?', into the path (or "/")
   * and the query: a path stored by the setter holds no '?'.
   */
  lemma TargetSplits(r: Request)
    requires IsEmpty(r.requestTarget) && IsEncoded(r.uri.path, PathPart)
    ensures var t := GetRequestTarget(r);
            var path := if IsEmpty(r.uri.path) then "/" else r.uri.path;
            if IsEmpty(r.uri.query) then t == path && '?' !in t
            else IndexOf(t, '?') == Some(|path|) && t[..|path|] == path && t[|path| + 1..] == r.uri.query
  {
    var path := if IsEmpty(r.uri.path) then "/" else r.uri.path;
    EncodedPathHasNoQuery(r.uri.path);
    if !IsEmpty(r.uri.query) {
      IndexOfJoin(path, '?', r.uri.query);
      SplitJoin(path, '?', r.uri.query);
    }
  }

  /** `withRequestTarget`: rejects any whitespace, otherwise stores the target verbatim. */
  function WithRequestTarget(r: Request, target: string): (res: Result<Request>)
    ensures res.Err? <==> HasSpace(target)
    ensures res.Err? ==> res.error == InvalidRequestTarget
    ensures res.Ok? ==> res.value == r.(requestTarget := target)
  {
    if HasSpace(target) then Err(InvalidRequestTarget) else Ok(r.(requestTarget := target))
  }

  /** A target stored by withRequestTarget is what getRequestTarget answers, unless PHP finds it empty. */
  lemma RequestTargetRoundTrip(r: Request, target: string)
    requires !HasSpace(target) && !IsEmpty(target)
    ensures WithRequestTarget(r, target).Ok?
    ensures GetRequestTarget(WithRequestTarget(r, target).value) == target
  {
  }

  /** `withMethod`: the method is stored as given, without the constructor's upper-casing. */
  function WithMethod(r: Request, requestMethod: string): (res: Request)
    ensures res == r.(requestMethod := requestMethod)
  {
    r.(requestMethod := requestMethod)
  }

  /** The constructor normalises "get" to "GET"; withMethod keeps "get". */
  lemma MethodCaseDiffers(uri: Uri)
    ensures Construct("get", uri, [], None, "1.1").requestMethod == "GET"
    ensures WithMethod(Construct("get", uri, [], None, "1.1"), "get").requestMethod == "get"
  {
    var u := Upper("get");
    assert u[0] == UpperChar('g') && u[1] == UpperChar('e') && u[2] == UpperChar('t');
    assert u == "GET";
  }

  /** `withUri`: the URI is replaced; Host is synchronised unless asked not to or the host is empty. */
  function WithUri(r: Request, uri: Uri, preserveHost: bool): (res: Request)
    ensures res.uri == uri && res.requestMethod == r.requestMethod && res.requestTarget == r.requestTarget
    ensures preserveHost || IsEmpty(uri.host) ==> res.message == r.message
    ensures !preserveHost ==> res.message == ReplaceHostHeader(r.message, uri)
  {
    var res := r.(uri := uri);
    if !preserveHost && !IsEmpty(uri.host) then res.(message := ReplaceHostHeader(res.message, uri)) else res
  }

  /** So a request built with a Host header keeps it through withUri, whatever the new URI. */
  lemma WithUriKeepsListedHost(r: Request, uri: Uri, preserveHost: bool)
    requires HasKey(r.message.headersOriginal, "Host")
    ensures GetHeaders(WithUri(r, uri, preserveHost).message) == GetHeaders(r.message)
  {
    HostNeverReplaced(r.message, uri);
  }
}
