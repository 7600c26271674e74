/**
 * The older client request (src/Http/Message/Request.php). Its request
 * target, `withRequestTarget` and `withMethod` are the same code as in
 * src/Message/Request.php and are shared with the Request module; what
 * differs is Host: this one puts the entry first, replacing any entry under
 * the same key.
 */
module LegacyRequest {
  import opened Wrappers
  import opened PhpString
  import opened PhpArray
  import opened Uri
  import opened Message
  import opened Streams
  import opened Request

  /**
   * `replaceHostHeader`: for a non-empty host,
   * `['Host' => [v]] + $headersOriginal` and `['host' => [v]] + $headers`,
   * where v is host[:port].
   */
  function ReplaceHostHeader(m: Message, u: Uri): (r: Message)
    ensures r.protocolVersion == m.protocolVersion && r.body == m.body
    ensures IsEmpty(u.host) ==> r == m
    ensures !IsEmpty(u.host) && Valid(m) ==>
              && r.headersOriginal == [("Host", [HostPort(u)])] + Unset(m.headersOriginal, "Host")
              && r.headers == [("host", [HostPort(u)])] + Unset(m.headers, "host")
  {
    if IsEmpty(u.host) then m
    else
      var v := [HostPort(u)];
      var r := m.(headersOriginal := Union([("Host", v)], m.headersOriginal),
                  headers := Union([("host", v)], m.headers));
      if Valid(m) then
        PrependUnion("Host", v, m.headersOriginal);
        PrependUnion("host", v, m.headers);
        r
      else r
  }

  /**
   * Host becomes the first header of both arrays (section 5.4 of RFC 7230),
   * reads back through `getHeader('Host')`, replaces what was stored under
   * exactly those keys, and leaves every other key's values alone.
   */
  lemma HostFirst(m: Message, u: Uri)
    requires !IsEmpty(u.host) && Valid(m)
    ensures var r := ReplaceHostHeader(m, u);
            && Valid(r)
            && r.headersOriginal[0] == ("Host", [HostPort(u)]) && r.headers[0] == ("host", [HostPort(u)])
            && HasHeader(r, "Host") && GetHeader(r, "Host") == [HostPort(u)]
            && (forall n :: n != "Host" ==> Lookup(r.headersOriginal, n) == Lookup(m.headersOriginal, n))
            && (forall k :: k != "host" ==> Lookup(r.headers, k) == Lookup(m.headers, k))
  {
    var r := ReplaceHostHeader(m, u);
    LowerHost();
    UnsetDistinct(m.headersOriginal, "Host");
    UnsetDistinct(m.headers, "host");
    DistinctCons(("Host", [HostPort(u)]), Unset(m.headersOriginal, "Host"));
    DistinctCons(("host", [HostPort(u)]), Unset(m.headers, "host"));
    forall n | n != "Host" ensures Lookup(r.headersOriginal, n) == Lookup(m.headersOriginal, n) {
      assert r.headersOriginal[1..] == Unset(m.headersOriginal, "Host");
    }
    forall k | k != "host" ensures Lookup(r.headers, k) == Lookup(m.headers, k) {
      assert r.headers[1..] == Unset(m.headers, "host");
    }
  }

  /** The constructor: as in the Request module, but with this variant's replaceHostHeader. */
  function Construct(requestMethod: string, uri: Uri, headers: seq<(string, HeaderValue)>, body: Option<Stream>,
                     version: string): (r: Request)
    ensures r.requestMethod == Upper(requestMethod) && r.uri == uri && r.requestTarget == ""
    ensures r.message.body == body && r.message.protocolVersion == version
    ensures Valid(r.message)
    ensures var m := SetAll(Initial, headers);
            if !IsEmpty(uri.host) && !HasHeader(m, "Host") then
              && r.message.headersOriginal == [("Host", [HostPort(uri)])] + m.headersOriginal
              && r.message.headers == [("host", [HostPort(uri)])] + m.headers
            else r.message.headers == m.headers && r.message.headersOriginal == m.headersOriginal
  {
    var m := SetAll(Initial, headers).(body := body, protocolVersion := version);
    SetAllValid(Initial, headers);
    if !IsEmpty(uri.host) && !HasHeader(m, "Host") then
      SetAllFolded(Initial, headers);
      LowerHost();
      FoldedAbsent(m, "Host");
      HostFirst(m, uri);
      Request(ReplaceHostHeader(m, uri), "", Upper(requestMethod), uri)
    else Request(m, "", Upper(requestMethod), uri)
  }

  /** `new Request(...)`: the constructor's statements, with the setHeaders loop. */
  method Create(requestMethod: string, uri: Uri, headers: seq<(string, HeaderValue)>, body: Option<Stream>,
                version: string) returns (r: Request)
    ensures r == Construct(requestMethod, uri, headers, body, version)
  {
    var m := SetHeaders(Initial, headers);
    m := m.(body := body, protocolVersion := version);
    if !IsEmpty(uri.host) && !HasHeader(m, "Host") {
      m := ReplaceHostHeader(m, uri);
    }
    r := Request(m, "", Upper(requestMethod), uri);
  }

  /** `withUri`: the URI is replaced; Host is synchronised unless asked not to or the host is empty. */
  function WithUri(r: Request, uri: Uri, preserveHost: bool): (res: Request)
    ensures res.uri == uri && res.requestMethod == r.requestMethod && res.requestTarget == r.requestTarget
    ensures preserveHost || IsEmpty(uri.host) ==> res.message == r.message
    ensures !preserveHost ==> res.message == ReplaceHostHeader(r.message, uri)
  {
    var res := r.(uri := uri);
    if !preserveHost && !IsEmpty(uri.host) then res.(message := ReplaceHostHeader(res.message, uri)) else res
  }

  /** Unlike the Request module's variant, a new host replaces the listed one. */
  lemma WithUriReplacesHost(r: Request, uri: Uri)
    requires Valid(r.message) && !IsEmpty(uri.host)
    ensures GetHeader(WithUri(r, uri, false).message, "Host") == [HostPort(uri)]
    ensures Lookup(GetHeaders(WithUri(r, uri, false).message), "Host") == Some([HostPort(uri)])
  {
    HostFirst(r.message, uri);
  }

  /** The arguments `getHeaders()` makes for setHeaders: each entry's list of values. */
  function Entries(a: Headers): (e: seq<(string, HeaderValue)>)
    ensures |e| == |a|
    ensures forall i :: 0 <= i < |a| ==> e[i] == (a[i].0, Many(a[i].1))
  {
    if a == [] then [] else Entries(a[..|a| - 1]) + [(a[|a| - 1].0, Many(a[|a| - 1].1))]
  }

  /** Every value is already trimmed, as withHeader and setHeaders leave them. */
  predicate Trimmed(a: Headers) {
    forall i, j :: 0 <= i < |a| && 0 <= j < |a[i].1| ==> Trim(a[i].1[j]) == a[i].1[j]
  }

  /** Running setHeaders over the entries of a well-formed, trimmed array rebuilds it. */
  lemma {:induction false} SetAllRebuilds(a: Headers)
    requires Distinct(a) && Trimmed(a)
    ensures SetAll(Initial, Entries(a)).headersOriginal == a
    decreases |a|
  {
    if a != [] {
      var init := a[..|a| - 1];
      RebuildStep(a);
      SetAllRebuilds(init);
      PutLast(a);
    }
  }

  /** Assigning the last entry of an array to its front, under a key the front lacks, gives the array. */
  lemma PutLast(a: Headers)
    requires a != [] && !HasKey(a[..|a| - 1], a[|a| - 1].0)
    ensures Put(a[..|a| - 1], a[|a| - 1].0, a[|a| - 1].1) == a
  {
    PutNewKey(a[..|a| - 1], a[|a| - 1].0, a[|a| - 1].1);
    assert a[..|a| - 1] + [a[|a| - 1]] == a;
  }

  /** One step of SetAllRebuilds: the last entry is set, cleaned to itself, under a new key. */
  lemma RebuildStep(a: Headers)
    requires Distinct(a) && Trimmed(a) && a != []
    ensures var init, last := a[..|a| - 1], a[|a| - 1];
            && Distinct(init) && Trimmed(init) && !HasKey(init, last.0)
            && SetAll(Initial, Entries(a)).headersOriginal
               == Put(SetAll(Initial, Entries(init)).headersOriginal, last.0, last.1)
  {
    var init, last := a[..|a| - 1], a[|a| - 1];
    var e := Entries(a);
    assert e[..|a| - 1] == Entries(init);
    assert e[|a| - 1] == (last.0, Many(last.1));
    assert Cleaned(Many(last.1)) == last.1;
    forall i | 0 <= i < |init| ensures init[i].0 != last.0 {
      assert init[i] == a[i];
    }
  }

  /**
   * `createFromServerRequest`: a new request from the server request's
   * method, URI, `getHeaders()`, body and version.
   */
  function FromServerRequest(s: Request): (r: Request)
    ensures r.requestMethod == Upper(s.requestMethod) && r.uri == s.uri && r.requestTarget == ""
    ensures r.message.body == s.message.body && r.message.protocolVersion == s.message.protocolVersion
  {
    Construct(s.requestMethod, s.uri, Entries(s.message.headersOriginal), s.message.body, s.message.protocolVersion)
  }

  /**
   * The copy lists the same headers, with Host put first when the copy's
   * lookup view lacks it and the URI has a host.
   */
  lemma FromServerRequestHeaders(s: Request)
    requires Distinct(s.message.headersOriginal) && Trimmed(s.message.headersOriginal)
    ensures var m := SetAll(Initial, Entries(s.message.headersOriginal));
            GetHeaders(FromServerRequest(s).message)
            == if !IsEmpty(s.uri.host) && !HasHeader(m, "Host") then [("Host", [HostPort(s.uri)])] + s.message.headersOriginal
               else s.message.headersOriginal
  {
    SetAllRebuilds(s.message.headersOriginal);
  }
}
