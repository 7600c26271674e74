/**
 * The server-side request (src/Http/Message/ServerRequest.php): the older
 * client request plus the server, cookie and query parameters, the parsed
 * body, the uploaded files and the attributes. Every `with*` clones and
 * assigns one field; the server parameters are set once, by the constructor.
 */
module ServerRequest {
  import opened Wrappers
  import opened PhpArray
  import opened Uri
  import opened Message
  import opened Streams
  import opened Request
  import LegacyRequest

  datatype ServerRequest = ServerRequest(
    request: Request,
    serverParams: Arr<Value>,
    cookieParams: Arr<Value>,
    queryParams: Arr<Value>,
    attributes: Arr<Value>,
    parsedBody: Value,
    uploadedFiles: Arr<Value>)

  /** The constructor: the parent's, then the server parameters; every other array starts empty. */
  function Construct(requestMethod: string, uri: Uri, headers: seq<(string, HeaderValue)>, body: Option<Stream>,
                     version: string, serverParams: Arr<Value>): (r: ServerRequest)
    ensures r.request == LegacyRequest.Construct(requestMethod, uri, headers, body, version)
    ensures r.serverParams == serverParams
    ensures r.cookieParams == [] && r.queryParams == [] && r.attributes == [] && r.uploadedFiles == []
    ensures r.parsedBody == Array([])
  {
    ServerRequest(LegacyRequest.Construct(requestMethod, uri, headers, body, version),
                  serverParams, [], [], [], Array([]), [])
  }

  /** `getAttribute`: the stored value whenever the key exists, null included; the default otherwise. */
  function GetAttribute(r: ServerRequest, name: string, default: Value): (v: Value)
    ensures HasKey(r.attributes, name) ==> Lookup(r.attributes, name) == Some(v)
    ensures !HasKey(r.attributes, name) ==> v == default
  {
    GetOr(r.attributes, name, default)
  }

  /** `withAttribute`: one key set in a copy. */
  function WithAttribute(r: ServerRequest, name: string, value: Value): (res: ServerRequest)
    ensures res == r.(attributes := res.attributes)
    ensures Keys(res.attributes) == if HasKey(r.attributes, name) then Keys(r.attributes) else Keys(r.attributes) + [name]
    ensures GetAttribute(res, name, Null) == value
    ensures forall n, d :: n != name ==> GetAttribute(res, n, d) == GetAttribute(r, n, d)
  {
    KeysPut(r.attributes, name, value);
    r.(attributes := Put(r.attributes, name, value))
  }

  /** A null stored by withAttribute is returned as null, not replaced by the default. */
  lemma NullAttributeIsKept(r: ServerRequest, name: string, default: Value)
    ensures GetAttribute(WithAttribute(r, name, Null), name, default) == Null
  {
  }

  /**
   * `withoutAttribute` as written: the key is looked up in the uploaded
   * files, not in the attributes, and the attribute is unset only when an
   * uploaded file has the same key.
   */
  function WithoutAttribute(r: ServerRequest, name: string): (res: ServerRequest)
    ensures res == r.(attributes := res.attributes)
    ensures HasKey(r.uploadedFiles, name) ==> !HasKey(res.attributes, name)
    ensures !HasKey(r.uploadedFiles, name) ==> res == r
    ensures forall n :: n != name ==> Lookup(res.attributes, n) == Lookup(r.attributes, n)
  {
    if HasKey(r.uploadedFiles, name) then r.(attributes := Unset(r.attributes, name)) else r
  }

  /** So an attribute survives its own removal when no uploaded file shares its name. */
  lemma WithoutAttributeKeeps(r: ServerRequest, name: string, value: Value)
    requires !HasKey(r.uploadedFiles, name)
    ensures GetAttribute(WithoutAttribute(WithAttribute(r, name, value), name), name, Null) == value
  {
  }

  /** With an uploaded file of the same name, withoutAttribute removes it as documented. */
  lemma WithoutAttributeRemoves(r: ServerRequest, name: string, value: Value, default: Value)
    requires HasKey(r.uploadedFiles, name)
    ensures GetAttribute(WithoutAttribute(WithAttribute(r, name, value), name), name, default) == default
  {
  }

  /**
   * `withoutAttribute` as the PSR-7 interface describes it: the attribute is
   * removed, whatever the uploaded files hold.
   */
  function WithoutAttributeChecked(r: ServerRequest, name: string): (res: ServerRequest)
    ensures res == r.(attributes := res.attributes)
    ensures !HasKey(res.attributes, name)
    ensures forall n :: n != name ==> Lookup(res.attributes, n) == Lookup(r.attributes, n)
  {
    if HasKey(r.attributes, name) then r.(attributes := Unset(r.attributes, name)) else r
  }

  /** With the documented withoutAttribute, removing an attribute just set brings back the default. */
  lemma WithoutAttributeCheckedRemoves(r: ServerRequest, name: string, value: Value, default: Value)
    ensures GetAttribute(WithoutAttributeChecked(WithAttribute(r, name, value), name), name, default) == default
  {
  }

  /** `withCookieParams`: only the cookie parameters change. */
  function WithCookieParams(r: ServerRequest, cookies: Arr<Value>): (res: ServerRequest)
    ensures res.cookieParams == cookies && res == r.(cookieParams := cookies)
  {
    r.(cookieParams := cookies)
  }

  /** `withQueryParams`: only the query parameters change. */
  function WithQueryParams(r: ServerRequest, query: Arr<Value>): (res: ServerRequest)
    ensures res.queryParams == query && res == r.(queryParams := query)
  {
    r.(queryParams := query)
  }

  /** `withUploadedFiles`: only the uploaded files change. */
  function WithUploadedFiles(r: ServerRequest, files: Arr<Value>): (res: ServerRequest)
    ensures res.uploadedFiles == files && res == r.(uploadedFiles := files)
  {
    r.(uploadedFiles := files)
  }

  /** `withParsedBody`: only the parsed body changes. */
  function WithParsedBody(r: ServerRequest, data: Value): (res: ServerRequest)
    ensures res.parsedBody == data && res == r.(parsedBody := data)
  {
    r.(parsedBody := data)
  }

  /** No `with*` touches the server parameters: they keep the constructor's value. */
  lemma ServerParamsFixed(r: ServerRequest, name: string, v: Value, cookies: Arr<Value>, query: Arr<Value>,
                          files: Arr<Value>, data: Value)
    ensures WithAttribute(r, name, v).serverParams == r.serverParams
    ensures WithoutAttribute(r, name).serverParams == r.serverParams
    ensures WithCookieParams(r, cookies).serverParams == r.serverParams
    ensures WithQueryParams(r, query).serverParams == r.serverParams
    ensures WithUploadedFiles(r, files).serverParams == r.serverParams
    ensures WithParsedBody(r, data).serverParams == r.serverParams
  {
  }
}
