# component-http, modelled in Dafny

This project models the core of the Eureka HTTP component, a PHP library that
implements the PSR-7 HTTP message interfaces and a PSR-15 style middleware
dispatcher. It also models the key-value bags and the session flash variables
built on them.

The parts modelled:

- **`Uri`** (module `Uri`): the seven components of an RFC 3986 URI.
  - The scheme is lower-cased and trimmed.
  - The port is range checked.
  - The path, query and fragment are percent-encoded without double-encoding.
  - The authority and the string form are rebuilt from the components.
- **Header store** (module `Message`): the two header arrays of a message.
  - One array is case-folded and used for lookup.
  - The other keeps the original case and is used for `getHeaders`.
  - It also holds the protocol version and the body.
- **Requests** (modules `Request`, `LegacyRequest`, `ServerRequest`): the
  request target, method and URI.
  - The two request classes synchronise the Host header differently.
  - The server request has an attribute bag and parameter arrays.
- **`Response`** (module `Response`): the status code, and a reason phrase
  that defaults from a fixed table.
- **`Stream`** (module `Streams`): a class whose capability flags are set from
  the mode table, over a resource modelled as a byte string with a cursor.
- **`UploadedFile`** (module `UploadedFiles`): a class with argument checks,
  client metadata and the moved-flag guard.
- **Middleware dispatch** (module `Middleware`): the request handler as an
  identity-keyed, ordered storage of middleware plus a terminal response.
  - Each middleware is `Delegate`, `Respond(r)` or `NotMiddleware`.
  - Handling is a terminating recursion over a shrinking storage.
- **Bags and sessions** (modules `Bags`, `Sessions`):
  - the `Data` bag, whose `get` fails with "Key not found";
  - the read-only query parameters;
  - the two session classes, including the two-phase ageing of flash variables.

PHP arrays are modelled as insertion-ordered association lists (module
`PhpArray`). PHP strings and the string built-ins used by the core are modelled
in module `PhpString`.

Several files are legacy copies of a modelled file and are covered by the same
members:

- The root `Data.php` is a copy of `src/Http/Data.php`.
- The root `Session.php` is a copy of `src/Http/Session.php`.
- `src/Http/Message/Response.php` is a copy of `src/Message/Response.php`. Its
  reason-phrase table (lines 40-104), constructor (123-136) and `withStatus`
  (157-170) are the same as the ones cited below.
- `src/Http/Server/RequestHandler.php` (lines 37-113) and
  `src/Http/Middleware/Stack.php` (lines 36-107) follow the dispatch rule of
  `src/Server/RequestHandler.php`. `Stack::next` is `Handle`.
- `getRequestTarget`, `withRequestTarget` and `withMethod` of
  `src/Http/Message/Request.php` (lines 67-117) follow the rule of the same
  methods in `src/Message/Request.php`.

`src/Http/Message/MessageTrait.php`, which the legacy message classes use, is
not part of this model. `src/Message/MessageTrait.php` stands in for it.

A PSR-7 "with" method clones the object and changes the clone. In the model it
is a function on a datatype, so the receiver is unchanged by construction.
Where the source loops (`setHeaders`, the trimming and appending loops of
`withHeader` and `withAddedHeader`, the handler constructor's attach loop, and
`clearEphemeral`), a method with a `while` loop is proved equal to the
function that specifies it.

## Model

| member | source | states |
|---|---|---|
| PhpArray.Lookup | src/Session/Session.php:76-83 | An array read answers a value exactly when the key exists |
| PhpArray.Put | src/Session/Session.php:92-97 | Assignment keeps the position of an existing key and puts a new key last. It makes the key read the new value and leaves every other key's value alone |
| PhpArray.Unset | src/Session/Session.php:106-113 | `unset` removes the key, leaves the other keys' values alone, and does nothing when the key is absent |
| PhpArray.Union | src/Message/MessageTrait.php:355-371 | `$a + $b` starts with `$a` unchanged. Each key reads `$a`'s value when `$a` has it and `$b`'s otherwise |
| PhpArray.KeysPut | src/Message/MessageTrait.php:192-193 | Assignment keeps the key order, and a new key is appended |
| PhpArray.PutDistinct | src/Message/MessageTrait.php:192-193 | Assignment keeps every key unique |
| PhpArray.UnsetDistinct | src/Session/Session.php:108-110 | `unset` keeps every key unique |
| PhpArray.UnionIsAppendWithout | src/Http/Message/Request.php:177-178 | Union appends exactly the entries of the right operand whose keys the left lacks |
| PhpArray.PrependUnion | src/Http/Message/Request.php:177-178 | `[$k => $v] + $a` puts `$k` first and drops `$a`'s entry under `$k` |
| PhpArray.UnionSingleton | src/Message/Request.php:233-234 | `$a + [$k => $v]` appends the entry unless the key is already there |
| PhpArray.GetOr | src/Session/Session.php:76-83 | The value under the key when it exists, the default otherwise |
| PhpArray.PutPut | src/Session/Session.php:92-97 | A second assignment to a key replaces the first |
| PhpArray.PutSame | src/Session/Session.php:92-97 | Assigning the value a key already holds changes nothing |
| PhpArray.PutNewKey | src/Message/MessageTrait.php:318-319 | A new key is appended at the end |
| PhpArray.PutKeepsOthers | src/Message/MessageTrait.php:318-319 | Entries under other keys keep their values and positions |
| PhpArray.LookupAppend | src/Message/MessageTrait.php:232-233 | Appending an entry under a new key does not change what existing keys read |
| PhpArray.WithoutSingleton | src/Http/Message/Request.php:177-178 | Filtering against a one-entry array is `unset` of its key |
| PhpString.Lower | src/Message/MessageTrait.php:116-119 | `strtolower` folds each ASCII letter and keeps the length |
| PhpString.Upper | src/Message/Request.php:59 | `strtoupper` folds each ASCII letter and keeps the length |
| PhpString.LowerIdempotent | src/Message/MessageTrait.php:116-119 | A folded name folds to itself |
| PhpString.LowerOfUpper | src/Message/MessageTrait.php:116-119 | Names that differ only in case fold to the same key |
| PhpString.TrimLeft | src/Http/Message/Uri.php:560-565 | `ltrim` drops exactly the leading bytes in the list |
| PhpString.TrimRight | src/Http/Message/Uri.php:560-565 | `rtrim` drops exactly the trailing bytes in the list |
| PhpString.TrimBounds | src/Http/Message/Uri.php:560-565 | `rtrim` after `ltrim` cuts only bytes of the list, before and after a slice it keeps |
| PhpString.TrimOf | src/Http/Message/Uri.php:560-565 | The result neither starts nor ends with a byte of the list. It is a slice of the input, and everything cut off before and after it is a byte of the list |
| PhpString.Trim | src/Message/MessageTrait.php:187-189 | `trim` leaves no default whitespace at either end, and cuts only default whitespace from the input |
| PhpString.TrimIdempotent | src/Message/MessageTrait.php:187-189 | Trimming twice trims once |
| PhpString.NatToString | src/Http/Message/Uri.php:146-148 | Decimal text is non-empty and made of digits, with no leading zero |
| PhpString.IntToString | src/Message/Request.php:227-230 | The decimal text of the number. A non-negative number gives digits that read back as the number, with no leading zero. A negative number gives '-' followed by such digits for its absolute value |
| PhpString.NatToStringRoundTrip | src/Http/Message/Uri.php:146-148 | Reading the decimal text back gives the number |
| Uri.HexDigit | src/Http/Message/Uri.php:674-677 | `rawurlencode` writes upper-case hex digits, never 'a' to 'f', that read back as the nibble |
| Uri.Escape | src/Http/Message/Uri.php:674-677 | The escape of a byte is "%XX" and spells the byte's value |
| Uri.Encode | src/Http/Message/Uri.php:623-677 | The setters' percent-encoding maps byte strings to byte strings |
| Uri.EncodeIsEncoded | src/Http/Message/Uri.php:623-677 | The encoder's output is well encoded: each byte is allowed or part of a "%XX" |
| Uri.EncodeKeepsEncoded | src/Http/Message/Uri.php:623-677 | Well-encoded text passes the encoder unchanged |
| Uri.EncodeFixedPoints | src/Http/Message/Uri.php:623-677 | The encoder's fixed points are exactly the well-encoded strings |
| Uri.EncodeIdempotent | src/Http/Message/Uri.php:224-226 | No double encoding: encoding twice is encoding once |
| Uri.DecodeEncode | src/Http/Message/Uri.php:224-226 | Encoding never changes what the text decodes to |
| Uri.Decode | src/Http/Message/Uri.php:674-677 | The reference decoder, the inverse of `rawurlencode`, never lengthens its input |
| Uri.EncodedPathHasNoQuery | src/Http/Message/Uri.php:623-632 | An encoded path holds no '?' |
| Uri.WithScheme | src/Http/Message/Uri.php:302-308 | Only the scheme changes. It is the lower-cased argument with only ':' and '/' cut from its ends, and it neither starts nor ends with either |
| Uri.WithSchemeNormalForm | src/Http/Message/Uri.php:560-565 | Setting the stored scheme again stores it unchanged |
| Uri.WithUserInfo | src/Http/Message/Uri.php:324-330 | Only the user information changes |
| Uri.UserInfoRoundTrip | src/Http/Message/Uri.php:610-615 | The user information is the user, followed by ":password" only when the password is non-empty. It splits back into both |
| Uri.WithHost | src/Http/Message/Uri.php:344-350 | Only the host changes, and it is stored verbatim |
| Uri.SetPort | src/Http/Message/Uri.php:586-601 | Fails exactly when the port is outside 0..65535. Otherwise only the port changes, and 0 becomes no port |
| Uri.WithPort | src/Http/Message/Uri.php:369-375 | Only the path changes |
| Uri.WithPortSetsPath | src/Http/Message/Uri.php:369-375 | The port is kept and the path becomes the port's text, with no range check |
| Uri.WithPortChecked | src/Http/Message/Uri.php:369-375 | `withPort` as documented: fails exactly on a port outside 0..65535, otherwise only the port changes and 0 or null becomes no port |
| Uri.WithPath | src/Http/Message/Uri.php:399-405 | Only the path changes. It is well encoded, decodes like the argument, and equals an argument that was already encoded |
| Uri.DropLead | src/Http/Message/Uri.php:422-426 | Exactly one leading mark is dropped, if there is one |
| Uri.WithQuery | src/Http/Message/Uri.php:422-432 | Only the query changes. It is the encoded argument without one leading '?' |
| Uri.WithQueryDropsOneMark | src/Http/Message/Uri.php:424-426 | A second '?' is kept |
| Uri.WithFragment | src/Http/Message/Uri.php:448-458 | Only the fragment changes. It is the encoded argument without one leading '#' |
| Uri.FromComponents | src/Http/Message/Uri.php:90-96 | The constructor's setter sequence fails exactly on a bad port. Otherwise the scheme is what withScheme stores, the user information is user[:password], the host is verbatim, port 0 is no port, and path, query and fragment are well encoded, decode like the arguments, and equal arguments already encoded |
| Uri.Authority | src/Http/Message/Uri.php:137-153 | Empty exactly when the host is empty, and never "0" |
| Uri.HostPort | src/Http/Message/Uri.php:137-153 | The authority is the user information and '@' when present, then host[:port] |
| Uri.HostPortSplits | src/Http/Message/Uri.php:146-148 | host[:port] splits back into the host and the port text |
| Uri.Origin | src/Http/Message/Uri.php:485-493 | The start of the string form is empty when scheme and authority are, and begins with "scheme:" when there is a scheme |
| Uri.Head | src/Http/Message/Uri.php:495-501 | The path follows the start of the string form, which it extends exactly when the path is non-empty |
| Uri.ToString | src/Http/Message/Uri.php:483-512 | The string form begins with the part built from scheme, authority and path, and is only that part when query and fragment are empty |
| Uri.AuthorityRoundTrip | src/Http/Message/Uri.php:137-153 | The authority splits back into user information, host and port, as the grammar of section 3.2 of RFC 3986 reads it |
| Uri.ToStringRecomposes | src/Http/Message/Uri.php:483-512 | The string form is the recomposition of section 5.3 of RFC 3986, with '/' inserted before a rootless path that follows a scheme or an authority |
| Uri.ToStringDropsZeroQuery | src/Http/Message/Uri.php:502-508 | A query or fragment "0" is left out, as `empty()` says |
| Uri.ToStringDropsZeroPath | src/Http/Message/Uri.php:487-501 | A scheme or path "0" is left out |
| Uri.ToStringKeepsDoubleSlash | src/Http/Message/Uri.php:494-501 | A leading "//" in a path with no authority is not reduced, whatever the doc comment says |
| Message.GetHeader | src/Message/MessageTrait.php:135-138 | An absent header reads as []. A present one reads the values under the folded name |
| Message.GetHeaderIgnoresCase | src/Message/MessageTrait.php:116-138 | `hasHeader` and `getHeader` do not depend on the case of the name |
| Message.GetHeaders | src/Message/MessageTrait.php:103-106 | `getHeaders` answers the case-preserving view, which lists each name once |
| Message.SetHeaderListed | src/Message/MessageTrait.php:191-195 | After a header is set, `getHeaders` lists it under the name as given with the new values. A new name goes last and a listed one keeps its place |
| Message.ListedHeaderReads | src/Message/MessageTrait.php:103-138 | A name `getHeaders` lists answers `hasHeader`. While the views agree, `getHeader` gives the listed values |
| Message.Join | src/Message/MessageTrait.php:159-162 | Joining nothing gives "", and joining one value gives that value |
| Message.JoinAppend | src/Message/MessageTrait.php:159-162 | Joining two non-empty lists puts one separator between the two joins |
| Message.GetHeaderLine | src/Message/MessageTrait.php:159-162 | An absent header's line is "" |
| Message.CleanValues | src/Message/MessageTrait.php:181-189 | The loop wraps a scalar into a list and trims every value |
| Message.SetHeader | src/Message/MessageTrait.php:191-195 | Both views hold the values under the name. Every other folded name and exact name reads as before |
| Message.SetHeaderValid | src/Message/MessageTrait.php:192-193 | Keys stay unique in both views |
| Message.WithHeader | src/Message/MessageTrait.php:179-196 | Equals setting the trimmed values under both keys |
| Message.AppendOne | src/Message/MessageTrait.php:230-234 | One pass of the append loop adds the value at the end of both views' lists |
| Message.WithAddedHeader | src/Message/MessageTrait.php:214-237 | Equals appending the trimmed values one by one, after creating empty lists for an absent header |
| Message.AddedHeaderReads | src/Message/MessageTrait.php:214-237 | After the call the header reads its old values followed by the new ones |
| Message.AddedHeaderListed | src/Message/MessageTrait.php:219-233 | The exact-case view reads its own old list under the name, or [] when the header was absent, followed by the new values |
| Message.AddedHeaderOthers | src/Message/MessageTrait.php:214-237 | No other header, the version or the body changes |
| Message.AddedHeaderValid | src/Message/MessageTrait.php:214-237 | Keys stay unique in both views |
| Message.WithoutHeader | src/Message/MessageTrait.php:251-261 | The header is gone from both views when it was present. Nothing changes when it was absent. Other headers are kept |
| Message.WithoutHeaderValid | src/Message/MessageTrait.php:251-261 | Keys stay unique in both views |
| Message.WithProtocolVersion | src/Message/MessageTrait.php:70-76 | Only the version changes |
| Message.WithBody | src/Message/MessageTrait.php:290-296 | Only the body changes |
| Message.SetHeaders | src/Message/MessageTrait.php:304-323 | The nested loops equal setting each cleaned entry in turn |
| Message.SetAllLastWins | src/Message/MessageTrait.php:304-323 | A name reads the values of the last entry with the same folded name. The exact-case view holds each entry not overridden under its own spelling |
| Message.SetHeaderFolded | src/Message/MessageTrait.php:318-319 | Setting a header keeps the folded view's keys lower case |
| Message.SetAllFolded | src/Message/MessageTrait.php:304-323 | setHeaders keeps the folded view's keys lower case |
| Message.SetAllValid | src/Message/MessageTrait.php:304-323 | setHeaders keeps keys unique in both views |
| Message.FoldedAbsent | src/Message/MessageTrait.php:116-119 | In that shape, a name whose folded key is absent is listed in neither view |
| Message.AddHeaders | src/Message/MessageTrait.php:355-360 | Union into the folded view, where existing keys win |
| Message.AddHeadersOriginal | src/Message/MessageTrait.php:366-371 | Union into the exact-case view, where existing keys win |
| Message.SetHeaderAgrees | src/Message/MessageTrait.php:191-195 | Setting a header under its established spelling keeps the two views in agreement |
| Message.WithoutHeaderAgrees | src/Message/MessageTrait.php:251-261 | Removing a header under its established spelling keeps the two views in agreement |
| Message.SecondSpellingSplitsViews | src/Message/MessageTrait.php:192-193 | Setting "X-A" and then "x-a" lists both spellings, while `getHeader` answers only the second |
| Request.ReplaceHostHeader | src/Message/Request.php:221-236 | Nothing changes for an empty host. Otherwise "Host" gets host[:port] in both views unless the key is already there |
| Request.HostGoesLast | src/Message/Request.php:232-234 | The Host entry is appended last, not first as the comment says |
| Request.HostNeverReplaced | src/Message/Request.php:233-234 | An existing "Host" entry is never overwritten |
| Request.HostNotReadable | src/Message/Request.php:233 | The folded view gains the key "Host", so `hasHeader('Host')` and `getHeader('Host')` do not change |
| Request.Construct | src/Message/Request.php:44-62 | The headers as setHeaders leaves them, and Host only when the host is non-empty and no Host header is present. The method is upper-cased |
| Request.Create | src/Message/Request.php:44-62 | The constructor's statements compute Construct |
| Request.GetRequestTarget | src/Message/Request.php:79-95 | Never empty. An explicit non-empty target is returned as it is |
| Request.TargetSplits | src/Message/Request.php:79-95 | The derived target is the path (or '/'), then '?' and the query when the query is non-empty |
| Request.WithRequestTarget | src/Message/Request.php:114-124 | Fails exactly when the target holds whitespace. Otherwise only the target changes |
| Request.RequestTargetRoundTrip | src/Message/Request.php:79-124 | A stored non-empty target is what getRequestTarget answers |
| Request.WithMethod | src/Message/Request.php:151-157 | The method is stored verbatim |
| Request.MethodCaseDiffers | src/Message/Request.php:59 | The constructor upper-cases "get", and withMethod keeps it |
| Request.WithUri | src/Message/Request.php:203-213 | The URI changes. Host is synchronised unless preserveHost is set or the host is empty |
| Request.WithUriKeepsListedHost | src/Message/Request.php:203-213 | With a Host already listed, the headers never change |
| LegacyRequest.ReplaceHostHeader | src/Http/Message/Request.php:165-180 | Nothing changes for an empty host. Otherwise "Host" and "host" go first in the two views and replace any entry under those keys |
| LegacyRequest.HostFirst | src/Http/Message/Request.php:176-178 | "Host" is the first key of getHeaders, and getHeader('Host') reads the new value |
| LegacyRequest.Construct | src/Http/Message/Request.php:50-62 | As the other constructor, but with the prepending replaceHostHeader. Keys stay unique |
| LegacyRequest.Create | src/Http/Message/Request.php:50-62 | The constructor's statements compute Construct |
| LegacyRequest.WithUri | src/Http/Message/Request.php:130-140 | The URI changes. Host is re-synchronised unless preserveHost is set or the host is empty |
| LegacyRequest.WithUriReplacesHost | src/Http/Message/Request.php:130-140 | A new host replaces the listed one |
| LegacyRequest.Entries | src/Http/Message/Request.php:148-157 | The headers passed on are each entry's list of values |
| LegacyRequest.SetAllRebuilds | src/Http/Message/Request.php:148-157 | setHeaders over a well-formed, trimmed array rebuilds it |
| LegacyRequest.FromServerRequest | src/Http/Message/Request.php:148-157 | Copies method (upper-cased), URI, body and version |
| LegacyRequest.FromServerRequestHeaders | src/Http/Message/Request.php:148-157 | Copies the headers |
| ServerRequest.Construct | src/Http/Message/ServerRequest.php:64-69 | The parent constructor, then the server parameters. Every other array starts empty |
| ServerRequest.GetAttribute | src/Http/Message/ServerRequest.php:122-129 | The stored value whenever the key exists, null included. The default otherwise |
| ServerRequest.WithAttribute | src/Http/Message/ServerRequest.php:178-184 | Only the attributes change. The key reads the value and other keys read as before |
| ServerRequest.NullAttributeIsKept | src/Http/Message/ServerRequest.php:122-129 | A stored null is returned, not the default |
| ServerRequest.WithoutAttribute | src/Http/Message/ServerRequest.php:189-198 | The attribute is removed only when uploadedFiles has the key. Otherwise nothing changes |
| ServerRequest.WithoutAttributeKeeps | src/Http/Message/ServerRequest.php:191-193 | With no uploaded file of that name, the attribute survives its own removal |
| ServerRequest.WithoutAttributeRemoves | src/Http/Message/ServerRequest.php:191-193 | With an uploaded file of that name, it is removed |
| ServerRequest.WithoutAttributeChecked | src/Http/Message/ServerRequest.php:189-198 | `withoutAttribute` as PSR-7 describes it: only the attributes change, the name is gone, and every other name reads as before |
| ServerRequest.WithoutAttributeCheckedRemoves | src/Http/Message/ServerRequest.php:178-198 | Removing an attribute just set makes it read the default again |
| ServerRequest.WithCookieParams | src/Http/Message/ServerRequest.php:134-140 | Only the cookies change |
| ServerRequest.WithQueryParams | src/Http/Message/ServerRequest.php:145-151 | Only the query parameters change |
| ServerRequest.WithUploadedFiles | src/Http/Message/ServerRequest.php:156-162 | Only the uploaded files change |
| ServerRequest.WithParsedBody | src/Http/Message/ServerRequest.php:167-173 | Only the parsed body changes |
| ServerRequest.ServerParamsFixed | src/Http/Message/ServerRequest.php:291-296 | No with-method changes the server parameters |
| Response.Phrase | src/Message/Response.php:38-102 | Every listed phrase is at least two characters long, so `empty()` never rejects it |
| Response.DefaultReason | src/Message/Response.php:130-134 | A non-empty reason wins. An empty reason takes the table's phrase when listed, and "" (or "0") otherwise |
| Response.Construct | src/Message/Response.php:117-135 | The status is stored as given, the reason is defaulted, and the headers are set by setHeaders |
| Response.Create | src/Message/Response.php:117-135 | The constructor's statements compute Construct |
| Response.WithStatus | src/Message/Response.php:188-201 | Only the status and the reason change, by the same rule |
| Response.WithStatusMatchesConstructor | src/Message/Response.php:188-201 | withStatus and the constructor pick the same phrase |
| Response.KnownPhrases | src/Message/Response.php:43-82 | 200 is "OK", 404 is "Not Found" and 418 is "I'm a teapot" |
| Response.ExplicitReasonWins | src/Message/Response.php:194 | A non-empty explicit reason wins in both places |
| Response.UnlistedCodeHasNoPhrase | src/Message/Response.php:130-134 | An unlisted code with an empty reason gets "" |
| Response.NoRangeCheck | src/Message/Response.php:191 | Any int is stored as the status |
| Streams.ModeTableDisagreesWithFopen | src/Http/Message/Stream.php:59-72 | The table lists "rw" as writable and misses "x", "c", "ab" and "a+b", which `fopen` opens |
| Streams.ReadModesRead | src/Http/Message/Stream.php:60-65 | Every mode listed as readable does open for reading |
| Streams.Resource.constructor | src/Http/Message/Stream.php:399-402 | A new resource holds the bytes, with the cursor at 0 |
| Streams.Overwrite | src/Http/Message/Stream.php:302 | The written bytes land at the cursor, extending the data when needed |
| Streams.Stream.Wrap | src/Http/Message/Stream.php:86-94 | Readable and writable come from the mode table, and seekable from the metadata |
| Streams.Stream.Open | src/Http/Message/Stream.php:79-95 | Anything but an open resource is refused |
| Streams.Stream.Detach | src/Http/Message/Stream.php:150-165 | Returns the resource and leaves no resource, no size and no capability. A second call returns null and changes nothing |
| Streams.Stream.Close | src/Http/Message/Stream.php:134-141 | The resource is closed. Since detach then finds no resource, the fields stay as they were |
| Streams.Stream.GetSize | src/Http/Message/Stream.php:172-194 | A cached size is returned. With an open resource the answer is the cached size, so null when none is cached |
| Streams.Stream.GetSizeIsNull | src/Http/Message/Stream.php:172-194 | With the inverted test, no size is ever reported: an open resource answers null, and a closed one has no size cached |
| Streams.Stream.GetSizeChecked | src/Http/Message/Stream.php:172-194 | `getSize` as documented: a cached size, else the byte count of an open resource, else null |
| Streams.Stream.Tell | src/Http/Message/Stream.php:202-211 | The cursor, or an error without a resource |
| Streams.Stream.Eof | src/Http/Message/Stream.php:218-221 | True without a resource. Otherwise the resource's end-of-file flag, which a read asking for more bytes than remain sets and a successful seek clears |
| Streams.Stream.Seek | src/Http/Message/Stream.php:245-256 | Fails without a resource, when not seekable, or when the target is out of range, and then the cursor and the end-of-file flag stay. Otherwise it moves the cursor and clears the flag |
| Streams.Stream.Rewind | src/Http/Message/Stream.php:268-271 | Is seek(0) |
| Streams.Stream.Write | src/Http/Message/Stream.php:290-309 | Fails without a resource or when not writable. In modes "a" and "a+" the bytes go at the end whatever the cursor. Otherwise they overwrite from the cursor. The cursor moves past them and the count is returned |
| Streams.Stream.ReadSpan | src/Http/Message/Stream.php:341 | `fread` returns up to length bytes from the cursor |
| Streams.Stream.Read | src/Http/Message/Stream.php:331-342 | Fails without a resource or when not readable. Otherwise it returns the bytes `fread` gives, advances the cursor, and sets the end-of-file flag when more bytes were asked for than remained |
| Streams.Stream.ReadToEnd | src/Http/Message/Stream.php:359 | `stream_get_contents` returns the rest of the bytes, leaves the cursor at the end and sets the end-of-file flag |
| Streams.Stream.GetContents | src/Http/Message/Stream.php:351-366 | Fails without a resource. Otherwise it rewinds and returns every byte |
| Streams.Stream.ToString | src/Http/Message/Stream.php:119-127 | Every byte after a rewind, or "" on failure |
| Streams.Stream.GetMetadata | src/Http/Message/Stream.php:380-391 | Without a resource, [] for no key and null for a key. With one, the whole array for no key, and the entry for "mode", "seekable", "uri" and "eof". Null for any other key |
| UploadedFiles.NullIfEmpty | src/Message/UploadedFile.php:218 | An empty name or type is stored as null, anything else verbatim |
| UploadedFiles.UploadedFile.constructor | src/Message/UploadedFile.php:55-62 | The fields hold the accepted arguments and the file is not moved |
| UploadedFiles.UploadedFile.Create | src/Message/UploadedFile.php:55-62 | Fails exactly on a negative size (checked first) or a name with '/' or '\' |
| UploadedFiles.UploadedFile.GetStream | src/Message/UploadedFile.php:80-87 | Fails once moved. Otherwise it returns a fresh, empty, readable, writable, seekable stream that is not the stored one |
| UploadedFiles.UploadedFile.MoveTo | src/Message/UploadedFile.php:121-124 | Changes nothing |
| UploadedFiles.MoveThenGetStream | src/Message/UploadedFile.php:80-124 | With moveTo as written, getStream still succeeds after a move |
| UploadedFiles.UploadedFile.MoveToChecked | src/Message/UploadedFile.php:104-124 | `moveTo` as documented: the first call marks the file moved, a later call fails, and nothing else changes |
| UploadedFiles.MoveCheckedThenGetStream | src/Message/UploadedFile.php:73-124 | With the documented moveTo, getStream fails after a move and so does a second move |
| UploadedFiles.SeparatorSlipsThrough | src/Message/UploadedFile.php:212-216 | "a/b" passes the check as written, though the intended check rejects it |
| Middleware.Attach | src/Server/RequestHandler.php:41-43 | A stored object keeps its place and a new one goes last. Identities stay unique |
| Middleware.Attached | src/Server/RequestHandler.php:36-46 | The attach loop stores each identity once, and only entries from the list |
| Middleware.Create | src/Server/RequestHandler.php:36-46 | The constructor's loop builds Attached |
| Middleware.AttachedIsFirstOccurrences | src/Server/RequestHandler.php:36-46 | The attach loop stores the first entry of each object, in the order the objects first appear |
| Middleware.FirstOccurrencesDistinct | src/Server/RequestHandler.php:36-46 | A list with no object twice is its own first occurrences |
| Middleware.AttachedDistinct | src/Server/RequestHandler.php:36-46 | Middleware given once each is stored exactly as given, in order |
| Middleware.Detach | src/Server/RequestHandler.php:84 | The object leaves and the others stay. Identities stay unique |
| Middleware.DetachMembers | src/Server/RequestHandler.php:84 | The entries left are exactly the stored entries of other objects, each whole |
| Middleware.DetachAt | src/Server/RequestHandler.php:84 | With identities unique, detaching the object at position k cuts out that entry and keeps the others in order |
| Middleware.DetachSnoc | src/Server/RequestHandler.php:84 | Detaching from a storage one entry longer detaches from the shorter one and keeps the last entry unless it is the object |
| Middleware.DetachAttach | src/Server/RequestHandler.php:41-43 | Attaching one object and detaching another commute |
| Middleware.DetachAbsent | src/Server/RequestHandler.php:69-75 | Detaching an absent object changes nothing |
| Middleware.DetachHead | src/Server/RequestHandler.php:104 | Detaching the first entry drops exactly it |
| Middleware.WithoutMiddleware | src/Server/RequestHandler.php:81-88 | The copy lacks the object and keeps the response. Every other entry stays, whole, and no other entry appears. With identities unique, the object's entry is cut out and the others keep their order |
| Middleware.WithMiddlewareRemoves | src/Server/RequestHandler.php:69-75 | withMiddleware removes rather than adds, and the storage shrinks |
| Middleware.WithMiddlewareAttached | src/Server/RequestHandler.php:69-75 | `withMiddleware` as its name promises: the response is kept, the object is added behind the stored entries, and identities stay unique |
| Middleware.WithMiddlewareAttachedAnswers | src/Server/RequestHandler.php:56-107 | A responding middleware added behind delegating ones is reached, and its response is the answer |
| Middleware.DecideAfterDelegates | src/Server/RequestHandler.php:96-107 | Behind delegating entries, the first entry that does not delegate decides |
| Middleware.Invoked | src/Server/RequestHandler.php:96-107 | At most as many middleware are invoked as are stored, all of them stored |
| Middleware.Handle | src/Server/RequestHandler.php:56-63 | The answer is the terminal response or the response of a stored middleware |
| Middleware.Process | src/Server/RequestHandler.php:96-107 | The answer is the terminal response or the response of a stored middleware |
| Middleware.InvokedOnce | src/Server/RequestHandler.php:104-106 | No middleware is invoked twice in one handle |
| Middleware.HandleDecides | src/Server/RequestHandler.php:56-107 | Handling is decided by the first stored entry that does not delegate |
| Middleware.AllDelegateIsTerminal | tests/unit/RequestHandlerTest.php:46-64 | If every entry delegates, the terminal response wins |
| Middleware.AllDelegateHandle | tests/unit/RequestHandlerTest.php:46-64 | A handler built from delegating middleware answers with its response |
| Middleware.NonMiddlewareHead | src/Server/RequestHandler.php:98-102 | A first object that is not a middleware ends handling at once |
| Middleware.AttachTwiceKeepsOne | src/Server/RequestHandler.php:41-43 | Attaching the same object twice keeps one entry |
| Bags.IssetVersusKeyExists | src/Http/Data.php:76-79 | `isset` is key presence with a non-null value |
| Bags.DataGet | src/Http/Data.php:53-68 | With no name, the whole array. Otherwise the set value, else a non-null default, else "Key not found" |
| Bags.SetThenGet | tests/DataTest.php:52-55 | After set with a non-null value, has holds and get returns it |
| Bags.SetNullHides | src/Http/Data.php:76-79 | A key set to null reads as absent |
| Bags.SetKeepsOthers | src/Http/Data.php:88-93 | set changes what no other key reads |
| Bags.Data.constructor | src/Http/Data.php:22-27 | The bag holds the given array |
| Bags.Data.Has | src/Http/Data.php:76-79 | `has` holds exactly when the key exists with a non-null value |
| Bags.Data.Get | src/Http/Data.php:53-68 | The whole array for no name, the set value, a non-null default, or "Key not found" |
| Bags.Data.Set | src/Http/Data.php:88-93 | The value is stored under the name. Other keys are unchanged |
| Bags.QueryGet | src/QueryParameters.php:46-53 | The set value when has holds, the default otherwise |
| Bags.QueryHas | src/QueryParameters.php:36-39 | `has` holds exactly when the key exists with a non-null value |
| Bags.QueryGetAgreesWithData | src/QueryParameters.php:36-53 | The query parameters answer like a Data bag where the bag answers, and null where it fails |
| Sessions.Deactivate | src/Session/Session.php:158-159 | The entry is no longer active and its other keys are kept |
| Sessions.Aged | src/Session/Session.php:157-163 | The ageing loop keeps a subset of the keys, at most as many entries, and unique keys |
| Sessions.AgedLookup | src/Session/Session.php:157-163 | An active entry stays, now inactive. Any other entry is removed |
| Sessions.AgeEntries | src/Session/Session.php:157-163 | The loop computes Aged |
| Sessions.SetEntry | src/Session/Session.php:181-183 | The entry becomes active and holds the value, and other names are kept |
| Sessions.SurvivesOneClear | src/Session/Session.php:158-162 | A flash value survives one clear and is gone after the second |
| Sessions.InactiveIsDropped | src/Session/Session.php:160-161 | An inactive entry is removed by a clear |
| Sessions.Session.ClearedSlot | src/Session/Session.php:150-170 | A missing slot becomes []. A well-formed slot stays well formed |
| Sessions.Session.constructor | src/Session/Session.php:37-42 | The constructor clears the flash variables once |
| Sessions.Session.Get | src/Session/Session.php:76-83 | The stored value, null included, or the default for a missing key |
| Sessions.Session.Set | src/Session/Session.php:92-97 | The value is stored and reads back |
| Sessions.Session.Remove | src/Session/Session.php:106-113 | A present key is removed, a missing one is left alone, and other keys are unchanged |
| Sessions.Session.GetEphemeral | src/Session/Session.php:122-130 | The default for an unlisted name. A listed name yields its var, or null when its entry has no var |
| Sessions.Session.HasEphemeral | src/Session/Session.php:138-143 | A listed name means the slot exists and holds an array |
| Sessions.Session.ClearEphemeral | src/Session/Session.php:150-170 | The slot is replaced by the aged array, or [] when missing |
| Sessions.Session.SetEphemeral | src/Session/Session.php:179-187 | The name is listed and reads the value |
| Sessions.FlashOnSession | src/Session/Session.php:122-187 | Set, clear, read gives the value. After a second clear the name is gone |
| Sessions.DataSession.ClearedSlot | src/Http/Session.php:100-120 | A slot that is not set becomes []. A well-formed one stays well formed |
| Sessions.DataSession.constructor | src/Http/Session.php:43-48 | The constructor copies the data and clears once |
| Sessions.DataSession.Set | src/Http/Session.php:86-93 | The bag stores the value |
| Sessions.DataSession.GetEphemeral | src/Http/Session.php:56-64 | Fails with "Key not found" exactly when the slot is not set. Otherwise the var when it is set and non-null, else null |
| Sessions.DataSession.HasEphemeral | src/Http/Session.php:72-77 | Fails with "Key not found" exactly when the slot is not set. Otherwise true exactly when the name holds a non-null entry |
| Sessions.DataSession.ClearEphemeral | src/Http/Session.php:100-120 | The slot is replaced by the aged array, or [] when not set |
| Sessions.DataSession.SetEphemeral | src/Http/Session.php:129-137 | Fails with "Key not found" when the slot is not set. Otherwise the entry becomes active with the value, hasEphemeral then holds, and getEphemeral returns a non-null value |
| Sessions.DataFlash | src/Http/Session.php:100-137 | In the bag-backed session a flash value survives one clear and is gone after two |

## Left out

- URI parsing with `parse_url` (the constructor's first step) and `Uri::createFromGlobal` are left out because they are library calls and superglobals. `Uri.FromComponents` starts after parsing.
- `ServerRequest::createFromGlobal`, the factories and the response senders are left out because they read superglobals and write output.
- The lazy creation of a body stream in `getBody` is left out. The body is an `Option`.
- `$_SESSION` mirroring in both session classes is left out. Only the session array or bag is modelled.
- PHP's normalisation of numeric-string array keys to integers is left out. Keys are strings.
- Type errors are left out. Reads treat a flash slot or flash entry that is not an array as having no entries. `clearEphemeral` stores such a slot back as it found it. `setEphemeral` replaces it with a new array, which is what PHP does for null; for a string PHP raises an error instead.
- With no flash slot at all, `getEphemeral` and `hasEphemeral` of `src/Session/Session.php` pass null to `array_key_exists`, which raises a TypeError in PHP 8. The model answers the default and false.
- Middleware is abstract: it delegates, answers with a fixed response, or is not a middleware. Middleware that inspects or changes the request is left out.
- The cursor of `SplObjectStorage` is not modelled. Attaching appends, cloning starts at the first entry, and detaching the current entry moves to the next, so `current()` is always the first entry and `rewind` has no visible effect.
- Stream resources are left out: `fopen`, `fwrite`, `fseek` and `fstat` become a byte string with a cursor, a mode, a seekable flag and a URI. Failure of `fwrite` or `stream_get_contents` on an open resource is not modelled, beyond writing to a resource whose mode does not open it for writing.
- `UploadedFiles.UploadedFile.GetStream`: the empty write the source makes on the new `php://temp` stream is modelled as a write of "" and leaves it empty.
- `UploadedFiles.UploadedFile.Create`: models the intended filename check, rejecting '/' and '\'. The check as written rejects nothing; see Findings.
- The getters of `UploadedFile` and the flag getters of `Stream` (`getSize`, `getError`, `getClientFilename`, `getClientMediaType`, `isReadable` and the like) are plain field reads and carry no contract of their own.
- `Streams.Stream.GetMetadata`: the other keys of `stream_get_meta_data` (`timed_out`, `blocked`, `wrapper_type`, `stream_type`, `unread_bytes`) are not modelled and read as null.
- `Streams.Stream.Read`: a length of zero or less, which PHP 8's `fread` rejects with a ValueError, is modelled as reading "".
- `Streams.Stream.GetSizeChecked` reports the size without caching it in the `size` field.
- `Request.Construct` and `Request.WithUri` keep the Host placement as written; the corrected placement is the one `LegacyRequest.ReplaceHostHeader` models.

## Findings

| source | as written | input that shows it | evidently intended | confidence | as-written member | corrected member |
|---|---|---|---|---|---|---|
| src/Message/UploadedFile.php:214 | The single-quoted pattern is `[/\]+`. The backslash escapes the closing bracket, so the character class never closes, `preg_match` fails and answers false, and no name is rejected | the client filename "a/b" | A name holding '/' or '\' raises InvalidArgumentException, as the exception message says | not executed | UploadedFiles.SeparatorSlipsThrough | UploadedFiles.UploadedFile.Create |
| src/Http/Message/Uri.php:372 | `withPort` calls `setPath($port)`. The port stays as it was, the path becomes the port's text, and no range check runs | `withPort(8080)` on the URI "http://h" | The port is set through `setPort`: a port outside 0..65535 raises InvalidArgumentException, and null removes the port | not executed | Uri.WithPortSetsPath | Uri.WithPortChecked |
| src/Http/Message/ServerRequest.php:193 | The attribute is unset only when `uploadedFiles` has a key of the same name | `withAttribute('a', 1)` then `withoutAttribute('a')` on a request with no uploaded files | The attribute is removed whenever it is present, as PSR-7 describes `withoutAttribute` | not executed | ServerRequest.WithoutAttributeKeeps | ServerRequest.WithoutAttributeChecked |
| src/Server/RequestHandler.php:72 | `withMiddleware` detaches its argument from the copied storage | `withMiddleware(m)` on a handler that holds m | m is attached behind the stored middleware | not executed | Middleware.WithMiddlewareRemoves | Middleware.WithMiddlewareAttached |
| src/Http/Message/Stream.php:177-178 | The test `is_resource($this->stream)` returns null when a resource is open, so `fstat` only runs when there is no resource | `getSize()` on a new stream over "abc" | With `!is_resource`, an open resource reports its size through `fstat` | not executed | Streams.Stream.GetSizeIsNull | Streams.Stream.GetSizeChecked |
| src/Message/Request.php:232-234 | The comment asks for Host to be the first header, but `addHeaders` forms `$this->headers + ['Host' => ...]`, which puts it after the existing headers | a request with the header `Accept: x` and the URI "http://h" | Host comes first, as section 5.4 of RFC 7230 recommends and as `src/Http/Message/Request.php:176-178` does | not executed | Request.HostGoesLast | LegacyRequest.HostFirst |
| src/Message/UploadedFile.php:121-124 | `moveTo` has an empty body. It never sets the moved flag and never fails | `moveTo('/tmp/x')` twice, then `getStream()` | The first call moves the file and sets the flag. Then getStream and a second moveTo raise RuntimeException, as the doc comments at lines 73 and 104-105 say | not executed | UploadedFiles.MoveThenGetStream | UploadedFiles.UploadedFile.MoveToChecked |
