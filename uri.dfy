/**
 * The URI value object (src/Http/Message/Uri.php): seven components, the
 * percent-encoder the path, query and fragment setters share, the authority
 * and the string form. Every `with*` clones the receiver and runs one private
 * setter on the clone; on a datatype that is an update of one field, and the
 * receiver is a value nobody can change.
 */
module Uri {
  import opened Wrappers
  import opened PhpString

  datatype Uri = Uri(
    scheme: string,
    userInfo: string,
    host: string,
    port: Option<int>,
    path: string,
    query: string,
    fragment: string)

  /** `new Uri('')`: every component empty, no port. */
  const Blank: Uri := Uri("", "", "", None, "", "", "")

  // ---------------------------------------------------------------- percent-encoding

  /** The path uses one pattern; the query and the fragment share the other. */
  datatype Part = PathPart | QueryPart

  predicate IsAlnum(c: char) {
    'a' <= c <= 'z' || 'A' <= c <= 'Z' || '0' <= c <= '9'
  }

  /** The class's character list: unreserved characters and sub-delims of RFC 3986. */
  predicate InCharList(c: char) {
    IsAlnum(c) || c in {'_', '-', '.', '~', '!', '$', '&', '\'', '(', ')', '*', '+', ',', ';', '='}
  }

  /** Bytes the setter's pattern leaves alone; '%' is handled on its own. */
  predicate Kept(c: char, part: Part) {
    InCharList(c) || c == ':' || c == '@' || c == '/' || (part == QueryPart && c == '?')
  }

  predicate IsHex(c: char) {
    '0' <= c <= '9' || 'a' <= c <= 'f' || 'A' <= c <= 'F'
  }

  function HexValue(c: char): (v: nat)
    requires IsHex(c)
    ensures v < 16
  {
    if '0' <= c <= '9' then c as int - '0' as int
    else if 'a' <= c <= 'f' then c as int - 'a' as int + 10
    else c as int - 'A' as int + 10
  }

  /** The upper-case hex digit `rawurlencode` writes. */
  function HexDigit(d: nat): (c: char)
    requires d < 16
    ensures IsHex(c) && HexValue(c) == d
    ensures !('a' <= c <= 'f')
  {
    if d < 10 then ('0' as int + d) as char else ('A' as int + d - 10) as char
  }

  /** A percent-encoded octet "%XX" starts at index `i` of `s`. */
  predicate EscapeAt(s: string, i: int) {
    0 <= i && i + 2 < |s| && s[i] == '%' && IsHex(s[i + 1]) && IsHex(s[i + 2])
  }

  /** `rawurlencode` of one byte: '%' and two upper-case hex digits that spell its value. */
  function Escape(c: char): (r: string)
    requires c as int < 256
    ensures |r| == 3 && EscapeAt(r, 0)
    ensures HexValue(r[1]) * 16 + HexValue(r[2]) == c as int
  {
    ['%', HexDigit(c as int / 16), HexDigit(c as int % 16)]
  }

  /**
   * The setters' replacement: every run of bytes outside the kept set, and
   * every '%' that does not start a "%XX", is replaced by its `rawurlencode`
   * text. `rawurlencode` escapes every byte of such a run (the bytes it would
   * spare are all kept), so the replacement works byte by byte.
   */
  function Encode(s: string, part: Part): (r: string)
    requires IsBytes(s)
    ensures IsBytes(r)
    decreases |s|
  {
    if s == [] then []
    else
      assert IsBytes(s[1..]) by {
        forall i | 0 <= i < |s[1..]| ensures s[1..][i] as int < 256 {
          assert s[1..][i] == s[i + 1];
        }
      }
      if EscapeAt(s, 0) then "%" + Encode(s[1..], part)
      else if Kept(s[0], part) then [s[0]] + Encode(s[1..], part)
      else Escape(s[0]) + Encode(s[1..], part)
  }

  /** Well-encoded text: every byte is kept or belongs to a "%XX". */
  predicate IsEncoded(t: string, part: Part) {
    forall i :: 0 <= i < |t| ==> Kept(t[i], part) || EscapeAt(t, i) || EscapeAt(t, i - 1) || EscapeAt(t, i - 2)
  }

  /** '?' is neither kept in a path nor part of an escape, so an encoded path holds none. */
  lemma EncodedPathHasNoQuery(p: string)
    requires IsEncoded(p, PathPart)
    ensures '?' !in p
  {
    forall i | 0 <= i < |p| ensures p[i] != '?' {
      if !Kept(p[i], PathPart) {
        assert EscapeAt(p, i) || EscapeAt(p, i - 1) || EscapeAt(p, i - 2);
      }
    }
  }

  /** `rawurldecode`: each "%XX" becomes the byte it spells, every other byte stays. */
  function Decode(s: string): (r: string)
    ensures |r| <= |s|
    decreases |s|
  {
    if s == [] then []
    else if EscapeAt(s, 0) then [(HexValue(s[1]) * 16 + HexValue(s[2])) as char] + Decode(s[3..])
    else [s[0]] + Decode(s[1..])
  }

  lemma EncodedIsBytes(t: string, part: Part)
    requires IsEncoded(t, part)
    ensures IsBytes(t)
  {
    forall i | 0 <= i < |t| ensures t[i] as int < 256 {
      if !Kept(t[i], part) {
        assert EscapeAt(t, i) || EscapeAt(t, i - 1) || EscapeAt(t, i - 2);
      }
    }
  }

  /** Text of kept bytes and escapes before well-encoded text is well encoded. */
  lemma EncodedConcat(p: string, q: string, part: Part)
    requires forall i :: 0 <= i < |p| ==>
               Kept(p[i], part) || EscapeAt(p + q, i) || EscapeAt(p + q, i - 1) || EscapeAt(p + q, i - 2)
    requires IsEncoded(q, part)
    ensures IsEncoded(p + q, part)
  {
    var t := p + q;
    forall i | |p| <= i < |t|
      ensures Kept(t[i], part) || EscapeAt(t, i) || EscapeAt(t, i - 1) || EscapeAt(t, i - 2)
    {
      var j := i - |p|;
      assert t[i] == q[j];
      assert Kept(q[j], part) || EscapeAt(q, j) || EscapeAt(q, j - 1) || EscapeAt(q, j - 2);
      if !Kept(q[j], part) {
        var k := if EscapeAt(q, j) then j else if EscapeAt(q, j - 1) then j - 1 else j - 2;
        assert EscapeAt(q, k);
        assert t[k + |p|] == q[k] && t[k + |p| + 1] == q[k + 1] && t[k + |p| + 2] == q[k + 2];
        assert EscapeAt(t, k + |p|);
      }
    }
  }

  /** The encoder's output is well encoded. */
  lemma {:induction false} EncodeIsEncoded(s: string, part: Part)
    requires IsBytes(s)
    ensures IsEncoded(Encode(s, part), part)
    decreases |s|
  {
    if s != [] {
      assert IsBytes(s[1..]) by {
        forall i | 0 <= i < |s[1..]| ensures s[1..][i] as int < 256 {
          assert s[1..][i] == s[i + 1];
        }
      }
      var rest := Encode(s[1..], part);
      EncodeIsEncoded(s[1..], part);
      if EscapeAt(s, 0) {
        // the two hex digits are kept bytes, so they come out unchanged
        var t := s[1..];
        assert t[0] == s[1];
        assert !EscapeAt(t, 0) && Kept(t[0], part);
        assert IsBytes(t[1..]) by {
          forall i | 0 <= i < |t[1..]| ensures t[1..][i] as int < 256 {
            assert t[1..][i] == s[i + 2];
          }
        }
        assert rest == [t[0]] + Encode(t[1..], part);
        var u := t[1..];
        assert !EscapeAt(u, 0) && Kept(u[0], part);
        assert rest[1..] == [u[0]] + Encode(u[1..], part);
        assert rest[0] == s[1] && rest[1] == s[2];
        EncodedConcat("%", rest, part);
      } else if Kept(s[0], part) {
        EncodedConcat([s[0]], rest, part);
      } else {
        var e := Escape(s[0]);
        assert EscapeAt(e + rest, 0);
        EncodedConcat(e, rest, part);
      }
    }
  }

  /** Well-encoded text goes through the encoder unchanged. */
  lemma {:induction false} EncodeKeepsEncoded(t: string, part: Part)
    requires IsEncoded(t, part)
    ensures IsBytes(t) && Encode(t, part) == t
    decreases |t|
  {
    EncodedIsBytes(t, part);
    if t != [] {
      var t' := t[1..];
      forall i | 0 <= i < |t'|
        ensures Kept(t'[i], part) || EscapeAt(t', i) || EscapeAt(t', i - 1) || EscapeAt(t', i - 2)
      {
        assert t'[i] == t[i + 1];
        if EscapeAt(t, i + 1) {
          assert EscapeAt(t', i);
        } else if i >= 1 && EscapeAt(t, i) {
          assert EscapeAt(t', i - 1);
        } else if i >= 2 && EscapeAt(t, i - 1) {
          assert EscapeAt(t', i - 2);
        } else {
          // any escape covering t[i + 1] starts at t[0], and t[1], t[2] are hex digits
          assert Kept(t[i + 1], part) || EscapeAt(t, i + 1) || EscapeAt(t, i) || EscapeAt(t, i - 1);
          assert EscapeAt(t, 0) ==> Kept(t[1], part) && Kept(t[2], part);
        }
      }
      EncodeKeepsEncoded(t', part);
      assert Kept(t[0], part) || EscapeAt(t, 0) || EscapeAt(t, -1) || EscapeAt(t, -2);
    }
  }

  /** The encoder's fixed points are exactly the well-encoded strings. */
  lemma EncodeFixedPoints(s: string, part: Part)
    requires IsBytes(s)
    ensures Encode(s, part) == s <==> IsEncoded(s, part)
  {
    if Encode(s, part) == s {
      EncodeIsEncoded(s, part);
    }
    if IsEncoded(s, part) {
      EncodeKeepsEncoded(s, part);
    }
  }

  /** Encoding twice encodes once: valid "%XX" sequences are never encoded again. */
  lemma EncodeIdempotent(s: string, part: Part)
    requires IsBytes(s)
    ensures Encode(Encode(s, part), part) == Encode(s, part)
  {
    EncodeIsEncoded(s, part);
    EncodeKeepsEncoded(Encode(s, part), part);
  }

  /** Encoding never changes what the text decodes to. */
  lemma {:induction false} DecodeEncode(s: string, part: Part)
    requires IsBytes(s)
    ensures Decode(Encode(s, part)) == Decode(s)
    decreases |s|
  {
    if s != [] {
      if EscapeAt(s, 0) {
        TailBytes(s, 3);
        DecodeEncode(s[3..], part);
        DecodeEncodeEscaped(s, part);
      } else {
        TailBytes(s, 1);
        DecodeEncode(s[1..], part);
        DecodeEncodeByte(s, part);
      }
    }
  }

  /** The inductive step of DecodeEncode for input that starts with an escape. */
  lemma DecodeEncodeEscaped(s: string, part: Part)
    requires IsBytes(s) && EscapeAt(s, 0) && IsBytes(s[3..])
    requires Decode(Encode(s[3..], part)) == Decode(s[3..])
    ensures Decode(Encode(s, part)) == Decode(s)
  {
    EncodeEscapeHead(s, part);
    DecodeEscapeHead(s[..3], Encode(s[3..], part));
  }

  /** The inductive step of DecodeEncode for input that starts with any other byte. */
  lemma DecodeEncodeByte(s: string, part: Part)
    requires IsBytes(s) && s != [] && !EscapeAt(s, 0) && IsBytes(s[1..])
    requires Decode(Encode(s[1..], part)) == Decode(s[1..])
    ensures Decode(Encode(s, part)) == Decode(s)
  {
    var rest := Encode(s[1..], part);
    assert Decode(s) == [s[0]] + Decode(s[1..]);
    if Kept(s[0], part) {
      assert Encode(s, part) == [s[0]] + rest;
      DecodePlainHead(s[0], rest);
    } else {
      var e := Escape(s[0]);
      assert Encode(s, part) == e + rest;
      DecodeEscapeHead(e, rest);
    }
  }

  lemma TailBytes(s: string, n: nat)
    requires IsBytes(s) && n <= |s|
    ensures IsBytes(s[n..])
  {
    forall i | 0 <= i < |s[n..]| ensures s[n..][i] as int < 256 {
      assert s[n..][i] == s[i + n];
    }
  }

  /** An escape already in the input is copied through whole. */
  lemma EncodeEscapeHead(s: string, part: Part)
    requires IsBytes(s) && EscapeAt(s, 0)
    ensures IsBytes(s[3..]) && Encode(s, part) == s[..3] + Encode(s[3..], part)
  {
    TailBytes(s, 1);
    TailBytes(s, 2);
    TailBytes(s, 3);
    var t, u := s[1..], s[2..];
    assert t[0] == s[1] && t[1..] == u;
    assert u[0] == s[2] && u[1..] == s[3..];
    assert !EscapeAt(t, 0) && Kept(t[0], part);
    assert !EscapeAt(u, 0) && Kept(u[0], part);
    assert Encode(u, part) == [u[0]] + Encode(s[3..], part);
    assert Encode(t, part) == [t[0]] + Encode(u, part);
    assert s[..3] == ['%', s[1], s[2]];
  }

  /** Decoding reads a leading escape as the byte it spells. */
  lemma DecodeEscapeHead(e: string, rest: string)
    requires |e| == 3 && EscapeAt(e, 0)
    ensures Decode(e + rest) == [(HexValue(e[1]) * 16 + HexValue(e[2])) as char] + Decode(rest)
  {
    assert EscapeAt(e + rest, 0);
    assert (e + rest)[3..] == rest;
  }

  /** Decoding copies a leading character other than '%'. */
  lemma DecodePlainHead(c: char, rest: string)
    requires c != '%'
    ensures Decode([c] + rest) == [c] + Decode(rest)
  {
    assert ([c] + rest)[1..] == rest;
  }

  // ---------------------------------------------------------------- setters

  /** The bytes `withScheme` trims from both ends of the scheme. */
  const SchemeMarks: set<char> := {':', '/'}

  /** `withScheme`: lower-cased, then ':' and '/' trimmed from both ends. */
  function WithScheme(u: Uri, scheme: string): (r: Uri)
    ensures r == u.(scheme := r.scheme)
    ensures Lower(r.scheme) == r.scheme
    ensures r.scheme == [] || (r.scheme[0] !in SchemeMarks && r.scheme[|r.scheme| - 1] !in SchemeMarks)
    ensures StripsEnds(Lower(scheme), SchemeMarks, r.scheme)
  {
    LowerIdempotent(scheme);
    LowerTrimOf(Lower(scheme), SchemeMarks);
    u.(scheme := TrimOf(Lower(scheme), SchemeMarks))
  }

  /** A scheme already in normal form is stored as given: normalising twice changes nothing. */
  lemma WithSchemeNormalForm(u: Uri, scheme: string)
    ensures WithScheme(WithScheme(u, scheme), WithScheme(u, scheme).scheme) == WithScheme(u, scheme)
  {
    var s := WithScheme(u, scheme).scheme;
    assert TrimLeft(Lower(s), SchemeMarks) == s;
    assert TrimRight(s, SchemeMarks) == s;
  }

  /** `withUserInfo`: the user, followed by ':' and the password only when the password is not empty. */
  function WithUserInfo(u: Uri, user: string, password: Option<string>): (r: Uri)
    ensures r == u.(userInfo := r.userInfo)
  {
    u.(userInfo := user + (if password.Some? && !IsEmpty(password.value) then ":" + password.value else ""))
  }

  /** `withHost`: the host is stored verbatim. */
  function WithHost(u: Uri, host: string): (r: Uri)
    ensures r == u.(host := r.host)
    ensures r.host == host
  {
    u.(host := host)
  }

  /** The private `setPort`, applied to the port after PHP's `(int)` cast. */
  function SetPort(u: Uri, port: int): (r: Result<Uri>)
    ensures r.Err? <==> port < 0 || port > 65535
    ensures r.Err? ==> r.error == InvalidPort
    ensures r.Ok? ==> r.value == u.(port := r.value.port)
    ensures r.Ok? ==> (r.value.port.None? <==> port == 0)
    ensures r.Ok? && r.value.port.Some? ==> r.value.port.value == port && 1 <= port <= 65535
  {
    if port < 0 || port > 65535 then Err(InvalidPort)
    else if port == 0 then Ok(u.(port := None))
    else Ok(u.(port := Some(port)))
  }

  /** `(string) $port` for the `int|null` argument of `withPort`. */
  function PortText(port: Option<int>): string {
    if port.None? then "" else IntToString(port.value)
  }

  /**
   * `withPort` as written: it runs `setPath` on the port, so the port is left
   * alone and the path becomes the port's decimal text; no range check runs.
   */
  function WithPort(u: Uri, port: Option<int>): (r: Uri)
    ensures r == u.(path := r.path)
  {
    assert IsBytes(PortText(port));
    u.(path := Encode(PortText(port), PathPart))
  }

  /**
   * `withPort` as its documentation describes it: the port goes through the
   * same checks as the constructor's, so a port outside 0..65535 is refused,
   * and null or 0 removes the port. Nothing but the port changes.
   */
  function WithPortChecked(u: Uri, port: Option<int>): (r: Result<Uri>)
    ensures r.Err? <==> port.Some? && (port.value < 0 || port.value > 65535)
    ensures r.Ok? ==> r.value == u.(port := r.value.port)
    ensures r.Ok? ==> r.value.port == if port.None? || port.value == 0 then None else port
  {
    SetPort(u, if port.None? then 0 else port.value)
  }

  /** `withPath`: the path, percent-encoded. */
  function WithPath(u: Uri, path: string): (r: Uri)
    requires IsBytes(path)
    ensures r == u.(path := r.path)
    ensures IsEncoded(r.path, PathPart)
    ensures Decode(r.path) == Decode(path)
    ensures IsEncoded(path, PathPart) ==> r.path == path
  {
    EncodeIsEncoded(path, PathPart);
    DecodeEncode(path, PathPart);
    EncodeFixedPoints(path, PathPart);
    u.(path := Encode(path, PathPart))
  }

  /** The argument of `withQuery`/`withFragment` without one leading `lead` byte, if it has one. */
  function DropLead(s: string, lead: char): (r: string)
    ensures r == s || (s != [] && s[0] == lead && r == s[1..])
    ensures s != [] && s[0] == lead ==> |r| == |s| - 1
  {
    if s != [] && s[0] == lead then s[1..] else s
  }

  lemma DropLeadBytes(s: string, lead: char)
    requires IsBytes(s)
    ensures IsBytes(DropLead(s, lead))
  {
    var r := DropLead(s, lead);
    if r != s {
      forall i | 0 <= i < |r| ensures r[i] as int < 256 {
        assert r[i] == s[i + 1];
      }
    }
  }

  /** `withQuery`: one leading '?' dropped, the rest percent-encoded. */
  function WithQuery(u: Uri, query: string): (r: Uri)
    requires IsBytes(query)
    ensures r == u.(query := r.query)
    ensures IsEncoded(r.query, QueryPart)
    ensures Decode(r.query) == Decode(DropLead(query, '?'))
    ensures IsEncoded(DropLead(query, '?'), QueryPart) ==> r.query == DropLead(query, '?')
  {
    var q := DropLead(query, '?');
    DropLeadBytes(query, '?');
    EncodeIsEncoded(q, QueryPart);
    DecodeEncode(q, QueryPart);
    EncodeFixedPoints(q, QueryPart);
    u.(query := Encode(q, QueryPart))
  }

  /** `withFragment`: one leading '#' dropped, the rest percent-encoded. */
  function WithFragment(u: Uri, fragment: string): (r: Uri)
    requires IsBytes(fragment)
    ensures r == u.(fragment := r.fragment)
    ensures IsEncoded(r.fragment, QueryPart)
    ensures Decode(r.fragment) == Decode(DropLead(fragment, '#'))
    ensures IsEncoded(DropLead(fragment, '#'), QueryPart) ==> r.fragment == DropLead(fragment, '#')
  {
    var f := DropLead(fragment, '#');
    DropLeadBytes(fragment, '#');
    EncodeIsEncoded(f, QueryPart);
    DecodeEncode(f, QueryPart);
    EncodeFixedPoints(f, QueryPart);
    u.(fragment := Encode(f, QueryPart))
  }

  /** What each setter's encoding guarantees, gathered in one place. */
  lemma Encoded(s: string, part: Part)
    requires IsBytes(s)
    ensures IsEncoded(Encode(s, part), part) && Decode(Encode(s, part)) == Decode(s)
    ensures IsEncoded(s, part) ==> Encode(s, part) == s
  {
    EncodeIsEncoded(s, part);
    DecodeEncode(s, part);
    EncodeFixedPoints(s, part);
  }

  /**
   * The constructor once `parse_url` has split its argument: the private
   * setters in the order the constructor runs them. Only `setPort` can fail.
   */
  function FromComponents(scheme: string, user: string, password: string, host: string, port: int,
                          path: string, query: string, fragment: string): (r: Result<Uri>)
    requires IsBytes(path) && IsBytes(query) && IsBytes(fragment)
    ensures r.Err? <==> port < 0 || port > 65535
    ensures r.Ok? ==> Lower(r.value.scheme) == r.value.scheme && r.value.host == host
    ensures r.Ok? ==> r.value.scheme == WithScheme(Blank, scheme).scheme
    ensures r.Ok? ==> r.value.userInfo == user + (if IsEmpty(password) then "" else ":" + password)
    ensures r.Ok? ==> r.value.port == (if port == 0 then None else Some(port))
    ensures r.Ok? ==> IsEncoded(r.value.path, PathPart) && IsEncoded(r.value.query, QueryPart)
                      && IsEncoded(r.value.fragment, QueryPart)
    ensures r.Ok? ==> Decode(r.value.path) == Decode(path) && Decode(r.value.query) == Decode(query)
                      && Decode(r.value.fragment) == Decode(fragment)
    ensures r.Ok? && IsEncoded(path, PathPart) ==> r.value.path == path
    ensures r.Ok? && IsEncoded(query, QueryPart) ==> r.value.query == query
    ensures r.Ok? && IsEncoded(fragment, QueryPart) ==> r.value.fragment == fragment
  {
    var u := WithHost(WithUserInfo(WithScheme(Blank, scheme), user, Some(password)), host);
    match SetPort(u, port)
    case Err(e) => Err(e)
    case Ok(v) =>
      Encoded(path, PathPart);
      Encoded(query, QueryPart);
      Encoded(fragment, QueryPart);
      // the setters bypass withQuery/withFragment, so no leading '?' or '#' is dropped
      Ok(v.(path := Encode(path, PathPart), query := Encode(query, QueryPart),
            fragment := Encode(fragment, QueryPart)))
  }

  // ---------------------------------------------------------------- authority and string form

  /** PHP `empty()` on the `int|null` port field. */
  predicate PortEmpty(port: Option<int>) {
    port.None? || port.value == 0
  }

  /** `getAuthority`: "[user-info@]host[:port]", or "" when the host is empty. */
  function Authority(u: Uri): (r: string)
    ensures IsEmpty(u.host) <==> r == []
    ensures r != "0"
  {
    if IsEmpty(u.host) then ""
    else
      (if IsEmpty(u.userInfo) then "" else u.userInfo + "@")
      + (u.host + (if PortEmpty(u.port) then "" else ":" + IntToString(u.port.value)))
  }

  /** The first index of `c` in `s`. */
  function IndexOf(s: string, c: char): (r: Option<nat>)
    ensures r.None? <==> c !in s
    ensures r.Some? ==> r.value < |s| && s[r.value] == c && c !in s[..r.value]
  {
    if s == [] then None
    else if s[0] == c then Some(0)
    else
      match IndexOf(s[1..], c)
      case None => None
      case Some(i) =>
        assert s[..i + 1] == [s[0]] + s[1..][..i];
        Some(i + 1)
  }

  lemma IndexOfJoin(x: string, c: char, y: string)
    requires c !in x
    ensures IndexOf(x + [c] + y, c) == Some(|x|)
  {
    var s := x + [c] + y;
    var r := IndexOf(s, c);
    assert s[|x|] == c;
  }

  /**
   * How a reader splits "[userinfo@]rest", following the grammar of section
   * 3.2 of RFC 3986: the user information ends at the first '@'.
   */
  function SplitUserInfo(a: string): (string, string) {
    match IndexOf(a, '@')
    case None => ("", a)
    case Some(i) => (a[..i], a[i + 1..])
  }

  /** How a reader splits "host[:port]" of a registered-name host: the port follows the first ':'. */
  function SplitPort(rest: string): (string, string) {
    match IndexOf(rest, ':')
    case None => (rest, "")
    case Some(j) => (rest[..j], rest[j + 1..])
  }

  lemma SplitJoin(x: string, c: char, y: string)
    requires c !in x
    ensures (x + [c] + y)[..|x|] == x && (x + [c] + y)[|x| + 1..] == y
  {
  }

  /** The part of the authority after the user information. */
  function HostPort(u: Uri): (r: string)
    requires !IsEmpty(u.host)
    ensures Authority(u) == (if IsEmpty(u.userInfo) then r else u.userInfo + ['@'] + r)
  {
    u.host + (if PortEmpty(u.port) then "" else ":" + IntToString(u.port.value))
  }

  lemma HostPortSplits(u: Uri)
    requires !IsEmpty(u.host) && '@' !in u.host && ':' !in u.host
    requires u.port.Some? ==> u.port.value >= 0
    ensures '@' !in HostPort(u)
    ensures SplitPort(HostPort(u)) == (u.host, if PortEmpty(u.port) then "" else IntToString(u.port.value))
  {
    var r := HostPort(u);
    if !PortEmpty(u.port) {
      var t := IntToString(u.port.value);
      assert r == u.host + [':'] + t;
      assert forall i :: 0 <= i < |t| ==> IsDigit(t[i]);
      assert forall i :: 0 <= i < |r| ==> r[i] in u.host || r[i] == ':' || IsDigit(r[i]);
      IndexOfJoin(u.host, ':', t);
      SplitJoin(u.host, ':', t);
    } else {
      assert r == u.host;
    }
  }

  /**
   * The authority keeps its parts recoverable: for a registered-name host
   * (no '@', no ':') and user information without '@', splitting the
   * authority gives back the user information and the host, and the port
   * text reads back as the port. Parts that PHP's `empty()` drops come back
   * empty.
   */
  lemma AuthorityRoundTrip(u: Uri)
    requires !IsEmpty(u.host) && '@' !in u.host && ':' !in u.host && '@' !in u.userInfo
    requires u.port.Some? ==> u.port.value >= 0
    ensures SplitUserInfo(Authority(u)).0 == (if IsEmpty(u.userInfo) then "" else u.userInfo)
    ensures SplitPort(SplitUserInfo(Authority(u)).1)
            == (u.host, if PortEmpty(u.port) then "" else IntToString(u.port.value))
    ensures !PortEmpty(u.port) ==> DigitsValue(IntToString(u.port.value)) == u.port.value
  {
    var rest := HostPort(u);
    HostPortSplits(u);
    if !IsEmpty(u.userInfo) {
      IndexOfJoin(u.userInfo, '@', rest);
      SplitJoin(u.userInfo, '@', rest);
    }
    if !PortEmpty(u.port) {
      NatToStringRoundTrip(u.port.value);
    }
  }

  /**
   * A URI reference recomposed as in section 5.3 of RFC 3986, with every
   * non-empty component taken as defined.
   */
  function Recompose(scheme: string, authority: string, path: string, query: string, fragment: string): string {
    (if scheme != "" then scheme + ":" else "")
    + (if authority != "" then "//" + authority else "")
    + path
    + (if query != "" then "?" + query else "")
    + (if fragment != "" then "#" + fragment else "")
  }

  /** The first appends of `__toString`: the scheme and ':', '//' and the authority. */
  function Origin(u: Uri): (r: string)
    ensures IsEmpty(u.scheme) && IsEmpty(Authority(u)) ==> r == ""
    ensures !IsEmpty(u.scheme) ==> u.scheme + ":" <= r
  {
    var authority := Authority(u);
    (if IsEmpty(u.scheme) then "" else u.scheme + ":") + (if IsEmpty(authority) then "" else "//" + authority)
  }

  /** Then the path, behind a '/' when something precedes it and it does not start with one. */
  function Head(u: Uri): (r: string)
    ensures Origin(u) <= r
    ensures IsEmpty(u.path) ==> r == Origin(u)
  {
    var s2 := Origin(u);
    if IsEmpty(u.path) then s2
    else if !IsEmpty(s2) && u.path[0] != '/' then s2 + "/" + u.path
    else s2 + u.path
  }

  /** `__toString`: each piece is appended with `.=`, so the joins nest the same way. */
  function ToString(u: Uri): (r: string)
    ensures Head(u) <= r
    ensures IsEmpty(u.query) && IsEmpty(u.fragment) ==> r == Head(u)
  {
    var s4 := Head(u) + (if IsEmpty(u.query) then "" else "?" + u.query);
    s4 + (if IsEmpty(u.fragment) then "" else "#" + u.fragment)
  }

  /** No component is the string "0", which PHP's `empty()` would drop. */
  predicate NoZeroComponent(u: Uri) {
    u.scheme != "0" && u.path != "0" && u.query != "0" && u.fragment != "0"
  }

  /**
   * The string form is the section 5.3 recomposition of RFC 3986, except
   * that a rootless path gets a leading '/' whenever a scheme or an authority
   * precedes it. A leading "//" in the path is kept as it is.
   */
  lemma ToStringRecomposes(u: Uri)
    requires NoZeroComponent(u)
    ensures var a := Authority(u);
            var rooted := u.path != "" && u.path[0] != '/' && (u.scheme != "" || a != "");
            ToString(u) == Recompose(u.scheme, a, if rooted then "/" + u.path else u.path, u.query, u.fragment)
  {
    var a := Authority(u);
    var s2 := Origin(u);
    var sa := if u.scheme != "" then u.scheme + ":" else "";
    var aa := if a != "" then "//" + a else "";
    assert s2 == sa + aa;
    assert IsEmpty(s2) <==> u.scheme == "" && a == "" by {
      assert |s2| == |sa| + |aa|;
    }
    var rooted := u.path != "" && u.path[0] != '/' && (u.scheme != "" || a != "");
    var p := if rooted then "/" + u.path else u.path;
    assert Head(u) == s2 + p by {
      if rooted {
        assert Head(u) == s2 + "/" + u.path;
      }
    }
    var q := if u.query != "" then "?" + u.query else "";
    var f := if u.fragment != "" then "#" + u.fragment else "";
    assert ToString(u) == s2 + p + q + f;
    assert Recompose(u.scheme, a, p, u.query, u.fragment) == sa + aa + p + q + f;
  }

  /** A query or fragment equal to "0" is left out of the string form, as PHP's `empty()` says. */
  lemma ToStringDropsZeroQuery(u: Uri)
    ensures ToString(u.(query := "0")) == ToString(u.(query := ""))
    ensures ToString(u.(fragment := "0")) == ToString(u.(fragment := ""))
  {
    var q0, q1 := u.(query := "0"), u.(query := "");
    assert Authority(q0) == Authority(q1) && Origin(q0) == Origin(q1);
    assert Head(q0) == Head(q1) && IsEmpty(q0.query);
    var f0, f1 := u.(fragment := "0"), u.(fragment := "");
    assert Authority(f0) == Authority(f1) && Origin(f0) == Origin(f1);
    assert Head(f0) == Head(f1) && IsEmpty(f0.fragment);
  }

  /** So is a scheme or a path equal to "0". */
  lemma ToStringDropsZeroPath(u: Uri)
    ensures ToString(u.(path := "0")) == ToString(u.(path := ""))
    ensures ToString(u.(scheme := "0")) == ToString(u.(scheme := ""))
  {
    var p0, p1 := u.(path := "0"), u.(path := "");
    assert Authority(p0) == Authority(p1) && Origin(p0) == Origin(p1);
    assert Head(p0) == Head(p1);
    var s0, s1 := u.(scheme := "0"), u.(scheme := "");
    assert Authority(s0) == Authority(s1) && Origin(s0) == Origin(s1);
    assert Head(s0) == Head(s1);
  }

  /**
   * A path starting with "//" and no authority stays as it is, though the
   * doc comment of `__toString` promises to reduce the slashes to one.
   */
  lemma ToStringKeepsDoubleSlash(u: Uri, rest: string)
    requires IsEmpty(u.host) && IsEmpty(u.scheme)
    ensures ToString(u.(path := "//" + rest, query := "", fragment := "")) == "//" + rest
  {
    var v := u.(path := "//" + rest, query := "", fragment := "");
    assert Origin(v) == "";
    assert Head(v) == "//" + rest;
  }

  /** `withPort` as written: the port is unchanged, the path becomes the port's text, and no range check runs. */
  lemma WithPortSetsPath(u: Uri, port: nat)
    ensures WithPort(u, Some(port)).port == u.port
    ensures WithPort(u, Some(port)).path == NatToString(port)
    ensures WithPort(u, None).path == ""
  {
    var t := NatToString(port);
    assert forall i :: 0 <= i < |t| ==> Kept(t[i], PathPart);
    assert IsEncoded(t, PathPart);
    EncodeKeepsEncoded(t, PathPart);
  }

  /** The user information reads back as user and password when the user holds no ':'. */
  lemma UserInfoRoundTrip(u: Uri, user: string, password: Option<string>)
    requires ':' !in user
    ensures var ui := WithUserInfo(u, user, password).userInfo;
            if password.Some? && !IsEmpty(password.value)
            then IndexOf(ui, ':') == Some(|user|) && ui[..|user|] == user && ui[|user| + 1..] == password.value
            else ui == user
  {
    if password.Some? && !IsEmpty(password.value) {
      var ui := WithUserInfo(u, user, password).userInfo;
      assert ui == user + [':'] + password.value;
      IndexOfJoin(user, ':', password.value);
    }
  }

  /** `withQuery` drops exactly one leading '?': a second one is kept, and encoded text is kept. */
  lemma WithQueryDropsOneMark(u: Uri, query: string)
    requires IsBytes(query)
    ensures WithQuery(u, "?" + query).query == Encode(query, QueryPart)
    ensures WithQuery(u, "??" + query).query == "?" + Encode(query, QueryPart)
  {
    assert DropLead("?" + query, '?') == query;
    assert DropLead("??" + query, '?') == "?" + query;
    assert IsBytes("?" + query) by {
      forall i | 0 <= i < |"?" + query| ensures ("?" + query)[i] as int < 256 {
        if i > 0 { assert ("?" + query)[i] == query[i - 1]; }
      }
    }
    assert !EscapeAt("?" + query, 0) && Kept('?', QueryPart);
    assert ("?" + query)[1..] == query;
  }
}
