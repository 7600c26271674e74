/**
 * The message part shared by requests and responses
 * (src/Message/MessageTrait.php): two header arrays, the protocol version and
 * the body. `headers` is keyed by the lower-cased name and answers lookups;
 * `headersOriginal` is keyed by the name as given and answers `getHeaders`.
 */
module Message {
  import opened Wrappers
  import opened PhpString
  import opened PhpArray
  import opened Streams

  /** The `$value` argument of withHeader/withAddedHeader: a string, or a list of strings. */
  datatype HeaderValue = One(value: string) | Many(values: seq<string>)

  /** `if (!is_array($value)) { $value = [$value]; }` */
  function Wrap(v: HeaderValue): seq<string> {
    match v
    case One(s) => [s]
    case Many(vs) => vs
  }

  /** The values after the cleaning loop: each one trimmed. */
  function Cleaned(v: HeaderValue): seq<string> {
    var vs := Wrap(v);
    seq(|vs|, i requires 0 <= i < |vs| => Trim(vs[i]))
  }

  type Headers = Arr<seq<string>>

  datatype Message = Message(
    headers: Headers,
    headersOriginal: Headers,
    protocolVersion: string,
    body: Option<Stream>)

  /** The initial field values: no header, version "1.1", no body. */
  const Initial: Message := Message([], [], "1.1", None)

  /** Both header arrays hold each key once, as PHP arrays do. */
  predicate Valid(m: Message) {
    Distinct(m.headers) && Distinct(m.headersOriginal)
  }

  // ---------------------------------------------------------------- reading

  /** `hasHeader`: the lower-cased name is a key of the lookup view. */
  predicate HasHeader(m: Message, name: string) {
    HasKey(m.headers, Lower(name))
  }

  /** `getHeader`: the values under the lower-cased name, [] when there are none. */
  function GetHeader(m: Message, name: string): (r: seq<string>)
    ensures !HasHeader(m, name) ==> r == []
    ensures HasHeader(m, name) ==> Lookup(m.headers, Lower(name)) == Some(r)
  {
    if HasHeader(m, name) then Lookup(m.headers, Lower(name)).value else []
  }

  /** Lookup ignores the case of ASCII letters in the name. */
  lemma GetHeaderIgnoresCase(m: Message, name: string)
    ensures HasHeader(m, Upper(name)) == HasHeader(m, name) == HasHeader(m, Lower(name))
    ensures GetHeader(m, Upper(name)) == GetHeader(m, name) == GetHeader(m, Lower(name))
  {
    LowerOfUpper(name);
    LowerIdempotent(name);
  }

  /** `implode($sep, $values)`. */
  function Join(values: seq<string>, sep: string): (r: string)
    ensures values == [] ==> r == ""
    ensures |values| == 1 ==> r == values[0]
  {
    if values == [] then ""
    else if |values| == 1 then values[0]
    else Join(values[..|values| - 1], sep) + sep + values[|values| - 1]
  }

  /** Joining two non-empty lists puts one separator between the two joins. */
  lemma {:induction false} JoinAppend(xs: seq<string>, ys: seq<string>, sep: string)
    requires xs != [] && ys != []
    ensures Join(xs + ys, sep) == Join(xs, sep) + sep + Join(ys, sep)
    decreases |ys|
  {
    var last := ys[|ys| - 1];
    var ys' := ys[..|ys| - 1];
    assert Join(xs + ys, sep) == Join(xs + ys', sep) + sep + last by {
      var all := xs + ys;
      assert all[..|all| - 1] == xs + ys';
      assert all[|all| - 1] == last;
    }
    if |ys| == 1 {
      assert xs + ys' == xs;
    } else {
      JoinAppend(xs, ys', sep);
      var l, m := Join(xs, sep) + sep, Join(ys', sep);
      assert Join(ys, sep) == m + sep + last;
      assert (l + m) + sep + last == l + (m + sep + last);
    }
  }

  /** `getHeaderLine`: the values joined with ", ", "" for an absent header. */
  function GetHeaderLine(m: Message, name: string): (r: string)
    ensures !HasHeader(m, name) ==> r == ""
  {
    Join(GetHeader(m, name), ", ")
  }

  /** `getHeaders`: the case-preserving view, in insertion order. */
  function GetHeaders(m: Message): (r: Headers)
    ensures Valid(m) ==> Distinct(r)
  {
    m.headersOriginal
  }

  /**
   * `getHeaders` after setting a header lists it under the name as given:
   * a new name goes last, and a listed one keeps its place.
   */
  lemma SetHeaderListed(m: Message, name: string, values: seq<string>)
    ensures Lookup(GetHeaders(SetHeader(m, name, values)), name) == Some(values)
    ensures !HasKey(m.headersOriginal, name)
            ==> Keys(GetHeaders(SetHeader(m, name, values))) == Keys(GetHeaders(m)) + [name]
    ensures HasKey(m.headersOriginal, name)
            ==> Keys(GetHeaders(SetHeader(m, name, values))) == Keys(GetHeaders(m))
  {
    var r := GetHeaders(SetHeader(m, name, values));
    assert r == Put(m.headersOriginal, name, values);
    KeysPut(m.headersOriginal, name, values);
  }

  // ---------------------------------------------------------------- writing

  /** The trimming loop of withHeader and setHeaders, run over the wrapped list. */
  method CleanValues(v: HeaderValue) returns (r: seq<string>)
    ensures r == Cleaned(v)
  {
    ghost var cleaned := Cleaned(v);
    r := Wrap(v);
    var i := 0;
    while i < |r|
      invariant 0 <= i <= |r| == |cleaned|
      invariant forall j :: 0 <= j < i ==> r[j] == cleaned[j]
      invariant forall j :: i <= j < |r| ==> r[j] == Wrap(v)[j]
    {
      r := r[i := Trim(r[i])];
      i := i + 1;
    }
  }

  /** The two assignments withHeader and setHeaders end with: the list goes under both keys. */
  function SetHeader(m: Message, name: string, values: seq<string>): (r: Message)
    ensures r == m.(headers := r.headers, headersOriginal := r.headersOriginal)
    ensures HasHeader(r, name) && GetHeader(r, name) == values
    ensures Lookup(r.headersOriginal, name) == Some(values)
    ensures forall n :: Lower(n) != Lower(name) ==> GetHeader(r, n) == GetHeader(m, n)
    ensures forall n :: n != name ==> Lookup(r.headersOriginal, n) == Lookup(m.headersOriginal, n)
  {
    m.(headers := Put(m.headers, Lower(name), values),
       headersOriginal := Put(m.headersOriginal, name, values))
  }

  lemma SetHeaderValid(m: Message, name: string, values: seq<string>)
    requires Valid(m)
    ensures Valid(SetHeader(m, name, values))
  {
    PutDistinct(m.headers, Lower(name), values);
    PutDistinct(m.headersOriginal, name, values);
  }

  /** `withHeader`: the trimmed values replace whatever both views held under the name. */
  method WithHeader(m: Message, name: string, value: HeaderValue) returns (r: Message)
    ensures r == SetHeader(m, name, Cleaned(value))
  {
    var values := CleanValues(value);
    r := m.(headers := Put(m.headers, Lower(name), values),
            headersOriginal := Put(m.headersOriginal, name, values));
  }

  /** One pass of the append loop: `$headers[lower][] = $val; $headersOriginal[$name][] = $val;` */
  function AppendOne(m: Message, name: string, value: string): (r: Message)
    ensures r == m.(headers := r.headers, headersOriginal := r.headersOriginal)
    ensures HasHeader(r, name) && GetHeader(r, name) == GetHeader(m, name) + [value]
    ensures Lookup(r.headersOriginal, name) == Some(GetOr(m.headersOriginal, name, []) + [value])
    ensures forall n :: Lower(n) != Lower(name) ==> GetHeader(r, n) == GetHeader(m, n)
    ensures forall n :: n != name ==> Lookup(r.headersOriginal, n) == Lookup(m.headersOriginal, n)
  {
    m.(headers := Put(m.headers, Lower(name), GetOr(m.headers, Lower(name), []) + [value]),
       headersOriginal := Put(m.headersOriginal, name, GetOr(m.headersOriginal, name, []) + [value]))
  }

  /**
   * What withAddedHeader produces: an absent header first gets an empty list
   * in both views, then the values are appended one by one (the
   * case-preserving entry is created by the first append if that view lacks
   * the name).
   */
  function AddedHeader(m: Message, name: string, values: seq<string>): Message
    decreases |values|
  {
    if values == [] then (if HasHeader(m, name) then m else SetHeader(m, name, []))
    else AppendOne(AddedHeader(m, name, values[..|values| - 1]), name, values[|values| - 1])
  }

  /** `withAddedHeader`: the trimmed values are appended to both views, one by one. */
  method WithAddedHeader(m: Message, name: string, value: HeaderValue) returns (r: Message)
    ensures r == AddedHeader(m, name, Cleaned(value))
  {
    // the source trims each value just before appending it; trimming them
    // all first, with the loop withHeader uses, appends the same values
    var cleaned := CleanValues(value);
    r := if HasHeader(m, name) then m else SetHeader(m, name, []);
    var i := 0;
    assert cleaned[..0] == [];
    while i < |cleaned|
      invariant 0 <= i <= |cleaned|
      invariant r == AddedHeader(m, name, cleaned[..i])
    {
      AddedHeaderSnoc(m, name, cleaned, i);
      r := AppendOne(r, name, cleaned[i]);
      i := i + 1;
    }
    assert cleaned[..i] == cleaned;
  }

  /** The fold over a prefix one element longer takes one more append. */
  lemma AddedHeaderSnoc(m: Message, name: string, values: seq<string>, i: nat)
    requires i < |values|
    ensures AddedHeader(m, name, values[..i + 1]) == AppendOne(AddedHeader(m, name, values[..i]), name, values[i])
  {
    assert values[..i + 1][..i] == values[..i];
  }

  /** After withAddedHeader the header reads as its old values followed by the new ones. */
  lemma {:induction false} AddedHeaderReads(m: Message, name: string, values: seq<string>)
    ensures HasHeader(AddedHeader(m, name, values), name)
    ensures GetHeader(AddedHeader(m, name, values), name) == GetHeader(m, name) + values
    decreases |values|
  {
    if values == [] {
      assert GetHeader(m, name) + [] == GetHeader(m, name);
    } else {
      AddedHeaderReads(m, name, values[..|values| - 1]);
      SnocSplit(GetHeader(m, name), values);
    }
  }

  /**
   * In the case-preserving view the entry under the exact name holds its old
   * values (none if the header was absent) followed by the new ones.
   */
  lemma {:induction false} AddedHeaderListed(m: Message, name: string, values: seq<string>)
    requires values != [] || !HasHeader(m, name)
    ensures Lookup(AddedHeader(m, name, values).headersOriginal, name)
            == Some((if HasHeader(m, name) then GetOr(m.headersOriginal, name, []) else []) + values)
    decreases |values|
  {
    var o := if HasHeader(m, name) then GetOr(m.headersOriginal, name, []) else [];
    if values == [] {
      assert o + [] == o;
    } else {
      var init := values[..|values| - 1];
      var prev := AddedHeader(m, name, init);
      if init == [] {
        assert GetOr(prev.headersOriginal, name, []) == o;
        assert o + init == o;
      } else {
        AddedHeaderListed(m, name, init);
      }
      SnocSplit(o, values);
    }
  }

  /** withAddedHeader moves no other header, and leaves the version and the body alone. */
  lemma {:induction false} AddedHeaderOthers(m: Message, name: string, values: seq<string>)
    ensures forall n :: Lower(n) != Lower(name) ==> GetHeader(AddedHeader(m, name, values), n) == GetHeader(m, n)
    ensures forall n :: n != name ==>
              Lookup(AddedHeader(m, name, values).headersOriginal, n) == Lookup(m.headersOriginal, n)
    ensures AddedHeader(m, name, values).protocolVersion == m.protocolVersion
    ensures AddedHeader(m, name, values).body == m.body
    decreases |values|
  {
    if values != [] {
      AddedHeaderOthers(m, name, values[..|values| - 1]);
    }
  }

  lemma {:induction false} AddedHeaderValid(m: Message, name: string, values: seq<string>)
    requires Valid(m)
    ensures Valid(AddedHeader(m, name, values))
    decreases |values|
  {
    if values == [] {
      if !HasHeader(m, name) {
        SetHeaderValid(m, name, []);
      }
    } else {
      var prev := AddedHeader(m, name, values[..|values| - 1]);
      AddedHeaderValid(m, name, values[..|values| - 1]);
      PutDistinct(prev.headers, Lower(name), GetOr(prev.headers, Lower(name), []) + [values[|values| - 1]]);
      PutDistinct(prev.headersOriginal, name, GetOr(prev.headersOriginal, name, []) + [values[|values| - 1]]);
    }
  }

  /** `withoutHeader`: when the header exists, the lower-cased key and the exact name are unset. */
  function WithoutHeader(m: Message, name: string): (r: Message)
    ensures r == m.(headers := r.headers, headersOriginal := r.headersOriginal)
    ensures !HasHeader(r, name) && GetHeader(r, name) == []
    ensures HasHeader(m, name) ==> !HasKey(r.headersOriginal, name)
    ensures !HasHeader(m, name) ==> r == m
    ensures forall n :: Lower(n) != Lower(name) ==> GetHeader(r, n) == GetHeader(m, n)
    ensures forall n :: n != name ==> Lookup(r.headersOriginal, n) == Lookup(m.headersOriginal, n)
  {
    if HasHeader(m, name) then
      m.(headers := Unset(m.headers, Lower(name)), headersOriginal := Unset(m.headersOriginal, name))
    else m
  }

  lemma WithoutHeaderValid(m: Message, name: string)
    requires Valid(m)
    ensures Valid(WithoutHeader(m, name))
  {
    UnsetDistinct(m.headers, Lower(name));
    UnsetDistinct(m.headersOriginal, name);
  }

  /** `withProtocolVersion`: only the version changes. */
  function WithProtocolVersion(m: Message, version: string): (r: Message)
    ensures r.protocolVersion == version
    ensures r.headers == m.headers && r.headersOriginal == m.headersOriginal && r.body == m.body
  {
    m.(protocolVersion := version)
  }

  /** `withBody`: only the body changes. */
  function WithBody(m: Message, body: Stream): (r: Message)
    ensures r.body == Some(body)
    ensures r.headers == m.headers && r.headersOriginal == m.headersOriginal
    ensures r.protocolVersion == m.protocolVersion
  {
    m.(body := Some(body))
  }

  // ---------------------------------------------------------------- construction helpers

  /** What setHeaders leaves: each entry in turn, cleaned and set under both keys. */
  function SetAll(m: Message, entries: seq<(string, HeaderValue)>): Message
    decreases |entries|
  {
    if entries == [] then m
    else
      var last := entries[|entries| - 1];
      SetHeader(SetAll(m, entries[..|entries| - 1]), last.0, Cleaned(last.1))
  }

  /** `setHeaders`: the loop over the entries, each with its own cleaning loop. */
  method SetHeaders(m: Message, entries: seq<(string, HeaderValue)>) returns (r: Message)
    ensures r == SetAll(m, entries)
  {
    r := m;
    var i := 0;
    while i < |entries|
      invariant 0 <= i <= |entries|
      invariant r == SetAll(m, entries[..i])
    {
      var (name, value) := entries[i];
      var values := CleanValues(value);
      assert entries[..i + 1][..i] == entries[..i];
      assert SetAll(m, entries[..i + 1]) == SetHeader(r, name, values);
      r := r.(headersOriginal := Put(r.headersOriginal, name, values),
              headers := Put(r.headers, Lower(name), values));
      i := i + 1;
    }
    assert entries[..i] == entries;
  }

  /**
   * In the lookup view the last entry whose name folds to a key wins; in the
   * case-preserving view every entry keeps its own values, the names of a
   * PHP array being distinct.
   */
  lemma {:induction false} SetAllLastWins(m: Message, entries: seq<(string, HeaderValue)>, j: int)
    requires 0 <= j < |entries|
    requires forall i :: j < i < |entries| ==> Lower(entries[i].0) != Lower(entries[j].0)
    ensures GetHeader(SetAll(m, entries), entries[j].0) == Cleaned(entries[j].1)
    ensures (forall i :: j < i < |entries| ==> entries[i].0 != entries[j].0) ==>
              Lookup(SetAll(m, entries).headersOriginal, entries[j].0) == Some(Cleaned(entries[j].1))
    decreases |entries|
  {
    var init := entries[..|entries| - 1];
    if j < |entries| - 1 {
      assert init[j] == entries[j];
      forall i | j < i < |init| ensures Lower(init[i].0) != Lower(init[j].0) {
        assert init[i] == entries[i];
      }
      SetAllLastWins(m, init, j);
      assert (forall i :: j < i < |entries| ==> entries[i].0 != entries[j].0) ==>
               (forall i :: j < i < |init| ==> init[i].0 != init[j].0) by {
        if forall i :: j < i < |entries| ==> entries[i].0 != entries[j].0 {
          forall i | j < i < |init| ensures init[i].0 != init[j].0 {
            assert init[i] == entries[i];
          }
        }
      }
    }
  }

  /**
   * The shape setHeaders and withHeader leave: every key of the lookup view
   * is lower-case, and every listed name has its folded key in the lookup view.
   */
  ghost predicate Folded(m: Message) {
    && (forall k :: HasKey(m.headers, k) ==> Lower(k) == k)
    && (forall n :: HasKey(m.headersOriginal, n) ==> HasKey(m.headers, Lower(n)))
  }

  lemma SetHeaderFolded(m: Message, name: string, values: seq<string>)
    requires Folded(m)
    ensures Folded(SetHeader(m, name, values))
  {
    var r := SetHeader(m, name, values);
    LowerIdempotent(name);
    forall k | HasKey(r.headers, k) ensures Lower(k) == k {
      if k != Lower(name) {
        assert Lookup(r.headers, k) == Lookup(m.headers, k);
      }
    }
    forall n | HasKey(r.headersOriginal, n) ensures HasKey(r.headers, Lower(n)) {
      if n != name {
        assert Lookup(r.headersOriginal, n) == Lookup(m.headersOriginal, n);
        if Lower(n) != Lower(name) {
          assert Lookup(r.headers, Lower(n)) == Lookup(m.headers, Lower(n));
        }
      }
    }
  }

  /** setHeaders keeps the shape. */
  lemma {:induction false} SetAllFolded(m: Message, entries: seq<(string, HeaderValue)>)
    requires Folded(m)
    ensures Folded(SetAll(m, entries))
    decreases |entries|
  {
    if entries != [] {
      var last := entries[|entries| - 1];
      SetAllFolded(m, entries[..|entries| - 1]);
      SetHeaderFolded(SetAll(m, entries[..|entries| - 1]), last.0, Cleaned(last.1));
    }
  }

  /** setHeaders keeps both arrays well formed. */
  lemma {:induction false} SetAllValid(m: Message, entries: seq<(string, HeaderValue)>)
    requires Valid(m)
    ensures Valid(SetAll(m, entries))
    decreases |entries|
  {
    if entries != [] {
      var last := entries[|entries| - 1];
      SetAllValid(m, entries[..|entries| - 1]);
      SetHeaderValid(SetAll(m, entries[..|entries| - 1]), last.0, Cleaned(last.1));
    }
  }

  /** In that shape a name whose folded key is absent is not listed either. */
  lemma FoldedAbsent(m: Message, name: string)
    requires Folded(m) && !HasHeader(m, name)
    ensures !HasKey(m.headersOriginal, name)
    ensures Lower(name) != name ==> !HasKey(m.headers, name)
  {
  }

  /** `addHeaders`: `$headers += $entries`, keys already present win. */
  function AddHeaders(m: Message, entries: Headers): (r: Message)
    ensures r == m.(headers := r.headers)
    ensures forall k :: Lookup(r.headers, k) ==
              if HasKey(m.headers, k) then Lookup(m.headers, k) else Lookup(entries, k)
  {
    m.(headers := Union(m.headers, entries))
  }

  /** `addHeadersOriginal`: `$headersOriginal += $entries`, keys already present win. */
  function AddHeadersOriginal(m: Message, entries: Headers): (r: Message)
    ensures r == m.(headersOriginal := r.headersOriginal)
    ensures forall k :: Lookup(r.headersOriginal, k) ==
              if HasKey(m.headersOriginal, k) then Lookup(m.headersOriginal, k) else Lookup(entries, k)
  {
    m.(headersOriginal := Union(m.headersOriginal, entries))
  }

  // ---------------------------------------------------------------- the two views

  /** Every header `getHeaders` lists reads back through `getHeader` with the same values. */
  ghost predicate Agree(m: Message) {
    forall n :: HasKey(m.headersOriginal, n) ==> Lookup(m.headers, Lower(n)) == Lookup(m.headersOriginal, n)
  }

  /**
   * A name that `getHeaders` lists answers `hasHeader`; while the two views
   * agree, `getHeader` gives the values listed under it.
   */
  lemma ListedHeaderReads(m: Message, n: string)
    requires Folded(m) && HasKey(GetHeaders(m), n)
    ensures HasHeader(m, n)
    ensures Agree(m) ==> Lookup(GetHeaders(m), n) == Some(GetHeader(m, n))
  {
  }

  /** The name is spelt as every listed header that folds to the same key. */
  ghost predicate SameCasing(m: Message, name: string) {
    forall n :: HasKey(m.headersOriginal, n) && Lower(n) == Lower(name) ==> n == name
  }

  /** Setting a header under its established spelling keeps the two views in agreement. */
  lemma SetHeaderAgrees(m: Message, name: string, values: seq<string>)
    requires Agree(m) && SameCasing(m, name)
    ensures Agree(SetHeader(m, name, values))
  {
    var r := SetHeader(m, name, values);
    forall n | HasKey(r.headersOriginal, n)
      ensures Lookup(r.headers, Lower(n)) == Lookup(r.headersOriginal, n)
    {
      if n != name {
        assert HasKey(m.headersOriginal, n);
        assert Lookup(r.headers, Lower(n)) == Lookup(m.headers, Lower(n));
      }
    }
  }

  /** Removing a header under its established spelling keeps the two views in agreement. */
  lemma WithoutHeaderAgrees(m: Message, name: string)
    requires Agree(m) && SameCasing(m, name)
    ensures Agree(WithoutHeader(m, name))
  {
    var r := WithoutHeader(m, name);
    forall n | HasKey(r.headersOriginal, n)
      ensures Lookup(r.headers, Lower(n)) == Lookup(r.headersOriginal, n)
    {
      if HasHeader(m, name) {
        assert n != name;
        assert Lookup(r.headersOriginal, n) == Lookup(m.headersOriginal, n);
        assert HasKey(m.headersOriginal, n);
        assert Lower(n) != Lower(name);
        assert Lookup(r.headers, Lower(n)) == Lookup(m.headers, Lower(n));
      }
    }
  }

  /**
   * A second spelling splits the views: after "X-A: 1" then "x-a: 2",
   * `getHeaders` lists both spellings with their own values while
   * `getHeader('X-A')` answers the second list.
   */
  lemma SecondSpellingSplitsViews()
    ensures var m := SetHeader(SetHeader(Initial, "X-A", ["1"]), "x-a", ["2"]);
            && GetHeaders(m) == [("X-A", ["1"]), ("x-a", ["2"])]
            && GetHeader(m, "X-A") == ["2"]
            && !Agree(m)
  {
    LowerXA();
    var m1 := SetHeader(Initial, "X-A", ["1"]);
    var m := SetHeader(m1, "x-a", ["2"]);
    assert m1.headersOriginal == [("X-A", ["1"])];
    assert GetHeaders(m) == [("X-A", ["1"]), ("x-a", ["2"])] by {
      assert !HasKey([("X-A", ["1"])], "x-a");
      PutNewKey([("X-A", ["1"])], "x-a", ["2"]);
    }
    assert GetHeader(m, "X-A") == ["2"] by {
      assert GetHeader(m, "x-a") == ["2"];
    }
    assert !Agree(m) by {
      assert HasKey(m.headersOriginal, "X-A") by {
        assert m.headersOriginal[0].0 == "X-A";
      }
      assert Lookup(m.headersOriginal, "X-A") == Some(["1"]);
      assert Lookup(m.headers, Lower("X-A")) == Some(["2"]);
    }
  }

  lemma LowerXA()
    ensures Lower("X-A") == "x-a" && Lower("x-a") == "x-a"
  {
    assert Lower("X-A")[0] == LowerChar('X');
  }

}
