/**
 * The key-value bags: `Data` (src/Http/Data.php, and its older copy
 * Data.php, which is the same code), whose `get` falls back to a default
 * or fails, and the read-only `QueryParameters` (src/QueryParameters.php).
 * Both test keys with `isset`, so a key holding null counts as absent.
 */
module Bags {
  import opened Wrappers
  import opened PhpArray

  /** `isset($a[$k])`: the key exists and its value is not null. */
  predicate Isset(a: Arr<Value>, k: string) {
    Lookup(a, k).Some? && Lookup(a, k).value != Null
  }

  /** `isset` and `array_key_exists` differ exactly on keys that hold null. */
  lemma IssetVersusKeyExists(a: Arr<Value>, k: string)
    ensures Isset(a, k) <==> HasKey(a, k) && GetOr(a, k, Null) != Null
  {
  }

  /**
   * `Data::get($name, $default)`: the whole array when no name is given;
   * the value when it is set; a non-null default; otherwise "Key not found".
   */
  function DataGet(a: Arr<Value>, name: Option<string>, default: Value): (r: Result<Value>)
    ensures r.Err? <==> name.Some? && !Isset(a, name.value) && default == Null
    ensures r.Err? ==> r.error == KeyNotFound
    ensures name.None? ==> r == Ok(Array(a))
    ensures name.Some? && r.Ok? ==> r.value != Null
    ensures name.Some? && Isset(a, name.value) ==> Some(r.value) == Lookup(a, name.value)
    ensures name.Some? && !Isset(a, name.value) && r.Ok? ==> r.value == default
  {
    if name.None? then Ok(Array(a))
    else if Isset(a, name.value) then Ok(Lookup(a, name.value).value)
    else if default != Null then Ok(default)
    else Err(KeyNotFound)
  }

  /** After `set(k, v)` with a non-null v, `has(k)` holds and `get(k)` answers v, whatever the default. */
  lemma SetThenGet(a: Arr<Value>, k: string, v: Value, default: Value)
    requires v != Null
    ensures Isset(Put(a, k, v), k)
    ensures DataGet(Put(a, k, v), Some(k), default) == Ok(v)
  {
  }

  /** After `set(k, null)` the key reads as absent: `get(k)` with no default fails. */
  lemma SetNullHides(a: Arr<Value>, k: string)
    ensures !Isset(Put(a, k, Null), k)
    ensures DataGet(Put(a, k, Null), Some(k), Null) == Err(KeyNotFound)
  {
  }

  /** Setting one key changes what no other key reads. */
  lemma SetKeepsOthers(a: Arr<Value>, k: string, v: Value, other: string, default: Value)
    requires other != k
    ensures Isset(Put(a, k, v), other) == Isset(a, other)
    ensures DataGet(Put(a, k, v), Some(other), default) == DataGet(a, Some(other), default)
  {
  }

  /** The bag: one array that `set` writes in place. */
  class Data {
    var data: Arr<Value>

    constructor (data: Arr<Value>)
      ensures this.data == data
    {
      this.data := data;
    }

    /** `has`: isset. */
    function Has(name: string): (r: bool)
      reads this
      ensures r <==> HasKey(data, name) && GetOr(data, name, Null) != Null
    {
      Isset(data, name)
    }

    /** `get`, with a failed lookup as an error. */
    function Get(name: Option<string>, default: Value): (r: Result<Value>)
      reads this
      ensures name.None? ==> r == Ok(Array(data))
      ensures name.Some? && Has(name.value) ==> r.Ok? && Some(r.value) == Lookup(data, name.value)
      ensures name.Some? && !Has(name.value) ==> r == if default != Null then Ok(default) else Err(KeyNotFound)
    {
      DataGet(data, name, default)
    }

    /** `set`: the value is stored under the name, replacing any value there. */
    method Set(name: string, value: Value)
      modifies this
      ensures data == Put(old(data), name, value)
      ensures value != Null ==> Has(name) && Get(Some(name), Null) == Ok(value)
      ensures forall n :: n != name ==> Lookup(data, n) == Lookup(old(data), n)
    {
      data := Put(data, name, value);
      if value != Null {
        SetThenGet(old(data), name, value, Null);
      }
    }
  }

  /** The query parameters: an array stored once by the constructor and never changed. */
  datatype QueryParameters = QueryParameters(parameters: Arr<Value>)

  /** `has`: isset. */
  function QueryHas(q: QueryParameters, name: string): (r: bool)
    ensures r <==> HasKey(q.parameters, name) && GetOr(q.parameters, name, Null) != Null
  {
    Isset(q.parameters, name)
  }

  /** `get`: the value when `has` holds, otherwise the default, null included. */
  function QueryGet(q: QueryParameters, name: string, default: Value): (r: Value)
    ensures QueryHas(q, name) ==> r != Null && Some(r) == Lookup(q.parameters, name)
    ensures !QueryHas(q, name) ==> r == default
  {
    if QueryHas(q, name) then Lookup(q.parameters, name).value else default
  }

  /**
   * The query parameters answer as a Data bag over the same array wherever
   * the bag answers at all; where the bag fails, they hand back the null
   * default instead.
   */
  lemma QueryGetAgreesWithData(a: Arr<Value>, name: string, default: Value)
    ensures DataGet(a, Some(name), default).Ok? ==>
              QueryGet(QueryParameters(a), name, default) == DataGet(a, Some(name), default).value
    ensures DataGet(a, Some(name), default).Err? ==> QueryGet(QueryParameters(a), name, default) == Null
  {
  }
}
