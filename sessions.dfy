/**
 * Sessions and their ephemeral ("flash") variables.
 *
 * Both session classes keep, under one reserved key, an array from a name to
 * an entry `['active' => bool, 'var' => value]`. setEphemeral stores an
 * active entry; clearEphemeral makes active entries inactive and drops
 * inactive ones, so a value survives exactly one clear.
 *
 * `Session` is src/Session/Session.php, over the session array itself.
 * `DataSession` is src/Http/Session.php, a Data bag (the older Session.php
 * is the same code); it tests with `isset` where the other class tests with
 * `array_key_exists`.
 */
module Sessions {
  import opened Wrappers
  import opened PhpArray
  import opened Bags

  /** An entry whose 'active' flag is exactly true (`true === $var['active']`). */
  predicate IsActive(v: Value) {
    v.Array? && Lookup(v.entries, "active") == Some(Bool(true))
  }

  /** `$var['active'] = false` on an entry. */
  function Deactivate(v: Value): (r: Value)
    requires v.Array?
    ensures r.Array? && !IsActive(r)
    ensures forall k :: k != "active" ==> Lookup(r.entries, k) == Lookup(v.entries, k)
  {
    Array(Put(v.entries, "active", Bool(false)))
  }

  /** What clearEphemeral's loop leaves of the ephemeral array: the active entries, now inactive, in order. */
  function Aged(a: Arr<Value>): (r: Arr<Value>)
    ensures |r| <= |a|
    ensures forall k :: HasKey(r, k) ==> HasKey(a, k)
    ensures Distinct(a) ==> Distinct(r)
    decreases |a|
  {
    if a == [] then []
    else
      var init, last := a[..|a| - 1], a[|a| - 1];
      var front := Aged(init);
      HasKeySnoc(init, last);
      DistinctInit(a);
      if IsActive(last.1) then
        var e := (last.0, Deactivate(last.1));
        HasKeySnoc(front, e);
        DistinctSnoc(front, e);
        front + [e]
      else front
  }

  lemma HasKeySnoc(a: Arr<Value>, e: (string, Value))
    ensures forall k :: HasKey(a + [e], k) <==> HasKey(a, k) || k == e.0
  {
    forall k | HasKey(a + [e], k) && k != e.0 ensures HasKey(a, k) {
      var i :| 0 <= i < |a + [e]| && (a + [e])[i].0 == k;
      assert (a + [e])[i] == a[i];
    }
    forall k | HasKey(a, k) ensures HasKey(a + [e], k) {
      var i :| 0 <= i < |a| && a[i].0 == k;
      assert (a + [e])[i] == a[i];
    }
    assert (a + [e])[|a|] == e;
  }

  lemma DistinctInit(a: Arr<Value>)
    requires a != []
    ensures Distinct(a) ==> Distinct(a[..|a| - 1]) && !HasKey(a[..|a| - 1], a[|a| - 1].0)
  {
    if Distinct(a) {
      var init := a[..|a| - 1];
      forall i | 0 <= i < |init| ensures init[i].0 != a[|a| - 1].0 {
        assert init[i] == a[i];
      }
    }
  }

  lemma DistinctSnoc(a: Arr<Value>, e: (string, Value))
    ensures Distinct(a) && !HasKey(a, e.0) ==> Distinct(a + [e])
  {
    if Distinct(a) && !HasKey(a, e.0) {
      forall i, j | 0 <= i < j < |a + [e]| ensures (a + [e])[i].0 != (a + [e])[j].0 {
        assert (a + [e])[i] == a[i];
      }
    }
  }

  /**
   * Where the ephemeral array held a name once, the aged array holds it
   * exactly when its entry was active, and then with the entry deactivated.
   */
  lemma {:induction false} AgedLookup(a: Arr<Value>, k: string)
    requires Distinct(a)
    ensures Lookup(Aged(a), k) ==
            match Lookup(a, k)
            case Some(v) => if IsActive(v) then Some(Deactivate(v)) else None
            case None => None
    decreases |a|
  {
    if a != [] {
      var init, last := a[..|a| - 1], a[|a| - 1];
      assert a == init + [last];
      AgedStep(a);
      AgedLookup(init, k);
      LookupAppend(init, last);
      LookupAppend(Aged(init), (last.0, if last.1.Array? then Deactivate(last.1) else last.1));
    }
  }

  /** One step of AgedLookup: the front is well formed and lacks the last key, in both arrays. */
  lemma AgedStep(a: Arr<Value>)
    requires Distinct(a) && a != []
    ensures var init, last := a[..|a| - 1], a[|a| - 1];
            && Distinct(init) && !HasKey(init, last.0) && !HasKey(Aged(init), last.0)
  {
    var init, last := a[..|a| - 1], a[|a| - 1];
    forall i, j | 0 <= i < j < |init| ensures init[i].0 != init[j].0 {
      assert init[i] == a[i] && init[j] == a[j];
    }
    forall i | 0 <= i < |init| ensures init[i].0 != last.0 {
      assert init[i] == a[i];
    }
  }

  /**
   * `$ephemeral[$name]['active'] = true; $ephemeral[$name]['var'] = $value;`.
   * A name holding no array gets a new one.
   */
  function SetEntry(a: Arr<Value>, name: string, value: Value): (r: Arr<Value>)
    ensures Distinct(a) ==> Distinct(r)
    ensures Lookup(r, name).Some? && IsActive(Lookup(r, name).value)
    ensures VarOf(r, name) == Some(value)
    ensures forall k :: k != name ==> Lookup(r, k) == Lookup(a, k)
  {
    var prev := Lookup(a, name);
    var entry := if prev.Some? && prev.value.Array? then prev.value.entries else [];
    var entry' := Put(Put(entry, "active", Bool(true)), "var", value);
    assert Distinct(a) ==> Distinct(Put(a, name, Array(entry'))) by {
      if Distinct(a) {
        PutDistinct(a, name, Array(entry'));
      }
    }
    Put(a, name, Array(entry'))
  }

  /** `isset($ephemeral[$name]['var'])`: the entry is an array whose 'var' is set and not null. */
  predicate VarIsset(a: Arr<Value>, name: string) {
    Lookup(a, name).Some? && Lookup(a, name).value.Array? && Isset(Lookup(a, name).value.entries, "var")
  }

  /** A name setEphemeral has just written is set, and its var is set exactly when the value is not null. */
  lemma SetEntryReads(a: Arr<Value>, name: string, value: Value)
    ensures var e := SetEntry(a, name, value);
            && HasKey(e, name) && GetOr(e, name, Null) != Null
            && (VarIsset(e, name) <==> value != Null)
  {
  }

  /** `$ephemeral[$name]['var']` when the entry is an array holding 'var'. */
  function VarOf(a: Arr<Value>, name: string): Option<Value> {
    var entry := Lookup(a, name);
    if entry.Some? && entry.value.Array? then Lookup(entry.value.entries, "var") else None
  }

  /**
   * The flash rule: a value set under a name reads back after one clear and
   * is gone after the second, and the clears touch no other name's entry
   * beyond ageing it.
   */
  lemma SurvivesOneClear(a: Arr<Value>, name: string, value: Value)
    requires Distinct(a)
    ensures VarOf(Aged(SetEntry(a, name, value)), name) == Some(value)
    ensures !HasKey(Aged(Aged(SetEntry(a, name, value))), name)
  {
    var s := SetEntry(a, name, value);
    AgedLookup(s, name);
    var once := Aged(s);
    AgedLookup(once, name);
    assert Lookup(once, name).Some? && !IsActive(Lookup(once, name).value);
  }

  /** An entry that was not active when the clear ran is removed by it. */
  lemma InactiveIsDropped(a: Arr<Value>, name: string)
    requires Distinct(a) && Lookup(a, name).Some? && !IsActive(Lookup(a, name).value)
    ensures !HasKey(Aged(a), name)
  {
    AgedLookup(a, name);
  }

  /** clearEphemeral's `foreach` by reference over the ephemeral array. */
  lemma AgedPrefix(a: Arr<Value>, i: nat)
    requires i < |a|
    ensures Aged(a[..i + 1]) ==
            if IsActive(a[i].1) then Aged(a[..i]) + [(a[i].0, Deactivate(a[i].1))] else Aged(a[..i])
  {
    assert a[..i + 1][..i] == a[..i] && a[..i + 1][i] == a[i];
  }

  method AgeEntries(a: Arr<Value>) returns (kept: Arr<Value>)
    ensures kept == Aged(a)
  {
    kept := [];
    var i := 0;
    while i < |a|
      invariant 0 <= i <= |a|
      invariant kept == Aged(a[..i])
    {
      AgedPrefix(a, i);
      if IsActive(a[i].1) {
        kept := kept + [(a[i].0, Deactivate(a[i].1))];
      }
      i := i + 1;
    }
    assert a[..i] == a;
  }

  /** The entries of the value stored under the reserved key; anything but an array holds none. */
  function EntriesOf(v: Value): Arr<Value> {
    if v.Array? then v.entries else []
  }

  /** The top level of a stored array holds each key once, as every PHP array does. */
  predicate WellFormed(v: Value) {
    v.Array? ==> Distinct(v.entries)
  }

  /** The session (src/Session/Session.php): the session array, updated in place. */
  class Session {
    var session: Arr<Value>

    static const Ephemeral: string := "_ephemeral"

    ghost predicate Valid()
      reads this
    {
      Distinct(session) && WellFormed(GetOr(session, Ephemeral, Null))
    }

    /** What clearEphemeral stores: the aged array, [] when the key is missing, any other value as it was. */
    static function ClearedSlot(s: Arr<Value>): (v: Value)
      ensures !HasKey(s, Ephemeral) ==> v == Array([])
      ensures WellFormed(GetOr(s, Ephemeral, Null)) ==> WellFormed(v)
    {
      var slot := Lookup(s, Ephemeral);
      if slot.None? then Array([])
      else if slot.value.Array? then Array(Aged(slot.value.entries))
      else slot.value
    }

    /** The constructor takes the session array and clears the ephemeral variables once. */
    constructor (initial: Arr<Value>)
      ensures session == Put(initial, Ephemeral, ClearedSlot(initial))
      ensures Distinct(initial) && WellFormed(GetOr(initial, Ephemeral, Null)) ==> Valid()
    {
      session := initial;
      new;
      ClearEphemeral();
    }

    /** `has`: array_key_exists, so a key holding null is present. */
    function Has(key: string): bool
      reads this
    {
      HasKey(session, key)
    }

    /** `get`: the stored value, null included, or the default when the key is missing. */
    function Get(key: string, default: Value): (r: Value)
      reads this
      ensures Has(key) ==> Some(r) == Lookup(session, key)
      ensures !Has(key) ==> r == default
    {
      GetOr(session, key, default)
    }

    method Set(key: string, value: Value)
      modifies this
      ensures session == Put(old(session), key, value)
      ensures Has(key) && Get(key, Null) == value
      ensures old(Valid()) && (key == Ephemeral ==> WellFormed(value)) ==> Valid()
    {
      if Distinct(session) {
        PutDistinct(session, key, value);
      }
      session := Put(session, key, value);
    }

    /** `remove`: a present key is unset; a missing one is left alone. */
    method Remove(key: string)
      modifies this
      ensures session == Unset(old(session), key)
      ensures !Has(key)
      ensures forall k :: k != key ==> Lookup(session, k) == Lookup(old(session), k)
      ensures old(Valid()) ==> Valid()
    {
      if Has(key) {
        if Distinct(session) {
          UnsetDistinct(session, key);
        }
        session := Unset(session, key);
      }
    }

    /** `getEphemeral`: a listed name answers its 'var' (null when the entry lacks one); others the default. */
    function GetEphemeral(name: string, default: Value): (r: Value)
      reads this
      ensures !HasEphemeral(name) ==> r == default
      ensures HasEphemeral(name) && VarOf(EntriesOf(Get(Ephemeral, Null)), name).Some? ==>
                Some(r) == VarOf(EntriesOf(Get(Ephemeral, Null)), name)
      ensures HasEphemeral(name) && VarOf(EntriesOf(Get(Ephemeral, Null)), name).None? ==> r == Null
    {
      var e := EntriesOf(Get(Ephemeral, Null));
      if !HasKey(e, name) then default
      else match VarOf(e, name) case Some(v) => v case None => Null
    }

    /** `hasEphemeral`: array_key_exists on the ephemeral array, which only a stored array can satisfy. */
    function HasEphemeral(name: string): (r: bool)
      reads this
      ensures r ==> Has(Ephemeral) && Get(Ephemeral, Null).Array?
    {
      HasKey(EntriesOf(Get(Ephemeral, Null)), name)
    }

    /** `clearEphemeral`: ages the ephemeral array and stores it back, creating it when missing. */
    method ClearEphemeral()
      modifies this
      ensures session == Put(old(session), Ephemeral, ClearedSlot(old(session)))
      ensures old(Valid()) ==> Valid()
    {
      var ephemeral := Array([]);
      if Has(Ephemeral) {
        ephemeral := Get(Ephemeral, Null);
        if ephemeral.Array? {
          var kept := AgeEntries(ephemeral.entries);
          ephemeral := Array(kept);
        }
      }
      Set(Ephemeral, ephemeral);
    }

    /** `setEphemeral`: the name's entry becomes active and holds the value. */
    method SetEphemeral(name: string, value: Value)
      modifies this
      ensures session == Put(old(session), Ephemeral,
                             Array(SetEntry(EntriesOf(GetOr(old(session), Ephemeral, Null)), name, value)))
      ensures HasEphemeral(name) && GetEphemeral(name, Null) == value
      ensures old(Valid()) ==> Valid()
    {
      var ephemeral := SetEntry(EntriesOf(Get(Ephemeral, Null)), name, value);
      Set(Ephemeral, Array(ephemeral));
    }
  }

  /** The flash rule on a session: set, one clear, read back; a second clear and the name is gone. */
  method FlashOnSession(s: Session, name: string, value: Value) returns (first: Value, second: bool)
    requires s.Valid()
    modifies s
    ensures first == value && !second
  {
    var before := EntriesOf(s.Get(Session.Ephemeral, Null));
    s.SetEphemeral(name, value);
    s.ClearEphemeral();
    first := s.GetEphemeral(name, Null);
    s.ClearEphemeral();
    second := s.HasEphemeral(name);
    SurvivesOneClear(before, name, value);
  }

  /**
   * The session over a Data bag (src/Http/Session.php): the ephemeral array
   * is read with the bag's `get`, which fails when the reserved key is not
   * set, and the entries are tested with `isset`.
   */
  class DataSession {
    const bag: Data

    static const Ephemeral: string := "eka-ephemeral"

    /** What clearEphemeral stores: the aged array; [] when the key is not set; any other value as it was. */
    static function ClearedSlot(d: Arr<Value>): (v: Value)
      ensures !Isset(d, Ephemeral) ==> v == Array([])
      ensures Isset(d, Ephemeral) && WellFormed(Lookup(d, Ephemeral).value) ==> WellFormed(v)
    {
      var slot := Lookup(d, Ephemeral);
      if slot.None? || slot.value == Null then Array([])
      else if slot.value.Array? then Array(Aged(slot.value.entries))
      else slot.value
    }

    /** The constructor copies the session array into the bag and clears once. */
    constructor (initial: Arr<Value>)
      ensures fresh(bag) && bag.data == Put(initial, Ephemeral, ClearedSlot(initial))
    {
      bag := new Data(initial);
      new;
      ClearEphemeral();
    }

    /** `set`: the bag's set (the copy into the PHP session global is not modelled). */
    method Set(name: string, value: Value)
      modifies bag
      ensures bag.data == Put(old(bag.data), name, value)
    {
      bag.Set(name, value);
    }

    /** The entries of the ephemeral array the bag holds, none when it holds no array. */
    function Slot(): Arr<Value>
      reads bag
    {
      EntriesOf(GetOr(bag.data, Ephemeral, Null))
    }

    /** `getEphemeral`: the entry's 'var' when it is set, otherwise null. */
    function GetEphemeral(name: string): (r: Result<Value>)
      reads bag
      ensures r.Err? <==> !bag.Has(Ephemeral)
      ensures r.Err? ==> r.error == KeyNotFound
      ensures r.Ok? && VarIsset(Slot(), name) ==> Some(r.value) == VarOf(Slot(), name) && r.value != Null
      ensures r.Ok? && !VarIsset(Slot(), name) ==> r.value == Null
    {
      match bag.Get(Some(Ephemeral), Null)
      case Err(e) => Err(e)
      case Ok(v) =>
        match VarOf(EntriesOf(v), name)
        case Some(x) => Ok(x)
        case None => Ok(Null)
    }

    /** `hasEphemeral`: isset on the entry. */
    function HasEphemeral(name: string): (r: Result<bool>)
      reads bag
      ensures r.Err? <==> !bag.Has(Ephemeral)
      ensures r.Err? ==> r.error == KeyNotFound
      ensures r.Ok? ==> (r.value <==> HasKey(Slot(), name) && GetOr(Slot(), name, Null) != Null)
    {
      match bag.Get(Some(Ephemeral), Null)
      case Err(e) => Err(e)
      case Ok(v) => Ok(Isset(EntriesOf(v), name))
    }

    /** `clearEphemeral`: ages the ephemeral array when the key is set, stores [] when it is not. */
    method ClearEphemeral()
      modifies bag
      ensures bag.data == Put(old(bag.data), Ephemeral, ClearedSlot(old(bag.data)))
    {
      var ephemeral := Array([]);
      if bag.Has(Ephemeral) {
        var got := bag.Get(Some(Ephemeral), Null);
        ephemeral := got.value;
        if ephemeral.Array? {
          var kept := AgeEntries(ephemeral.entries);
          ephemeral := Array(kept);
        }
      }
      Set(Ephemeral, ephemeral);
    }

    /** `setEphemeral`: fails like `get` when the key is not set; otherwise the entry becomes active with the value. */
    method SetEphemeral(name: string, value: Value) returns (r: Outcome)
      modifies bag
      ensures r.Fail? <==> !old(bag.Has(Ephemeral))
      ensures r.Fail? ==> r.error == KeyNotFound && bag.data == old(bag.data)
      ensures r.Done? ==> bag.data == Put(old(bag.data), Ephemeral,
                                          Array(SetEntry(EntriesOf(Lookup(old(bag.data), Ephemeral).value), name, value)))
      ensures r.Done? ==> HasEphemeral(name) == Ok(true) && (value != Null ==> GetEphemeral(name) == Ok(value))
    {
      var got := bag.Get(Some(Ephemeral), Null);
      if got.Err? {
        return Fail(got.error);
      }
      var ephemeral := SetEntry(EntriesOf(got.value), name, value);
      Set(Ephemeral, Array(ephemeral));
      assert Slot() == ephemeral;
      SetEntryReads(EntriesOf(got.value), name, value);
      return Done;
    }
  }

  /**
   * The flash rule over the bag's array: setEphemeral, a clear, a read, a
   * second clear. The key stays set throughout, so no step fails.
   */
  lemma DataFlash(d: Arr<Value>, name: string, value: Value)
    requires Isset(d, DataSession.Ephemeral) && WellFormed(Lookup(d, DataSession.Ephemeral).value)
    ensures var key := DataSession.Ephemeral;
            var entries := SetEntry(EntriesOf(Lookup(d, key).value), name, value);
            var d1 := Put(d, key, Array(entries));
            var d2 := Put(d1, key, DataSession.ClearedSlot(d1));
            var d3 := Put(d2, key, DataSession.ClearedSlot(d2));
            && Lookup(d2, key) == Some(Array(Aged(entries)))
            && Lookup(d3, key) == Some(Array(Aged(Aged(entries))))
            && VarOf(Aged(entries), name) == Some(value)
            && !Isset(Aged(Aged(entries)), name)
  {
    SurvivesOneClear(EntriesOf(Lookup(d, DataSession.Ephemeral).value), name, value);
  }
}
