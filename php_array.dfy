/**
 * PHP arrays with string keys: insertion-ordered maps. An array is a sequence
 * of (key, value) entries; assigning to a present key keeps its position,
 * assigning to a new key appends, `unset` removes, and `$a + $b` keeps every
 * entry of `$a` and appends the entries of `$b` whose key `$a` lacks.
 */
module PhpArray {
  import opened Wrappers

  type Arr<V> = seq<(string, V)>

  /** A PHP value as the bags hold one: `null`, a scalar, or an array of values. */
  datatype Value = Null | Bool(b: bool) | Int(i: int) | Str(s: string) | Array(entries: seq<(string, Value)>)

  /** The keys, in insertion order (`array_keys`). */
  function Keys<V>(a: Arr<V>): seq<string> {
    seq(|a|, i requires 0 <= i < |a| => a[i].0)
  }

  /** A well-formed PHP array holds each key once. */
  predicate Distinct<V>(a: Arr<V>) {
    forall i, j :: 0 <= i < j < |a| ==> a[i].0 != a[j].0
  }

  /** `array_key_exists($k, $a)`. */
  predicate HasKey<V>(a: Arr<V>, k: string) {
    exists i :: 0 <= i < |a| && a[i].0 == k
  }

  /** `$a[$k]` when the key exists, None otherwise. */
  function Lookup<V>(a: Arr<V>, k: string): (r: Option<V>)
    ensures r.Some? <==> HasKey(a, k)
  {
    if a == [] then None
    else if a[0].0 == k then Some(a[0].1)
    else
      var r := Lookup(a[1..], k);
      assert HasKey(a, k) ==> HasKey(a[1..], k) by {
        if HasKey(a, k) {
          var i :| 0 <= i < |a| && a[i].0 == k;
          assert a[1..][i - 1].0 == k;
        }
      }
      r
  }

  /** `$a[$k] = $v`. */
  function Put<V>(a: Arr<V>, k: string, v: V): (r: Arr<V>)
    ensures |r| == if HasKey(a, k) then |a| else |a| + 1
    ensures forall i :: 0 <= i < |a| ==> r[i].0 == a[i].0
    ensures !HasKey(a, k) ==> r[|a|] == (k, v)
    ensures Lookup(r, k) == Some(v)
    ensures forall k' :: k' != k ==> Lookup(r, k') == Lookup(a, k')
  {
    if a == [] then [(k, v)]
    else if a[0].0 == k then [(k, v)] + a[1..]
    else
      var r := [a[0]] + Put(a[1..], k, v);
      assert r[1..] == Put(a[1..], k, v);
      assert HasKey(a, k) <==> HasKey(a[1..], k) by {
        if HasKey(a, k) {
          var i :| 0 <= i < |a| && a[i].0 == k;
          assert a[1..][i - 1].0 == k;
        }
      }
      r
  }

  /** `unset($a[$k])`: nothing happens when the key is absent. */
  function Unset<V>(a: Arr<V>, k: string): (r: Arr<V>)
    ensures !HasKey(r, k)
    ensures forall k' :: k' != k ==> Lookup(r, k') == Lookup(a, k')
    ensures !HasKey(a, k) ==> r == a
  {
    if a == [] then []
    else if a[0].0 == k then Unset(a[1..], k)
    else
      var r := [a[0]] + Unset(a[1..], k);
      assert r[1..] == Unset(a[1..], k);
      assert !HasKey(a, k) ==> !HasKey(a[1..], k) by {
        if HasKey(a[1..], k) {
          var i :| 0 <= i < |a[1..]| && a[1..][i].0 == k;
          assert a[i + 1].0 == k;
        }
      }
      r
  }

  /** `$a + $b`: the left operand's entries and order win. */
  function Union<V>(a: Arr<V>, b: Arr<V>): (r: Arr<V>)
    ensures |r| >= |a| && r[..|a|] == a
    ensures forall k :: Lookup(r, k) == if HasKey(a, k) then Lookup(a, k) else Lookup(b, k)
    decreases |b|
  {
    if b == [] then a
    else
      var a' := if HasKey(a, b[0].0) then a else a + [b[0]];
      LookupAppend(a, b[0]);
      var r := Union(a', b[1..]);
      assert r[..|a|] == r[..|a'|][..|a|];
      assert forall k :: Lookup(r, k) == if HasKey(a, k) then Lookup(a, k) else Lookup(b, k) by {
        forall k ensures Lookup(r, k) == if HasKey(a, k) then Lookup(a, k) else Lookup(b, k) {
          if HasKey(a, k) {
            var i :| 0 <= i < |a| && a[i].0 == k;
            assert a'[i].0 == k;
            assert Lookup(a', k) == Lookup(a, k);
          } else if k == b[0].0 {
            assert a'[|a'| - 1].0 == k;
            assert Lookup(a', k) == Some(b[0].1);
          } else {
            assert !HasKey(a', k);
          }
        }
      }
      r
  }

  /** Appending an entry does not hide an existing key. */
  lemma {:induction false} LookupAppend<V>(a: Arr<V>, e: (string, V))
    ensures forall k {:trigger Lookup(a + [e], k)} ::
      (Lookup(a + [e], k) == if HasKey(a, k) then Lookup(a, k) else if k == e.0 then Some(e.1) else None)
  {
    if a != [] {
      LookupAppend(a[1..], e);
      assert (a + [e])[1..] == a[1..] + [e];
    }
  }

  /** Assignment keeps the key order; a new key goes last. */
  lemma KeysAppend<V>(a: Arr<V>, e: (string, V))
    ensures Keys(a + [e]) == Keys(a) + [e.0]
  {
    var l, r := Keys(a + [e]), Keys(a) + [e.0];
    assert |l| == |r|;
    forall i | 0 <= i < |l| ensures l[i] == r[i] {
      if i < |a| {
        assert (a + [e])[i] == a[i];
      }
    }
  }

  lemma KeysCons<V>(e: (string, V), t: Arr<V>)
    ensures Keys([e] + t) == [e.0] + Keys(t)
  {
    var l, r := Keys([e] + t), [e.0] + Keys(t);
    assert |l| == |r|;
    forall i | 0 <= i < |l| ensures l[i] == r[i] {
      if i > 0 {
        assert ([e] + t)[i] == t[i - 1];
      }
    }
  }

  lemma {:induction false} KeysPut<V>(a: Arr<V>, k: string, v: V)
    ensures Keys(Put(a, k, v)) == if HasKey(a, k) then Keys(a) else Keys(a) + [k]
    decreases |a|
  {
    if a == [] {
      assert Keys([(k, v)]) == [k];
    } else {
      assert a == [a[0]] + a[1..];
      KeysCons(a[0], a[1..]);
      if a[0].0 == k {
        KeysCons((k, v), a[1..]);
      } else {
        KeysPut(a[1..], k, v);
        KeysCons(a[0], Put(a[1..], k, v));
        assert HasKey(a, k) <==> HasKey(a[1..], k) by {
          if HasKey(a, k) {
            var i :| 0 <= i < |a| && a[i].0 == k;
            assert a[1..][i - 1].0 == k;
          }
        }
      }
    }
  }

  /** Assignment keeps an array well formed. */
  lemma {:induction false} PutDistinct<V>(a: Arr<V>, k: string, v: V)
    requires Distinct(a)
    ensures Distinct(Put(a, k, v))
  {
    KeysPut(a, k, v);
    var r := Put(a, k, v);
    forall i, j | 0 <= i < j < |r| ensures r[i].0 != r[j].0 {
      assert Keys(r)[i] == r[i].0 && Keys(r)[j] == r[j].0;
      if j < |a| {
        assert Keys(a)[i] == a[i].0 && Keys(a)[j] == a[j].0;
      } else {
        assert Keys(a)[i] == a[i].0;
      }
    }
  }

  /** The entries of `a` whose key `acc` lacks, in order. */
  function Without<V>(a: Arr<V>, acc: Arr<V>): (r: Arr<V>)
    ensures |r| <= |a|
  {
    if a == [] then []
    else if HasKey(acc, a[0].0) then Without(a[1..], acc)
    else [a[0]] + Without(a[1..], acc)
  }

  /** Adding a key that `a` does not hold to the filter changes nothing. */
  lemma {:induction false} WithoutExtend<V>(a: Arr<V>, acc: Arr<V>, e: (string, V))
    requires !HasKey(a, e.0)
    ensures Without(a, acc + [e]) == Without(a, acc)
  {
    if a != [] {
      assert a[0].0 != e.0;
      assert HasKey(acc + [e], a[0].0) <==> HasKey(acc, a[0].0) by {
        if HasKey(acc + [e], a[0].0) {
          var i :| 0 <= i < |acc + [e]| && (acc + [e])[i].0 == a[0].0;
          assert i < |acc|;
          assert acc[i].0 == a[0].0;
        }
        if HasKey(acc, a[0].0) {
          var i :| 0 <= i < |acc| && acc[i].0 == a[0].0;
          assert (acc + [e])[i].0 == a[0].0;
        }
      }
      WithoutExtend(a[1..], acc, e);
    }
  }

  /** On a well-formed right operand, `$acc + $a` appends exactly the entries `$acc` lacks. */
  lemma {:induction false} UnionIsAppendWithout<V>(acc: Arr<V>, a: Arr<V>)
    requires Distinct(a)
    ensures Union(acc, a) == acc + Without(a, acc)
    decreases |a|
  {
    if a != [] {
      DistinctTail(a);
      if HasKey(acc, a[0].0) {
        assert Union(acc, a) == Union(acc, a[1..]);
        UnionIsAppendWithout(acc, a[1..]);
      } else {
        var acc' := acc + [a[0]];
        assert Union(acc, a) == Union(acc', a[1..]);
        UnionIsAppendWithout(acc', a[1..]);
        WithoutExtend(a[1..], acc, a[0]);
        assert Without(a, acc) == [a[0]] + Without(a[1..], acc);
        AppendAssoc(acc, a[0], Without(a[1..], acc));
      }
    }
  }

  lemma AppendAssoc<T>(x: seq<T>, e: T, w: seq<T>)
    ensures (x + [e]) + w == x + ([e] + w)
  {
  }

  /** A non-empty list is its front followed by its last element, after any prefix. */
  lemma SnocSplit<T>(g: seq<T>, s: seq<T>)
    requires s != []
    ensures (g + s[..|s| - 1]) + [s[|s| - 1]] == g + s
  {
    assert s[..|s| - 1] + [s[|s| - 1]] == s;
  }

  /** The tail of a well-formed array is well formed and lacks the head's key. */
  lemma DistinctTail<V>(a: Arr<V>)
    requires Distinct(a) && a != []
    ensures Distinct(a[1..]) && !HasKey(a[1..], a[0].0)
  {
    assert forall i :: 0 <= i < |a[1..]| ==> a[1..][i] == a[i + 1];
  }

  /** Filtering against a one-entry array is `unset` of its key. */
  lemma {:induction false} WithoutSingleton<V>(a: Arr<V>, k: string, v: V)
    ensures Without(a, [(k, v)]) == Unset(a, k)
  {
    if a != [] {
      assert HasKey([(k, v)], a[0].0) <==> a[0].0 == k by {
        if a[0].0 == k {
          assert [(k, v)][0].0 == a[0].0;
        }
      }
      WithoutSingleton(a[1..], k, v);
    }
  }

  /** `[$k => $v] + $a` puts `$k` first and drops the entry `$a` had under `$k`. */
  lemma PrependUnion<V>(k: string, v: V, a: Arr<V>)
    requires Distinct(a)
    ensures Union([(k, v)], a) == [(k, v)] + Unset(a, k)
  {
    UnionIsAppendWithout([(k, v)], a);
    WithoutSingleton(a, k, v);
  }

  /** `$a + [$k => $v]`: the entry goes last, unless the key is already present. */
  lemma UnionSingleton<V>(a: Arr<V>, e: (string, V))
    ensures Union(a, [e]) == if HasKey(a, e.0) then a else a + [e]
  {
    assert [e][1..] == [];
  }

  /** `$a[$k] ?? $d`. */
  function GetOr<V>(a: Arr<V>, k: string, d: V): (r: V)
    ensures HasKey(a, k) ==> Some(r) == Lookup(a, k)
    ensures !HasKey(a, k) ==> r == d
  {
    match Lookup(a, k)
    case Some(v) => v
    case None => d
  }

  /** A second assignment to the same key replaces the first and keeps its position. */
  lemma {:induction false} PutPut<V>(a: Arr<V>, k: string, x: V, y: V)
    ensures Put(Put(a, k, x), k, y) == Put(a, k, y)
  {
    if a != [] && a[0].0 != k {
      PutPut(a[1..], k, x, y);
      assert Put(a, k, x)[1..] == Put(a[1..], k, x);
    }
  }

  /** Assigning the value a key already holds changes nothing. */
  lemma {:induction false} PutSame<V>(a: Arr<V>, k: string)
    requires HasKey(a, k)
    ensures Put(a, k, Lookup(a, k).value) == a
  {
    if a[0].0 != k {
      assert HasKey(a[1..], k) by {
        var i :| 0 <= i < |a| && a[i].0 == k;
        assert a[1..][i - 1].0 == k;
      }
      PutSame(a[1..], k);
    }
  }

  /** An entry whose key the array lacks can go in front of it. */
  lemma DistinctCons<V>(e: (string, V), t: Arr<V>)
    requires Distinct(t) && !HasKey(t, e.0)
    ensures Distinct([e] + t)
  {
    var r := [e] + t;
    forall i, j | 0 <= i < j < |r| ensures r[i].0 != r[j].0 {
      assert r[j] == t[j - 1];
      if i > 0 {
        assert r[i] == t[i - 1];
      }
    }
  }

  /** A key the array lacks is appended at the end. */
  lemma PutNewKey<V>(a: Arr<V>, k: string, v: V)
    requires !HasKey(a, k)
    ensures Put(a, k, v) == a + [(k, v)]
  {
    var r := Put(a, k, v);
    assert forall i :: 0 <= i < |a| ==> r[i] == a[i] by {
      forall i | 0 <= i < |a| ensures r[i] == a[i] {
        PutKeepsOthers(a, k, v, i);
      }
    }
  }

  /** Entries under other keys keep their values and positions. */
  lemma {:induction false} PutKeepsOthers<V>(a: Arr<V>, k: string, v: V, i: int)
    requires 0 <= i < |a| && a[i].0 != k
    ensures Put(a, k, v)[i] == a[i]
  {
    if i > 0 && a[0].0 != k {
      PutKeepsOthers(a[1..], k, v, i - 1);
    }
  }

  /** `unset` keeps an array well formed. */
  lemma {:induction false} UnsetDistinct<V>(a: Arr<V>, k: string)
    requires Distinct(a)
    ensures Distinct(Unset(a, k))
  {
    if a != [] {
      DistinctTail(a);
      UnsetDistinct(a[1..], k);
      if a[0].0 != k {
        var t := Unset(a[1..], k);
        assert !HasKey(t, a[0].0) by {
          assert Lookup(t, a[0].0) == Lookup(a[1..], a[0].0);
        }
        DistinctCons(a[0], t);
      }
    }
  }
}
