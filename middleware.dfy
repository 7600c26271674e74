/**
 * The middleware chain (src/Server/RequestHandler.php): an ordered,
 * identity-keyed set of middleware objects in an `SplObjectStorage`, plus
 * the terminal response. Handling takes the first stored object; a
 * middleware is invoked with a copy of the handler that no longer holds it.
 *
 * A middleware is an object the model cannot see into, so each stored
 * object is an identity and one of three behaviours: it delegates to the
 * handler it is given and returns that answer, it answers with its own
 * response, or it is not a middleware at all.
 *
 * The storage's cursor never leaves the first live entry: the constructor
 * rewinds, a clone of the storage starts at its first entry, and detaching
 * the entry under the cursor moves it to the next one. So `current()` is
 * the first entry and `rewind()` changes nothing the model can observe.
 */
module Middleware {
  import opened Response

  datatype Kind = Delegate | Respond(response: Response) | NotMiddleware

  /** A stored object: its identity (`spl_object_id`) and what its `process` does. */
  datatype Entry = Entry(id: nat, kind: Kind)

  datatype Handler = Handler(response: Response, storage: seq<Entry>)

  predicate Listed(s: seq<Entry>, id: nat) {
    exists i :: 0 <= i < |s| && s[i].id == id
  }

  /** No object is stored twice. */
  predicate DistinctIds(s: seq<Entry>) {
    forall i, j :: 0 <= i < j < |s| ==> s[i].id != s[j].id
  }

  lemma DistinctIdsSnoc(s: seq<Entry>, e: Entry)
    requires !Listed(s, e.id)
    ensures DistinctIds(s) ==> DistinctIds(s + [e])
  {
    if DistinctIds(s) {
    forall i, j | 0 <= i < j < |s + [e]| ensures (s + [e])[i].id != (s + [e])[j].id {
      if j == |s| {
        assert (s + [e])[i] == s[i];
      }
    }
    }
  }

  lemma DistinctIdsCons(e: Entry, s: seq<Entry>)
    ensures DistinctIds(s) && !Listed(s, e.id) ==> DistinctIds([e] + s)
  {
    if DistinctIds(s) && !Listed(s, e.id) {
      forall i, j | 0 <= i < j < |[e] + s| ensures ([e] + s)[i].id != ([e] + s)[j].id {
        assert ([e] + s)[j] == s[j - 1];
      }
    }
  }

  /** The entries after the first of distinct entries are distinct and do not hold the first's object. */
  lemma DistinctIdsTail(s: seq<Entry>)
    requires s != []
    ensures DistinctIds(s) ==> DistinctIds(s[1..]) && !Listed(s[1..], s[0].id)
  {
    if DistinctIds(s) {
      forall i, j | 0 <= i < j < |s[1..]| ensures s[1..][i].id != s[1..][j].id {
        assert s[1..][i] == s[i + 1] && s[1..][j] == s[j + 1];
      }
      forall i | 0 <= i < |s[1..]| ensures s[1..][i].id != s[0].id {
        assert s[1..][i] == s[i + 1];
      }
    }
  }

  lemma ListedSnoc(s: seq<Entry>, e: Entry)
    ensures forall id :: Listed(s + [e], id) <==> Listed(s, id) || id == e.id
  {
    forall id | Listed(s + [e], id) && id != e.id ensures Listed(s, id) {
      var i :| 0 <= i < |s + [e]| && (s + [e])[i].id == id;
      assert (s + [e])[i] == s[i];
    }
    forall id | Listed(s, id) ensures Listed(s + [e], id) {
      var i :| 0 <= i < |s| && s[i].id == id;
      assert (s + [e])[i] == s[i];
    }
    assert (s + [e])[|s|] == e;
  }

  /** `SplObjectStorage::attach`: an object already stored keeps its place; a new one goes last. */
  function Attach(s: seq<Entry>, e: Entry): (r: seq<Entry>)
    ensures DistinctIds(s) ==> DistinctIds(r)
    ensures forall id :: Listed(r, id) <==> Listed(s, id) || id == e.id
    ensures forall x :: x in r ==> x in s || x == e
    ensures |s| <= |r| && r[..|s|] == s
  {
    if Listed(s, e.id) then s
    else
      DistinctIdsSnoc(s, e);
      ListedSnoc(s, e);
      assert (s + [e])[..|s|] == s;
      s + [e]
  }

  /** The storage the constructor's loop builds: every item attached in turn. */
  function Attached(items: seq<Entry>): (r: seq<Entry>)
    ensures DistinctIds(r)
    ensures forall id :: Listed(r, id) <==> Listed(items, id)
    ensures forall x :: x in r ==> x in items
    decreases |items|
  {
    if items == [] then []
    else
      var init := items[..|items| - 1];
      var r := Attach(Attached(init), items[|items| - 1]);
      assert items == init + [items[|items| - 1]];
      ListedSnoc(init, items[|items| - 1]);
      r
  }

  /** `new RequestHandler($response, $middleware)`: the attach loop, then a rewind. */
  method Create(response: Response, middleware: seq<Entry>) returns (h: Handler)
    ensures h == Handler(response, Attached(middleware))
  {
    var storage: seq<Entry> := [];
    var i := 0;
    while i < |middleware|
      invariant 0 <= i <= |middleware|
      invariant storage == Attached(middleware[..i])
    {
      assert middleware[..i + 1][..i] == middleware[..i];
      storage := Attach(storage, middleware[i]);
      i := i + 1;
    }
    assert middleware[..i] == middleware;
    h := Handler(response, storage);
  }

  /** `SplObjectStorage::detach`: the object's entry leaves, the others keep their order. */
  function Detach(s: seq<Entry>, id: nat): (r: seq<Entry>)
    ensures !Listed(r, id)
    ensures forall o :: o != id ==> (Listed(r, o) <==> Listed(s, o))
    ensures |r| <= |s| && (Listed(s, id) ==> |r| < |s|)
    ensures DistinctIds(s) ==> DistinctIds(r)
    decreases |s|
  {
    if s == [] then []
    else
      var rest := Detach(s[1..], id);
      assert forall o :: Listed(s, o) <==> o == s[0].id || Listed(s[1..], o) by {
        forall o | Listed(s, o) && o != s[0].id ensures Listed(s[1..], o) {
          var i :| 0 <= i < |s| && s[i].id == o;
          assert s[1..][i - 1] == s[i];
        }
        forall o | Listed(s[1..], o) ensures Listed(s, o) {
          var i :| 0 <= i < |s[1..]| && s[1..][i].id == o;
          assert s[i + 1] == s[1..][i];
        }
      }
      if s[0].id == id then
        rest
      else
        assert forall o :: Listed([s[0]] + rest, o) <==> o == s[0].id || Listed(rest, o) by {
          forall o | Listed([s[0]] + rest, o) && o != s[0].id ensures Listed(rest, o) {
            var i :| 0 <= i < |[s[0]] + rest| && ([s[0]] + rest)[i].id == o;
            assert rest[i - 1] == ([s[0]] + rest)[i];
          }
          forall o | Listed(rest, o) ensures Listed([s[0]] + rest, o) {
            var i :| 0 <= i < |rest| && rest[i].id == o;
            assert ([s[0]] + rest)[i + 1] == rest[i];
          }
          assert ([s[0]] + rest)[0] == s[0];
        }
        DistinctIdsTail(s);
        DistinctIdsCons(s[0], rest);
        [s[0]] + rest
  }

  /** Detaching keeps every other entry whole, with its kind, and keeps nothing else. */
  lemma {:induction false} DetachMembers(s: seq<Entry>, id: nat)
    ensures forall x :: x in Detach(s, id) ==> x in s && x.id != id
    ensures forall x :: x in s && x.id != id ==> x in Detach(s, id)
    decreases |s|
  {
    if s != [] {
      DetachMembers(s[1..], id);
      assert s == [s[0]] + s[1..];
    }
  }

  /** Detaching an object that is not stored leaves the storage as it is. */
  lemma {:induction false} DetachAbsent(s: seq<Entry>, id: nat)
    ensures !Listed(s, id) ==> Detach(s, id) == s
    decreases |s|
  {
    if s != [] && !Listed(s, id) {
      forall i | 0 <= i < |s[1..]| ensures s[1..][i].id != id {
        assert s[1..][i] == s[i + 1];
      }
      assert s[0].id != id;
      DetachAbsent(s[1..], id);
      assert [s[0]] + s[1..] == s;
    }
  }

  /** Detaching the first of distinct entries drops exactly that entry. */
  lemma DetachHead(s: seq<Entry>)
    requires s != [] && DistinctIds(s)
    ensures Detach(s, s[0].id) == s[1..]
  {
    DistinctIdsTail(s);
    DetachAbsent(s[1..], s[0].id);
  }

  /**
   * On a storage with no object twice, detaching the object at position k
   * removes exactly that entry: the rest keep their kinds and their order.
   */
  lemma {:induction false} DetachAt(s: seq<Entry>, k: nat)
    requires DistinctIds(s) && k < |s|
    ensures Detach(s, s[k].id) == s[..k] + s[k + 1..]
    decreases |s|
  {
    if k == 0 {
      DetachHead(s);
    } else {
      assert s[0].id != s[k].id;
      DistinctIdsTail(s);
      assert s[1..][k - 1] == s[k];
      DetachAt(s[1..], k - 1);
      assert s[1..][..k - 1] + s[1..][k..] == s[1..k] + s[k + 1..];
      assert [s[0]] + (s[1..k] + s[k + 1..]) == s[..k] + s[k + 1..];
    }
  }

  /** Detaching from a storage with one entry more at the end. */
  lemma {:induction false} DetachSnoc(s: seq<Entry>, e: Entry, id: nat)
    ensures Detach(s + [e], id) == if e.id == id then Detach(s, id) else Detach(s, id) + [e]
    decreases |s|
  {
    if s == [] {
      assert [] + [e] == [e];
      assert [e][1..] == [];
    } else {
      assert (s + [e])[0] == s[0] && (s + [e])[1..] == s[1..] + [e];
      DetachSnoc(s[1..], e, id);
      if s[0].id != id && e.id != id {
        assert [s[0]] + (Detach(s[1..], id) + [e]) == ([s[0]] + Detach(s[1..], id)) + [e];
      }
    }
  }

  lemma ListedCons(e: Entry, s: seq<Entry>)
    ensures forall id :: Listed([e] + s, id) <==> id == e.id || Listed(s, id)
  {
    forall id | Listed([e] + s, id) && id != e.id ensures Listed(s, id) {
      var i :| 0 <= i < |[e] + s| && ([e] + s)[i].id == id;
      assert ([e] + s)[i] == s[i - 1];
    }
    forall id | Listed(s, id) ensures Listed([e] + s, id) {
      var i :| 0 <= i < |s| && s[i].id == id;
      assert ([e] + s)[i + 1] == s[i];
    }
    assert ([e] + s)[0] == e;
  }

  /** Attaching behind a first entry of another object. */
  lemma AttachCons(a: Entry, s: seq<Entry>, e: Entry)
    requires e.id != a.id
    ensures Attach([a] + s, e) == [a] + Attach(s, e)
  {
    ListedCons(a, s);
    if !Listed(s, e.id) {
      assert [a] + s + [e] == [a] + (s + [e]);
    }
  }

  /** Attaching one object and detaching another commute. */
  lemma DetachAttach(s: seq<Entry>, e: Entry, id: nat)
    requires e.id != id
    ensures Detach(Attach(s, e), id) == Attach(Detach(s, id), e)
  {
    if !Listed(s, e.id) {
      DetachSnoc(s, e, id);
    }
  }

  /**
   * An independent account of the constructor's storage: each object once,
   * with the entry of its first occurrence, in the order of first occurrence.
   */
  function FirstOccurrences(items: seq<Entry>): seq<Entry>
    decreases |items|
  {
    if items == [] then [] else [items[0]] + Detach(FirstOccurrences(items[1..]), items[0].id)
  }

  lemma {:induction false} FirstOccurrencesSnoc(items: seq<Entry>, e: Entry)
    ensures FirstOccurrences(items + [e]) == Attach(FirstOccurrences(items), e)
    decreases |items|
  {
    if items == [] {
      assert [] + [e] == [e];
      assert [e][1..] == [];
    } else {
      var a, t := items[0], items[1..];
      assert (items + [e])[0] == a && (items + [e])[1..] == t + [e];
      FirstOccurrencesSnoc(t, e);
      var ft := FirstOccurrences(t);
      if e.id == a.id {
        if !Listed(ft, e.id) {
          DetachSnoc(ft, e, a.id);
        }
        assert Listed(FirstOccurrences(items), e.id) by {
          assert FirstOccurrences(items)[0] == a;
        }
      } else {
        DetachAttach(ft, e, a.id);
        AttachCons(a, Detach(ft, a.id), e);
      }
    }
  }

  /** The attach loop keeps the first entry of each object, in the order the objects first appear. */
  lemma {:induction false} AttachedIsFirstOccurrences(items: seq<Entry>)
    ensures Attached(items) == FirstOccurrences(items)
    decreases |items|
  {
    if items != [] {
      var init, last := items[..|items| - 1], items[|items| - 1];
      AttachedIsFirstOccurrences(init);
      FirstOccurrencesSnoc(init, last);
      assert init + [last] == items;
    }
  }

  lemma {:induction false} FirstOccurrencesDistinct(items: seq<Entry>)
    requires DistinctIds(items)
    ensures FirstOccurrences(items) == items
    decreases |items|
  {
    if items != [] {
      DistinctIdsTail(items);
      FirstOccurrencesDistinct(items[1..]);
      DetachAbsent(items[1..], items[0].id);
      assert [items[0]] + items[1..] == items;
    }
  }

  /** Middleware given once each is stored exactly as given, in the given order. */
  lemma AttachedDistinct(items: seq<Entry>)
    requires DistinctIds(items)
    ensures Attached(items) == items
  {
    AttachedIsFirstOccurrences(items);
    FirstOccurrencesDistinct(items);
  }

  /**
   * `withoutMiddleware`: a copy of the handler, and of its storage, with the
   * object detached and the storage rewound. `withMiddleware` runs the same
   * detach without the rewind, so it is this function too: despite its name
   * it removes the middleware it is given.
   */
  function WithoutMiddleware(h: Handler, id: nat): (r: Handler)
    ensures r.response == h.response
    ensures !Listed(r.storage, id)
    ensures forall o :: o != id ==> (Listed(r.storage, o) <==> Listed(h.storage, o))
    ensures forall x :: x in r.storage ==> x in h.storage && x.id != id
    ensures forall x :: x in h.storage && x.id != id ==> x in r.storage
    ensures !Listed(h.storage, id) ==> r == h
    ensures DistinctIds(h.storage) ==>
              forall k :: 0 <= k < |h.storage| && h.storage[k].id == id ==> r.storage == h.storage[..k] + h.storage[k + 1..]
  {
    DetachAbsent(h.storage, id);
    DetachMembers(h.storage, id);
    forall k | 0 <= k < |h.storage| && h.storage[k].id == id && DistinctIds(h.storage)
      ensures Detach(h.storage, id) == h.storage[..k] + h.storage[k + 1..]
    {
      DetachAt(h.storage, k);
    }
    h.(storage := Detach(h.storage, id))
  }

  /**
   * `handle`: the terminal response for an empty storage, otherwise
   * `process`. Whatever the chain does, the answer is the terminal response
   * or the response of one of the stored middleware.
   */
  function Handle(h: Handler): (r: Response)
    ensures r == h.response || exists e :: e in h.storage && e.kind == Respond(r)
    decreases |h.storage|, 1
  {
    if |h.storage| == 0 then h.response else Process(h)
  }

  /**
   * `process`: the first stored object; the terminal response when it is not
   * a middleware; otherwise its answer when given the handler without it.
   */
  function Process(h: Handler): (r: Response)
    requires h.storage != []
    ensures r == h.response || exists e :: e in h.storage && e.kind == Respond(r)
    decreases |h.storage|, 0
  {
    var head := h.storage[0];
    match head.kind
    case NotMiddleware => h.response
    case Respond(r) => r
    case Delegate =>
      assert Listed(h.storage, head.id);
      Handle(WithoutMiddleware(h, head.id))
  }

  /** The identities whose `process` one `handle` call invokes, in order. */
  function Invoked(h: Handler): (ids: seq<nat>)
    ensures |ids| <= |h.storage|
    ensures forall id :: id in ids ==> Listed(h.storage, id)
    decreases |h.storage|
  {
    if h.storage == [] then []
    else
      var head := h.storage[0];
      assert Listed(h.storage, head.id);
      match head.kind
      case NotMiddleware => []
      case Respond(_) => [head.id]
      case Delegate => [head.id] + Invoked(WithoutMiddleware(h, head.id))
  }

  /** The same outcome read straight off the stored order: the first entry that does not delegate decides. */
  function Decide(s: seq<Entry>, terminal: Response): Response {
    if s == [] then terminal
    else
      match s[0].kind
      case NotMiddleware => terminal
      case Respond(r) => r
      case Delegate => Decide(s[1..], terminal)
  }

  /** On a storage with no object twice, handling is Decide over the stored order. */
  lemma {:induction false} HandleDecides(h: Handler)
    requires DistinctIds(h.storage)
    ensures Handle(h) == Decide(h.storage, h.response)
    decreases |h.storage|
  {
    if h.storage != [] && h.storage[0].kind.Delegate? {
      DetachHead(h.storage);
      var next := WithoutMiddleware(h, h.storage[0].id);
      assert next.storage == h.storage[1..];
      HandleDecides(next);
    }
  }

  /** A delegating first middleware is invoked first, and never again further down the chain. */
  lemma InvokedStep(h: Handler)
    requires h.storage != [] && h.storage[0].kind.Delegate?
    ensures var next := WithoutMiddleware(h, h.storage[0].id);
            Invoked(h) == [h.storage[0].id] + Invoked(next) && h.storage[0].id !in Invoked(next)
  {
  }

  lemma UniqueCons(x: nat, ids: seq<nat>)
    requires x !in ids
    requires forall i, j :: 0 <= i < j < |ids| ==> ids[i] != ids[j]
    ensures forall i, j :: 0 <= i < j < |[x] + ids| ==> ([x] + ids)[i] != ([x] + ids)[j]
  {
    forall i, j | 0 <= i < j < |[x] + ids| ensures ([x] + ids)[i] != ([x] + ids)[j] {
      if i == 0 {
        assert ([x] + ids)[j] == ids[j - 1];
      } else {
        assert ([x] + ids)[i] == ids[i - 1] && ([x] + ids)[j] == ids[j - 1];
      }
    }
  }

  /** Each invoked middleware is invoked once: no identity occurs twice in the trace. */
  lemma {:induction false} InvokedOnce(h: Handler)
    ensures forall i, j :: 0 <= i < j < |Invoked(h)| ==> Invoked(h)[i] != Invoked(h)[j]
    decreases |h.storage|
  {
    if h.storage != [] && h.storage[0].kind.Delegate? {
      var head := h.storage[0];
      var next := WithoutMiddleware(h, head.id);
      InvokedOnce(next);
      InvokedStep(h);
      UniqueCons(head.id, Invoked(next));
    }
  }

  /** A handler whose every middleware delegates answers with its terminal response. */
  lemma {:induction false} AllDelegateIsTerminal(s: seq<Entry>, terminal: Response)
    requires forall i :: 0 <= i < |s| ==> s[i].kind == Delegate
    ensures Decide(s, terminal) == terminal
    decreases |s|
  {
    if s != [] {
      AllDelegateIsTerminal(s[1..], terminal);
    }
  }

  /** So a handler built from delegating middleware answers with its response, and invokes them all. */
  lemma AllDelegateHandle(response: Response, items: seq<Entry>)
    requires forall i :: 0 <= i < |items| ==> items[i].kind == Delegate
    ensures Handle(Handler(response, Attached(items))) == response
  {
    var s := Attached(items);
    forall i | 0 <= i < |s| ensures s[i].kind == Delegate {
      assert s[i] in items;
    }
    HandleDecides(Handler(response, s));
    AllDelegateIsTerminal(s, response);
  }

  /** A first object that is not a middleware ends handling at once: nothing is invoked. */
  lemma NonMiddlewareHead(h: Handler)
    requires h.storage != [] && h.storage[0].kind == NotMiddleware
    ensures Handle(h) == h.response && Invoked(h) == []
  {
  }

  /** Attaching the same object twice keeps one entry. */
  lemma AttachTwiceKeepsOne(e: Entry)
    ensures Attached([e, e]) == [e]
  {
    assert [e][..0] == [];
    assert Attached([e]) == [e];
    assert [e, e][..1] == [e];
    assert Listed([e], e.id) by { assert [e][0].id == e.id; }
  }

  /**
   * `withMiddleware` as its name promises: a copy of the handler with the
   * middleware attached behind the ones it holds.
   */
  function WithMiddlewareAttached(h: Handler, e: Entry): (r: Handler)
    ensures r.response == h.response
    ensures forall id :: Listed(r.storage, id) <==> Listed(h.storage, id) || id == e.id
    ensures |h.storage| <= |r.storage| && r.storage[..|h.storage|] == h.storage
    ensures DistinctIds(h.storage) ==> DistinctIds(r.storage)
  {
    h.(storage := Attach(h.storage, e))
  }

  /** Behind delegating middleware, the first entry that does not delegate decides. */
  lemma {:induction false} DecideAfterDelegates(s: seq<Entry>, rest: seq<Entry>, terminal: Response)
    requires forall i :: 0 <= i < |s| ==> s[i].kind == Delegate
    ensures Decide(s + rest, terminal) == Decide(rest, terminal)
    decreases |s|
  {
    if s != [] {
      assert (s + rest)[0] == s[0] && (s + rest)[1..] == s[1..] + rest;
      assert s[0].kind == Delegate;
      assert Decide(s + rest, terminal) == Decide(s[1..] + rest, terminal);
      DecideAfterDelegates(s[1..], rest, terminal);
    } else {
      assert s + rest == rest;
    }
  }

  /**
   * So a responding middleware added to a chain of delegating ones is
   * reached, and its response is the answer.
   */
  lemma WithMiddlewareAttachedAnswers(h: Handler, e: Entry)
    requires DistinctIds(h.storage) && !Listed(h.storage, e.id) && e.kind.Respond?
    requires forall i :: 0 <= i < |h.storage| ==> h.storage[i].kind == Delegate
    ensures Handle(WithMiddlewareAttached(h, e)) == e.kind.response
  {
    var r := WithMiddlewareAttached(h, e);
    assert r.storage == h.storage + [e];
    HandleDecides(r);
    DecideAfterDelegates(h.storage, [e], h.response);
  }

  /** `withMiddleware(m)` on a handler holding m leaves a handler that no longer holds it. */
  lemma WithMiddlewareRemoves(h: Handler, id: nat)
    requires Listed(h.storage, id)
    ensures !Listed(WithoutMiddleware(h, id).storage, id)
    ensures |WithoutMiddleware(h, id).storage| < |h.storage|
  {
  }
}
