/**
 * Properties of the event bus: what `listen` does to the order of the list,
 * what `send` dispatches on an ordered list, and why a caller-held cache
 * never changes what `send` dispatches.
 */
module BusProperties {
  import opened Base
  import opened MessageBus

  // ---------------------------------------------------------------------
  // Registration
  // ---------------------------------------------------------------------

  /** The first registration on a new bus yields exactly that listener at sequence number 1. */
  lemma FirstListen(id: int, value: int, cb: Callback, w: Wildcards)
    ensures Listen(EmptyBus, id, value, cb, w) == Bus([Listener(id, value, cb)], 1)
  {
  }

  /** Registering the same (id, value, handler) twice is the same as registering it once. */
  lemma ListenIdempotent(b: Bus, id: int, value: int, cb: Callback, w: Wildcards)
    ensures Listen(Listen(b, id, value, cb, w), id, value, cb, w) == Listen(b, id, value, cb, w)
  {
  }

  /**
   * The ordering the insertion scan keeps: on a sorted list, linking the new
   * listener in after the as-written insertion prefix gives a sorted list if
   * and only if no listener with a smaller id has a larger value.
   */
  lemma {:induction false} SpliceSortedIff(ls: seq<Listener>, id: int, value: int, cb: Callback)
    requires Sorted(ls)
    ensures Sorted(Splice(ls, InsertPoint(ls, id, value), Listener(id, value, cb)))
        <==> SmallerIdsBelow(ls, id, value)
  {
    var n := Listener(id, value, cb);
    var k := InsertPoint(ls, id, value);
    var r := Splice(ls, k, n);
    if SmallerIdsBelow(ls, id, value) {
      forall i, j | 0 <= i < j < |r|
        ensures LexLe(r[i], r[j])
      {
        if j < k {
        } else if j == k {
        } else if i < k {
          assert LexLe(ls[i], ls[j - 1]);
        } else if i == k {
          var m := j - 1;
          assert LexLe(ls[k], ls[m]);
        } else {
          assert LexLe(ls[i - 1], ls[j - 1]);
        }
      }
    }
    if Sorted(r) {
      forall m | 0 <= m < |ls| && ls[m].id < id
        ensures ls[m].value <= value
      {
        if m >= k {
          assert LexLe(r[k], r[m + 1]);
        }
      }
    }
  }

  /**
   * The as-written `listen`, on a sorted list, when the insertion prefix is
   * non-empty: the result is sorted exactly when every listener with a
   * smaller id has a value no larger than the new one.
   */
  lemma ListenSortedIff(b: Bus, id: int, value: int, cb: Callback, w: Wildcards)
    requires Sorted(b.listeners)
    requires !AlreadyListening(b.listeners, id, value, cb, w)
    requires InsertPoint(b.listeners, id, value) > 0
    ensures Sorted(Listen(b, id, value, cb, w).listeners) <==> SmallerIdsBelow(b.listeners, id, value)
  {
    var n := Listener(id, value, cb);
    var k := InsertPoint(b.listeners, id, value);
    assert Listen(b, id, value, cb, w).listeners == Splice(b.listeners, k, n);
    SpliceSortedIff(b.listeners, id, value, cb);
  }

  /** With the head case corrected the same condition decides the order, whatever the insertion point. */
  lemma ListenLinkedSortedIff(b: Bus, id: int, value: int, cb: Callback, w: Wildcards)
    requires Sorted(b.listeners)
    requires !AlreadyListening(b.listeners, id, value, cb, w)
    ensures Sorted(ListenLinked(b, id, value, cb, w).listeners) <==> SmallerIdsBelow(b.listeners, id, value)
  {
    SpliceSortedIff(b.listeners, id, value, cb);
  }

  /** The wildcards the concrete examples use: both ANY constants are 0. */
  const ZeroWildcards: Wildcards := Wildcards(0, 0)

  /**
   * Registering (1,1), (1,10) and (2,5) through the as-written `listen`
   * leaves (2,5) between the two id-1 listeners: the list is not ordered.
   */
  lemma ListenOrderCounterexample()
    ensures var b1 := Listen(EmptyBus, 1, 1, 100, ZeroWildcards);
      var b2 := Listen(b1, 1, 10, 200, ZeroWildcards);
      var b3 := Listen(b2, 2, 5, 300, ZeroWildcards);
      && b3.listeners == [Listener(1, 1, 100), Listener(2, 5, 300), Listener(1, 10, 200)]
      && !Sorted(b3.listeners)
  {
    var w := ZeroWildcards;
    var b1 := Listen(EmptyBus, 1, 1, 100, w);
    var b2 := Listen(b1, 1, 10, 200, w);
    TwoListenersInOrder();
    ThirdListenerBetween(b2);
    var ls := [Listener(1, 1, 100), Listener(2, 5, 300), Listener(1, 10, 200)];
    assert !LexLe(ls[1], ls[2]);
  }

  /** The third registration of the counterexample lands between the first two. */
  lemma ThirdListenerBetween(b: Bus)
    requires b.listeners == [Listener(1, 1, 100), Listener(1, 10, 200)]
    ensures Listen(b, 2, 5, 300, ZeroWildcards).listeners
      == [Listener(1, 1, 100), Listener(2, 5, 300), Listener(1, 10, 200)]
  {
    assert !AlreadyListening(b.listeners, 2, 5, 300, ZeroWildcards);
    assert InsertPoint(b.listeners, 2, 5) == 1;
  }

  /** The first two registrations of the counterexample land in order. */
  lemma TwoListenersInOrder()
    ensures var b1 := Listen(EmptyBus, 1, 1, 100, ZeroWildcards);
      Listen(b1, 1, 10, 200, ZeroWildcards).listeners == [Listener(1, 1, 100), Listener(1, 10, 200)]
  {
    var w := ZeroWildcards;
    var b1 := Listen(EmptyBus, 1, 1, 100, w);
    assert b1.listeners == [Listener(1, 1, 100)];
    assert !AlreadyListening(b1.listeners, 1, 10, 200, w);
    assert InsertPoint(b1.listeners, 1, 10) == 1;
  }

  /**
   * On that list an event (1, 10) reaches nobody, although a listener is
   * registered for exactly that source and value: the source loop stops at
   * the (2,5) listener before it reaches (1,10).
   */
  lemma MisorderedDispatchCounterexample()
    ensures var b := Bus([Listener(1, 1, 100), Listener(2, 5, 300), Listener(1, 10, 200)], 3);
      && SendEvent(b, Event(1, 10), ZeroWildcards) == []
      && Matching(b.listeners, 1, 10, ZeroWildcards) == [200]
  {
    var ls := [Listener(1, 1, 100), Listener(2, 5, 300), Listener(1, 10, 200)];
    var w := ZeroWildcards;
    assert HeadScan(ls, 1) == 0;
    assert SourceWalk(ls, Event(1, 10), w) == [];
    assert AnyWalk(ls, w) == [];
    assert ls[1..][1..] == [Listener(1, 10, 200)];
  }

  /**
   * Registering (5, 7, A) and then (5, ANY, B) through the as-written
   * `listen` keeps only B: the second registration has an empty insertion
   * prefix and replaces the list head. An event (5, 7) then reaches only B.
   */
  lemma HeadInsertDropsListener()
    ensures var b1 := Listen(EmptyBus, 5, 7, 100, ZeroWildcards);
      var b2 := Listen(b1, 5, 0, 200, ZeroWildcards);
      && b2.listeners == [Listener(5, 0, 200)]
      && b2.version == 2
      && SendEvent(b2, Event(5, 7), ZeroWildcards) == [200]
  {
    var w := ZeroWildcards;
    var b1 := Listen(EmptyBus, 5, 7, 100, w);
    assert b1.listeners == [Listener(5, 7, 100)];
    assert !AlreadyListening(b1.listeners, 5, 0, 200, w);
    assert InsertPoint(b1.listeners, 5, 0) == 0;
  }

  /** The as-written head case loses every listener already registered. */
  lemma HeadInsertLosesAll(b: Bus, id: int, value: int, cb: Callback, w: Wildcards)
    requires !AlreadyListening(b.listeners, id, value, cb, w)
    requires InsertPoint(b.listeners, id, value) == 0
    ensures forall l :: l in b.listeners && l != Listener(id, value, cb) ==>
      l !in Listen(b, id, value, cb, w).listeners
  {
  }

  /** With the head case corrected, a registration never loses a listener. */
  lemma ListenLinkedKeepsAll(b: Bus, id: int, value: int, cb: Callback, w: Wildcards)
    ensures forall l :: l in b.listeners ==> l in ListenLinked(b, id, value, cb, w).listeners
  {
    var r := ListenLinked(b, id, value, cb, w);
    forall l | l in b.listeners
      ensures l in r.listeners
    {
      assert multiset(b.listeners)[l] > 0;
      assert multiset(r.listeners)[l] > 0;
    }
  }

  // ---------------------------------------------------------------------
  // Registries built by corrected registrations
  // ---------------------------------------------------------------------

  /** One `listen` call. */
  datatype Registration = Registration(id: int, value: int, cb: Callback)

  /** The bus after the corrected registrations `rs`, in order. */
  function RegisterAll(b: Bus, rs: seq<Registration>, w: Wildcards): Bus
    decreases |rs|
  {
    if |rs| == 0 then b
    else RegisterAll(ListenSorted(b, rs[0].id, rs[0].value, rs[0].cb, w), rs[1..], w)
  }

  /**
   * Any sequence of corrected registrations on a new bus yields a sorted
   * list whose ANY-source listeners come first (when no id is below the ANY
   * id), with one sequence-number step per listener added.
   */
  lemma {:induction false} RegisterAllSorted(b: Bus, rs: seq<Registration>, w: Wildcards)
    requires Sorted(b.listeners) && AnyFirst(b.listeners, w)
    requires |b.listeners| == b.version
    requires forall i :: 0 <= i < |rs| ==> w.idAny <= rs[i].id
    ensures var r := RegisterAll(b, rs, w);
      Sorted(r.listeners) && AnyFirst(r.listeners, w) && |r.listeners| == r.version
    decreases |rs|
  {
    if |rs| > 0 {
      ListenSortedKeepsShape(b, rs[0], w);
      var b' := ListenSorted(b, rs[0].id, rs[0].value, rs[0].cb, w);
      RegisterAllSorted(b', rs[1..], w);
    }
  }

  /** One corrected `listen` keeps the list sorted, ANY-first, and one sequence-number step per listener. */
  lemma ListenSortedKeepsShape(b: Bus, r: Registration, w: Wildcards)
    requires Sorted(b.listeners) && AnyFirst(b.listeners, w)
    requires |b.listeners| == b.version
    requires w.idAny <= r.id
    ensures var b' := ListenSorted(b, r.id, r.value, r.cb, w);
      Sorted(b'.listeners) && AnyFirst(b'.listeners, w) && |b'.listeners| == b'.version
  {
    var b' := ListenSorted(b, r.id, r.value, r.cb, w);
    if !AlreadyListening(b.listeners, r.id, r.value, r.cb, w) {
      assert |b'.listeners| == |b.listeners| + 1 by {
        assert |multiset(b'.listeners)| == |multiset(b.listeners)| + 1;
      }
      forall i | 0 <= i < |b'.listeners|
        ensures w.idAny <= b'.listeners[i].id
      {
        var l := b'.listeners[i];
        assert l in multiset(b'.listeners);
        assert l in multiset(b.listeners) || l == Listener(r.id, r.value, r.cb);
      }
    }
  }

  // ---------------------------------------------------------------------
  // Dispatch
  // ---------------------------------------------------------------------

  /** No listener with id `source` means nothing matches. */
  lemma {:induction false} NoSourceNoMatch(ls: seq<Listener>, source: int, value: int, w: Wildcards)
    requires forall i :: 0 <= i < |ls| ==> ls[i].id != source
    ensures Matching(ls, source, value, w) == []
    ensures WithId(ls, source) == []
  {
    if |ls| > 0 {
      NoSourceNoMatch(ls[1..], source, value, w);
    }
  }

  /** On a sorted list the source loop, started at the head-scan position, spawns every matching listener. */
  lemma {:induction false} SourceLoopComplete(ls: seq<Listener>, ev: Event, w: Wildcards)
    requires Sorted(ls)
    ensures SourceWalk(From(ls, HeadScan(ls, ev.source)), ev, w) == Matching(ls, ev.source, ev.value, w)
  {
    if |ls| == 0 {
    } else if ls[0].id == ev.source {
      assert From(ls, 0) == ls;
      var tail := ls[1..];
      if |tail| > 0 && tail[0].id == ev.source {
        assert From(tail, 0) == tail;
        SourceLoopComplete(tail, ev, w);
      } else {
        forall i | 0 <= i < |tail|
          ensures tail[i].id != ev.source
        {
          assert LexLe(ls[1], ls[i + 1]);
        }
        NoSourceNoMatch(tail, ev.source, ev.value, w);
      }
    } else {
      var tail := ls[1..];
      assert From(ls, HeadScan(ls, ev.source)) == From(tail, HeadScan(tail, ev.source));
      SourceLoopComplete(tail, ev, w);
    }
  }

  /** On a sorted list whose ANY-source listeners come first, the wildcard loop spawns every one of them. */
  lemma {:induction false} AnyLoopComplete(ls: seq<Listener>, w: Wildcards)
    requires Sorted(ls) && AnyFirst(ls, w)
    ensures AnyWalk(ls, w) == WithId(ls, w.idAny)
  {
    if |ls| == 0 {
    } else if ls[0].id == w.idAny {
      AnyLoopComplete(ls[1..], w);
    } else {
      forall i | 0 <= i < |ls|
        ensures ls[i].id != w.idAny
      {
        if i > 0 {
          assert LexLe(ls[0], ls[i]);
        }
      }
      NoSourceNoMatch(ls, w.idAny, 0, w);
    }
  }

  /**
   * On a sorted list whose ANY-source listeners come first, `send(evt)`
   * spawns, in list order, every listener registered for the event's source
   * whose value filter admits its value, followed by every ANY-source
   * listener.
   */
  lemma SendMatchesIntent(b: Bus, ev: Event, w: Wildcards)
    requires Sorted(b.listeners) && AnyFirst(b.listeners, w)
    ensures SendEvent(b, ev, w) == Matching(b.listeners, ev.source, ev.value, w) + WithId(b.listeners, w.idAny)
  {
    SourceLoopComplete(b.listeners, ev, w);
    AnyLoopComplete(b.listeners, w);
  }

  /**
   * The dispatch promise for every registry built by corrected
   * registrations from a new bus.
   */
  lemma CorrectedRegistryDispatch(rs: seq<Registration>, ev: Event, w: Wildcards)
    requires forall i :: 0 <= i < |rs| ==> w.idAny <= rs[i].id
    ensures var b := RegisterAll(EmptyBus, rs, w);
      SendEvent(b, ev, w) == Matching(b.listeners, ev.source, ev.value, w) + WithId(b.listeners, w.idAny)
  {
    RegisterAllSorted(EmptyBus, rs, w);
    SendMatchesIntent(RegisterAll(EmptyBus, rs, w), ev, w);
  }

  /**
   * An event whose source is the ANY id, on a list that starts with an
   * ANY-source listener, walks the leading ANY run twice: first filtered by
   * value as the source run, then unfiltered as the wildcard run.
   */
  lemma AnySourceDispatchedTwice(b: Bus, ev: Event, w: Wildcards)
    requires ev.source == w.idAny
    requires |b.listeners| > 0 && b.listeners[0].id == w.idAny
    ensures var k := SameIdRun(b.listeners, w.idAny);
      SendEvent(b, ev, w) == Matching(b.listeners[..k], w.idAny, ev.value, w) + AnyWalk(b.listeners, w)
  {
    assert From(b.listeners, 0) == b.listeners;
  }

  // ---------------------------------------------------------------------
  // Dispatch caches
  // ---------------------------------------------------------------------

  /**
   * A cache is sound for `source` on bus `b` when it was not taken at a
   * later sequence number, and, if current, points at the head-scan
   * position for that source.
   */
  predicate CacheSound(b: Bus, c: Cache, source: int)
  {
    c.version <= b.version && (c.version == b.version ==> c.ptr == HeadScan(b.listeners, source))
  }

  /** A zero-filled cache is sound on a new bus. */
  lemma ZeroCacheSound(source: int)
    ensures CacheSound(EmptyBus, Cache(0, 0), source)
  {
  }

  /** A sound cache makes `send` dispatch exactly what an uncached `send` dispatches. */
  lemma CachedSendAgrees(b: Bus, ev: Event, c: Cache, w: Wildcards)
    requires CacheSound(b, c, ev.source)
    ensures Send(b, ev, Some(c), w).spawned == SendEvent(b, ev, w)
  {
  }

  /** After `send` the caller's cache is current and sound for the event's source. */
  lemma SendKeepsCacheSound(b: Bus, ev: Event, c: Cache, w: Wildcards)
    requires CacheSound(b, c, ev.source)
    ensures var d := Send(b, ev, Some(c), w);
      d.cache.Some? && d.cache.value.version == b.version && CacheSound(b, d.cache.value, ev.source)
  {
  }

  /** A registration leaves every sound cache sound: either nothing changed or the cache became stale. */
  lemma ListenKeepsCacheSound(b: Bus, id: int, value: int, cb: Callback, w: Wildcards, c: Cache, source: int)
    requires CacheSound(b, c, source)
    ensures CacheSound(Listen(b, id, value, cb, w), c, source)
    ensures CacheSound(ListenSorted(b, id, value, cb, w), c, source)
  {
  }

  /** A cache taken before a registration that changed the list is stale, so the next `send` rescans. */
  lemma StaleAfterListen(b: Bus, id: int, value: int, cb: Callback, w: Wildcards, ev: Event, c: Cache)
    requires c.version == b.version
    requires !AlreadyListening(b.listeners, id, value, cb, w)
    ensures var b' := Listen(b, id, value, cb, w);
      Send(b', ev, Some(c), w).cache == Some(Cache(HeadScan(b'.listeners, ev.source), b.version + 1))
  {
  }
}
