/**
 * The event bus: a singly linked list of listeners, kept in registration
 * order by `listen`, and a version counter that invalidates caller-held
 * dispatch caches. `send` spawns one fiber per matching listener; a spawn is
 * modelled as appending the listener's callback to the returned sequence.
 *
 * The linked list is a `seq<Listener>` read from the head. A pointer into it
 * (the dispatch cache) is a position; every position at or past the end
 * stands for NULL.
 */
module MessageBus {
  import opened Base

  /** Address of a handler function; the bus only compares it for equality. */
  type Callback = int

  datatype Listener = Listener(id: int, value: int, cb: Callback)

  /**
   * The two wildcard constants: the source id meaning "every component" and
   * the event code meaning "every code". Their values are not fixed here.
   */
  datatype Wildcards = Wildcards(idAny: int, valueAny: int)

  /** The listener list and the sequence number `listen` bumps. */
  datatype Bus = Bus(listeners: seq<Listener>, version: nat)

  /** A caller-held cache: a position in the list and the version it was taken at. */
  datatype Cache = Cache(ptr: nat, version: int)

  /** What one `send` produces: the callbacks spawned, in order, and the caller's cache afterwards. */
  datatype Dispatch = Dispatch(spawned: seq<Callback>, cache: Option<Cache>)

  /** The bus as its constructor leaves it: no listeners, sequence number 0. */
  const EmptyBus: Bus := Bus([], 0)

  // ---------------------------------------------------------------------
  // listen
  // ---------------------------------------------------------------------

  /** `l` already captures every event a registration of (id, value, cb) would. */
  predicate Covers(l: Listener, id: int, value: int, cb: Callback, w: Wildcards)
  {
    && l.cb == cb
    && (l.id == id || l.id == w.idAny)
    && (l.value == value || l.value == w.valueAny)
  }

  /** Length of the leading run of listeners whose id is at most `id`: the range of the duplicate scan. */
  function IdRun(ls: seq<Listener>, id: int): (k: nat)
    ensures k <= |ls|
    ensures forall i :: 0 <= i < k ==> ls[i].id <= id
    ensures k < |ls| ==> ls[k].id > id
  {
    if |ls| == 0 || ls[0].id > id then 0 else 1 + IdRun(ls[1..], id)
  }

  /** The duplicate scan finds a listener that already covers the registration. */
  predicate AlreadyListening(ls: seq<Listener>, id: int, value: int, cb: Callback, w: Wildcards)
  {
    exists i :: 0 <= i < IdRun(ls, id) && Covers(ls[i], id, value, cb, w)
  }

  /** Length of the longest prefix whose listeners all have id <= `id` and value <= `value`. */
  function InsertPoint(ls: seq<Listener>, id: int, value: int): (k: nat)
    ensures k <= |ls|
    ensures forall i :: 0 <= i < k ==> ls[i].id <= id && ls[i].value <= value
    ensures k < |ls| ==> ls[k].id > id || ls[k].value > value
  {
    if |ls| == 0 || !(ls[0].id <= id && ls[0].value <= value) then 0
    else 1 + InsertPoint(ls[1..], id, value)
  }

  /** `ls` with `n` linked in at position `k`. */
  function Splice(ls: seq<Listener>, k: nat, n: Listener): (r: seq<Listener>)
    requires k <= |ls|
    ensures |r| == |ls| + 1 && r[k] == n
    ensures forall i :: 0 <= i < k ==> r[i] == ls[i]
    ensures forall i :: k < i < |r| ==> r[i] == ls[i - 1]
    ensures multiset(r) == multiset(ls) + multiset{n}
  {
    assert ls == ls[..k] + ls[k..];
    ls[..k] + [n] + ls[k..]
  }

  /**
   * `listen(id, value, handler)` as written. When the duplicate scan finds a
   * covering listener nothing changes. Otherwise the new listener goes after
   * the longest prefix of listeners with id <= id and value <= value; when
   * that prefix is empty the list head is overwritten by a listener whose
   * `next` is still NULL, so the list becomes that listener alone.
   */
  function Listen(b: Bus, id: int, value: int, cb: Callback, w: Wildcards): (r: Bus)
    ensures AlreadyListening(b.listeners, id, value, cb, w) ==> r == b
    ensures !AlreadyListening(b.listeners, id, value, cb, w) ==> r.version == b.version + 1
    ensures !AlreadyListening(b.listeners, id, value, cb, w) ==>
      var k := InsertPoint(b.listeners, id, value);
      var n := Listener(id, value, cb);
      if k == 0 then r.listeners == [n]
      else
        && |r.listeners| == |b.listeners| + 1 && r.listeners[k] == n
        && (forall i :: 0 <= i < k ==> r.listeners[i] == b.listeners[i])
        && (forall i :: k < i < |r.listeners| ==> r.listeners[i] == b.listeners[i - 1])
    ensures AlreadyListening(r.listeners, id, value, cb, w)
  {
    var n := Listener(id, value, cb);
    if AlreadyListening(b.listeners, id, value, cb, w) then b
    else
      var k := InsertPoint(b.listeners, id, value);
      var ls' := if k == 0 then [n] else Splice(b.listeners, k, n);
      assert IdRun(ls', id) > k by { IdRunCovers(ls', k, id); }
      assert Covers(ls'[k], id, value, cb, w);
      Bus(ls', b.version + 1)
  }

  /** Every position up to and including `k` lies inside the duplicate-scan run. */
  lemma {:induction false} IdRunCovers(ls: seq<Listener>, k: nat, id: int)
    requires k < |ls|
    requires forall i :: 0 <= i <= k ==> ls[i].id <= id
    ensures IdRun(ls, id) > k
  {
    if k > 0 {
      IdRunCovers(ls[1..], k - 1, id);
    }
  }

  // ---------------------------------------------------------------------
  // The ordering the registration code aims for, and corrected registrations
  // ---------------------------------------------------------------------

  /** Lexicographic order on (id, value): the order the list is meant to be kept in. */
  predicate LexLe(a: Listener, b: Listener)
  {
    a.id < b.id || (a.id == b.id && a.value <= b.value)
  }

  /** Non-decreasing in (id, value); listeners with equal keys may repeat. */
  predicate Sorted(ls: seq<Listener>)
  {
    forall i, j :: 0 <= i < j < |ls| ==> LexLe(ls[i], ls[j])
  }

  /** No listener has an id below the ANY-source id, so ANY-source listeners sort first. */
  predicate AnyFirst(ls: seq<Listener>, w: Wildcards)
  {
    forall i :: 0 <= i < |ls| ==> w.idAny <= ls[i].id
  }

  /** The ordering condition the as-written scan needs: every listener with a smaller id has a value no larger than `value`. */
  predicate SmallerIdsBelow(ls: seq<Listener>, id: int, value: int)
  {
    forall i :: 0 <= i < |ls| && ls[i].id < id ==> ls[i].value <= value
  }

  /**
   * `listen` with the head case corrected: the new listener is linked in
   * front of the old list instead of replacing it. The position is still the
   * as-written one.
   */
  function ListenLinked(b: Bus, id: int, value: int, cb: Callback, w: Wildcards): (r: Bus)
    ensures AlreadyListening(b.listeners, id, value, cb, w) ==> r == b
    ensures !AlreadyListening(b.listeners, id, value, cb, w) ==>
      && r.version == b.version + 1
      && multiset(r.listeners) == multiset(b.listeners) + multiset{Listener(id, value, cb)}
    ensures AlreadyListening(r.listeners, id, value, cb, w)
  {
    var n := Listener(id, value, cb);
    if AlreadyListening(b.listeners, id, value, cb, w) then b
    else
      var k := InsertPoint(b.listeners, id, value);
      var ls' := Splice(b.listeners, k, n);
      assert IdRun(ls', id) > k by { IdRunCovers(ls', k, id); }
      assert Covers(ls'[k], id, value, cb, w);
      Bus(ls', b.version + 1)
  }

  /** Length of the longest prefix of listeners ordered at or before `n`. */
  function LexPoint(ls: seq<Listener>, n: Listener): (k: nat)
    ensures k <= |ls|
    ensures forall i :: 0 <= i < k ==> LexLe(ls[i], n)
    ensures k < |ls| ==> !LexLe(ls[k], n)
  {
    if |ls| == 0 || !LexLe(ls[0], n) then 0 else 1 + LexPoint(ls[1..], n)
  }

  /**
   * `listen` as the comment on the insertion scan describes it: the new
   * listener is linked in at its lexicographic position, keeping every
   * existing listener. The duplicate scan is unchanged.
   */
  function ListenSorted(b: Bus, id: int, value: int, cb: Callback, w: Wildcards): (r: Bus)
    ensures AlreadyListening(b.listeners, id, value, cb, w) ==> r == b
    ensures !AlreadyListening(b.listeners, id, value, cb, w) ==>
      && r.version == b.version + 1
      && multiset(r.listeners) == multiset(b.listeners) + multiset{Listener(id, value, cb)}
    ensures AlreadyListening(r.listeners, id, value, cb, w)
    ensures Sorted(b.listeners) ==> Sorted(r.listeners)
  {
    var n := Listener(id, value, cb);
    if AlreadyListening(b.listeners, id, value, cb, w) then b
    else
      var k := LexPoint(b.listeners, n);
      var ls' := Splice(b.listeners, k, n);
      assert IdRun(ls', id) > k by { IdRunCovers(ls', k, id); }
      assert Covers(ls'[k], id, value, cb, w);
      SortedSplice(b.listeners, n);
      Bus(ls', b.version + 1)
  }

  /** Linking `n` in at its lexicographic position keeps a sorted list sorted. */
  lemma SortedSplice(ls: seq<Listener>, n: Listener)
    ensures Sorted(ls) ==> Sorted(Splice(ls, LexPoint(ls, n), n))
  {
    var k := LexPoint(ls, n);
    var r := Splice(ls, k, n);
    if Sorted(ls) {
      forall i, j | 0 <= i < j < |r|
        ensures LexLe(r[i], r[j])
      {
        if j < k {
        } else if j == k {
        } else if i < k {
          assert LexLe(ls[i], ls[j - 1]);
        } else if i == k {
          assert LexLe(ls[k], ls[j - 1]);
        } else {
          assert LexLe(ls[i - 1], ls[j - 1]);
        }
      }
    }
  }

  // ---------------------------------------------------------------------
  // send
  // ---------------------------------------------------------------------

  /** The value filter of a listener admits `value`. */
  predicate Accepts(l: Listener, value: int, w: Wildcards)
  {
    l.value == w.valueAny || l.value == value
  }

  /** The head scan: position of the first listener with id `source`, or |ls| when there is none. */
  function HeadScan(ls: seq<Listener>, source: int): (p: nat)
    ensures p <= |ls|
    ensures forall i :: 0 <= i < p ==> ls[i].id != source
    ensures p < |ls| ==> ls[p].id == source
  {
    if |ls| == 0 || ls[0].id == source then 0 else 1 + HeadScan(ls[1..], source)
  }

  /** Length of the leading run of listeners whose id is exactly `id`. */
  function SameIdRun(ls: seq<Listener>, id: int): (k: nat)
    ensures k <= |ls|
    ensures forall i :: 0 <= i < k ==> ls[i].id == id
    ensures k < |ls| ==> ls[k].id != id
  {
    if |ls| == 0 || ls[0].id != id then 0 else 1 + SameIdRun(ls[1..], id)
  }

  /** Reference: callbacks of every listener registered for (source, value), in list order. */
  function Matching(ls: seq<Listener>, source: int, value: int, w: Wildcards): seq<Callback>
  {
    if |ls| == 0 then []
    else
      (if ls[0].id == source && Accepts(ls[0], value, w) then [ls[0].cb] else [])
      + Matching(ls[1..], source, value, w)
  }

  /** Reference: callbacks of every listener whose id is `id`, in list order. */
  function WithId(ls: seq<Listener>, id: int): seq<Callback>
  {
    if |ls| == 0 then []
    else (if ls[0].id == id then [ls[0].cb] else []) + WithId(ls[1..], id)
  }

  /**
   * The source loop of `send`: from the start of `ls`, walk while the id is
   * the event's source and spawn the listeners whose value filter admits the
   * event's value.
   */
  function SourceWalk(ls: seq<Listener>, ev: Event, w: Wildcards): (cbs: seq<Callback>)
    ensures cbs == Matching(ls[..SameIdRun(ls, ev.source)], ev.source, ev.value, w)
  {
    if |ls| == 0 || ls[0].id != ev.source then []
    else
      assert ls[..SameIdRun(ls, ev.source)][1..] == ls[1..][..SameIdRun(ls[1..], ev.source)];
      (if Accepts(ls[0], ev.value, w) then [ls[0].cb] else []) + SourceWalk(ls[1..], ev, w)
  }

  /** The callbacks of a list of listeners, in list order. */
  function Callbacks(ls: seq<Listener>): (cbs: seq<Callback>)
    ensures |cbs| == |ls|
    ensures forall i :: 0 <= i < |ls| ==> cbs[i] == ls[i].cb
  {
    if |ls| == 0 then [] else [ls[0].cb] + Callbacks(ls[1..])
  }

  /** The wildcard loop of `send`: every listener of the leading run of ANY-source listeners, with no value test. */
  function AnyWalk(ls: seq<Listener>, w: Wildcards): (cbs: seq<Callback>)
    ensures |cbs| == SameIdRun(ls, w.idAny)
    ensures forall i :: 0 <= i < |cbs| ==> cbs[i] == ls[i].cb
  {
    if |ls| == 0 || ls[0].id != w.idAny then [] else [ls[0].cb] + AnyWalk(ls[1..], w)
  }

  /** The list from position `p` on; empty when `p` stands for NULL. */
  function From(ls: seq<Listener>, p: nat): seq<Listener>
  {
    if p <= |ls| then ls[p..] else []
  }

  /** Where the source loop starts: the cached position when the cache is current, else the head scan. */
  function StartOf(b: Bus, ev: Event, c: Option<Cache>): nat
  {
    if c.Some? && c.value.version == b.version then c.value.ptr
    else HeadScan(b.listeners, ev.source)
  }

  /**
   * The handlers one `send` spawns, in order: the source loop's matches from
   * position `start`, then every listener of the leading ANY-source run.
   */
  function Spawned(ls: seq<Listener>, start: nat, ev: Event, w: Wildcards): (spawned: seq<Callback>)
    ensures |spawned| >= SameIdRun(ls, w.idAny)
    ensures spawned[|spawned| - SameIdRun(ls, w.idAny)..] == Callbacks(ls[..SameIdRun(ls, w.idAny)])
    ensures var s := From(ls, start);
      spawned[..|spawned| - SameIdRun(ls, w.idAny)]
        == Matching(s[..SameIdRun(s, ev.source)], ev.source, ev.value, w)
  {
    var source := SourceWalk(From(ls, start), ev, w);
    PrefixOfConcat(source, AnyWalk(ls, w));
    assert (source + AnyWalk(ls, w))[|source|..] == AnyWalk(ls, w);
    assert AnyWalk(ls, w) == Callbacks(ls[..SameIdRun(ls, w.idAny)]);
    source + AnyWalk(ls, w)
  }

  /**
   * `send(evt, c)`: the source loop from the start position, then the
   * wildcard loop from the head; a stale cache is refreshed with the head
   * scan result and the current sequence number, a current one is left alone.
   * The bus itself is not an output: `send` changes neither the list nor the
   * sequence number.
   */
  function Send(b: Bus, ev: Event, c: Option<Cache>, w: Wildcards): (d: Dispatch)
    ensures c.Some? && c.value.version != b.version ==>
      d.cache == Some(Cache(HeadScan(b.listeners, ev.source), b.version))
    ensures c.None? || c.value.version == b.version ==> d.cache == c
    ensures |d.spawned| >= SameIdRun(b.listeners, w.idAny)
    ensures d.spawned[|d.spawned| - SameIdRun(b.listeners, w.idAny)..]
      == Callbacks(b.listeners[..SameIdRun(b.listeners, w.idAny)])
    ensures var s := From(b.listeners, StartOf(b, ev, c));
      d.spawned[..|d.spawned| - SameIdRun(b.listeners, w.idAny)]
        == Matching(s[..SameIdRun(s, ev.source)], ev.source, ev.value, w)
  {
    var start := StartOf(b, ev, c);
    var cache := if c.Some? && c.value.version != b.version then Some(Cache(start, b.version)) else c;
    Dispatch(Spawned(b.listeners, start, ev, w), cache)
  }

  /** The first |a| elements of a + b are a. */
  lemma PrefixOfConcat(a: seq<Callback>, b: seq<Callback>)
    ensures (a + b)[..|a|] == a
  {
  }

  /** `send(evt)`: the same as `send(evt, NULL)`. */
  function SendEvent(b: Bus, ev: Event, w: Wildcards): (spawned: seq<Callback>)
  {
    Send(b, ev, None, w).spawned
  }
}
