/** Get, Drop and Close as a concurrent protocol: any number of threads, each moving through the
    atomic sections of its call, in any order.  The open itself happens outside the mutex. */
module TenantProtocol {
  import opened Wrappers
  import opened TenantCore
  import opened TenantRecency

  type Tid = nat

  datatype Outcome = Got(handle: Handle) | Failed | Refused | Rejected

  /** Where a thread stands in its call of Get. */
  datatype Thread =
    | Opening(id: string, op: OpId)
    | Loaded(id: string, op: OpId, result: Option<Handle>)
    | Waiting(id: string, op: OpId)
    | Returned(id: string, via: Option<OpId>, outcome: Outcome)

  /** `owner` remembers which id each opened handle belongs to, `history` the touches of the list.
      `crashed` records a write to the nil index. */
  datatype System = System(
    core: Core,
    threads: map<Tid, Thread>,
    next: Handle,
    owner: map<Handle, string>,
    history: seq<string>,
    crashed: bool)

  datatype Event =
    | Call(thread: Tid, id: string)
    | OpenDone(thread: Tid, ok: bool)
    | Publish(thread: Tid)
    | Wake(thread: Tid)
    | DropStore(id: string)
    | Shut

  const START: System := System(INITIAL, map[], 0, map[], [], false)

  predicate Enabled(s: System, e: Event) {
    && !s.crashed
    && match e
       case Call(t, _) => t in s.threads ==> s.threads[t].Returned?
       case OpenDone(t, _) => t in s.threads && s.threads[t].Opening?
       case Publish(t) => t in s.threads && s.threads[t].Loaded?
       case Wake(t) => t in s.threads && s.threads[t].Waiting? && s.threads[t].op in s.core.published
       case DropStore(_) => true
       case Shut => true
  }

  function OutcomeOf(result: Option<Handle>): Outcome {
    if result.Some? then Got(result.value) else Failed
  }

  function NextCall(s: System, t: Tid, id: string): System {
    if id == "" then s.(threads := s.threads[t := Returned(id, None, Rejected)])
    else
      var (core, begun) := BeginGet(s.core, id);
      match begun
      case Shutdown => s.(threads := s.threads[t := Returned(id, None, Refused)])
      case Hit(h) =>
        s.(core := core, threads := s.threads[t := Returned(id, None, Got(h))], history := s.history + [id])
      case Wait(op) => s.(threads := s.threads[t := Waiting(id, op)])
      case Claimed(op) => s.(core := core, threads := s.threads[t := Opening(id, op)])
  }

  /** The open returns, outside the mutex: a fresh handle, or an error. */
  function NextOpen(s: System, t: Tid, ok: bool): System
    requires t in s.threads && s.threads[t].Opening?
  {
    var Opening(id, op) := s.threads[t];
    if ok then
      s.(threads := s.threads[t := Loaded(id, op, Some(s.next))], next := s.next + 1, owner := s.owner[s.next := id])
    else s.(threads := s.threads[t := Loaded(id, op, None)])
  }

  function NextPublish(max: nat, s: System, t: Tid): System
    requires t in s.threads && s.threads[t].Loaded?
  {
    var Loaded(id, op, result) := s.threads[t];
    if result.Some? && s.core.indexNil then s.(crashed := true)
    else s.(core := FinishGet(s.core, id, op, result, max),
            threads := s.threads[t := Returned(id, Some(op), OutcomeOf(result))],
            history := if result.Some? then s.history + [id] else s.history)
  }

  function Next(max: nat, s: System, e: Event): System
    requires Enabled(s, e)
  {
    match e
    case Call(t, id) => NextCall(s, t, id)
    case OpenDone(t, ok) => NextOpen(s, t, ok)
    case Publish(t) => NextPublish(max, s, t)
    case Wake(t) =>
      var Waiting(id, op) := s.threads[t];
      s.(threads := s.threads[t := Returned(id, Some(op), OutcomeOf(s.core.published[op]))])
    case DropStore(id) => s.(core := Drop(s.core, id))
    case Shut => s.(core := Close(s.core))
  }

  // ---------- The invariant ----------

  ghost predicate Unique(list: seq<Entry>) {
    forall i, j :: 0 <= i < j < |list| ==> list[i].id != list[j].id && list[i].handle != list[j].handle
  }

  ghost predicate InCache(list: seq<Entry>, h: Handle) {
    exists e :: e in list && e.handle == h
  }

  predicate IsLoader(th: Thread) {
    th.Opening? || th.Loaded?
  }

  predicate Awaits(th: Thread, h: Handle) {
    th.Loaded? && th.result == Some(h)
  }

  ghost predicate Awaited(threads: map<Tid, Thread>, h: Handle) {
    exists t :: t in threads && Awaits(threads[t], h)
  }

  /** The recency list: bounded, without repetitions, and never holding an id that is being loaded. */
  ghost predicate ListInv(max: nat, c: Core) {
    && |c.cache| <= max && Unique(c.cache)
    && (forall id :: id in c.loading ==> !Cached(c.cache, id))
    && (c.closed ==> c.cache == [])
    && (c.indexNil <==> c.closed)
  }

  /** A loader works on the current load of its id; a waiter's load is current or published; a result
      that came from a load is the published one. */
  predicate ThreadOk(loading: map<string, OpId>, published: map<OpId, Option<Handle>>, th: Thread) {
    && (IsLoader(th) ==> th.id in loading && loading[th.id] == th.op)
    && (th.Waiting? ==> th.op in published || (th.id in loading && loading[th.id] == th.op))
    && (th.Returned? && th.via.Some? ==> th.via.value in published && th.outcome == OutcomeOf(published[th.via.value]))
  }

  ghost predicate ThreadsOk(loading: map<string, OpId>, published: map<OpId, Option<Handle>>,
                            threads: map<Tid, Thread>) {
    forall t :: t in threads ==> ThreadOk(loading, published, threads[t])
  }

  predicate Loads(threads: map<Tid, Thread>, t: Tid, id: string) {
    t in threads && IsLoader(threads[t]) && threads[t].id == id
  }

  /** Exactly one loader for each loading id. */
  ghost predicate OneLoaderEach(loading: map<string, OpId>, threads: map<Tid, Thread>) {
    && (forall t, t', id :: Loads(threads, t, id) && Loads(threads, t', id) ==> t == t')
    && (forall id :: id in loading ==> exists t :: Loads(threads, t, id))
  }

  /** Operations are numbered apart, and a current one is not yet published. */
  ghost predicate OpsOk(loading: map<string, OpId>, published: map<OpId, Option<Handle>>, nextOp: OpId) {
    && (forall id :: id in loading ==> loading[id] < nextOp && loading[id] !in published)
    && (forall id, id' :: id in loading && id' in loading && loading[id] == loading[id'] ==> id == id')
    && (forall op :: op in published ==> op < nextOp)
  }

  ghost predicate LoadInv(c: Core, threads: map<Tid, Thread>) {
    && ThreadsOk(c.loading, c.published, threads)
    && OneLoaderEach(c.loading, threads)
    && OpsOk(c.loading, c.published, c.nextOp)
  }

  /** How many places hold the handle: the cache, a thread about to install it, and its Close calls. */
  ghost function Places(s: System, h: Handle): nat {
    One(InCache(s.core.cache, h)) + One(Awaited(s.threads, h)) + s.core.closes[h]
  }

  /** Handle conservation. */
  ghost predicate HandleInv(s: System) {
    && (forall h: Handle :: h in s.owner <==> h < s.next)
    && (forall h: Handle :: Places(s, h) == One(h < s.next))
    && (forall t, t', h ::
          t in s.threads && t' in s.threads && Awaits(s.threads[t], h) && Awaits(s.threads[t'], h) ==> t == t')
    && (forall e :: e in s.core.cache ==> e.handle in s.owner && s.owner[e.handle] == e.id)
    && (forall t, h :: t in s.threads && Awaits(s.threads[t], h) ==> h in s.owner && s.owner[h] == s.threads[t].id)
  }

  /** A loader that may yet install a handle: it is opening, or has opened. */
  predicate MayInstall(th: Thread) {
    th.Opening? || (th.Loaded? && th.result.Some?)
  }

  ghost predicate InstallsPending(threads: map<Tid, Thread>) {
    exists t :: t in threads && MayInstall(threads[t])
  }

  ghost predicate Inv(max: nat, s: System) {
    && max >= 1 && !s.crashed
    && ListInv(max, s.core) && LoadInv(s.core, s.threads) && HandleInv(s)
    && (s.core.closed ==> !InstallsPending(s.threads))
  }

  // ---------- List operations ----------

  lemma UniqueImpliesUniqueIds(list: seq<Entry>)
    requires Unique(list)
    ensures UniqueIds(list)
  {
  }

  lemma WithoutOne(list: seq<Entry>, i: nat)
    requires Unique(list) && i < |list|
    ensures Unique(Without(list, i)) && |Without(list, i)| == |list| - 1
    ensures forall e :: e in Without(list, i) <==> e in list && e != list[i]
  {
    var rest := Without(list, i);
    assert forall j :: 0 <= j < i ==> rest[j] == list[j];
    assert forall j :: i <= j < |rest| ==> rest[j] == list[j + 1];
    forall e | e in list && e != list[i] ensures e in rest {
      var j :| 0 <= j < |list| && list[j] == e;
      assert rest[if j < i then j else j - 1] == e;
    }
  }

  lemma PushOne(list: seq<Entry>, e: Entry)
    requires Unique(list) && forall x :: x in list ==> x.id != e.id && x.handle != e.handle
    ensures Unique([e] + list)
    ensures forall x :: x in [e] + list <==> x == e || x in list
  {
    var more := [e] + list;
    assert forall j :: 0 <= j < |more| ==> more[j] == if j == 0 then e else list[j - 1];
    assert forall j :: 0 <= j < |list| ==> list[j] in list;
  }

  lemma MoveSame(list: seq<Entry>, i: nat)
    requires Unique(list) && i < |list|
    ensures Unique(MoveToFront(list, i)) && |MoveToFront(list, i)| == |list|
    ensures forall e :: e in MoveToFront(list, i) <==> e in list
  {
    WithoutOne(list, i);
    assert forall x :: x in Without(list, i) ==> x.id != list[i].id && x.handle != list[i].handle by {
      forall x | x in Without(list, i) ensures x.id != list[i].id && x.handle != list[i].handle {
        var j :| 0 <= j < |list| && list[j] == x;
      }
    }
    PushOne(Without(list, i), list[i]);
  }

  lemma CachedMeans(list: seq<Entry>, id: string)
    ensures Cached(list, id) <==> exists e :: e in list && e.id == id
  {
    if e :| e in list && e.id == id {
      var j :| 0 <= j < |list| && list[j] == e;
    }
  }

  lemma InCacheAppend(list: seq<Entry>, e: Entry, h: Handle)
    ensures InCache(list + [e], h) <==> InCache(list, h) || e.handle == h
  {
    assert forall x :: x in list + [e] <==> x in list || x == e;
    if InCache(list, h) {
      var x :| x in list && x.handle == h;
      assert x in list + [e];
    }
    assert e in list + [e];
  }

  lemma LastIsApart(list: seq<Entry>)
    requires Unique(list) && list != []
    ensures Unique(list[..|list| - 1]) && !InCache(list[..|list| - 1], list[|list| - 1].handle)
  {
  }

  lemma {:induction false} HandlesOnce(list: seq<Entry>, h: Handle)
    requires Unique(list)
    ensures Handles(list)[h] == One(InCache(list, h))
    decreases |list|
  {
    if list == [] {
      assert !InCache(list, h);
    } else {
      var front, last := list[..|list| - 1], list[|list| - 1];
      LastIsApart(list);
      assert list == front + [last];
      InCacheAppend(front, last, h);
      hide Unique, InCache;
      HandlesOnce(front, h);
    }
  }

  /** What an install does when the id is not listed: it goes first, and at most the last goes out. */
  lemma InstallShape(c: Core, id: string, h: Handle, max: nat)
    requires max >= 1 && |c.cache| <= max && !Cached(c.cache, id)
    ensures var c' := Install(c, id, h, max);
            && c'.cache != [] && c'.cache[0] == Entry(id, h) && |c'.cache| <= max
            && c' == c.(cache := c'.cache, closes := c'.closes)
            && (|c.cache| < max ==> c'.cache == [Entry(id, h)] + c.cache && c'.closes == c.closes)
            && (|c.cache| == max ==>
                  && c'.cache == [Entry(id, h)] + Without(c.cache, max - 1)
                  && c'.closes == c.closes + multiset{c.cache[max - 1].handle})
  {
    if |c.cache| == max {
      var more := [Entry(id, h)] + c.cache;
      assert more[max..] == [c.cache[max - 1]];
      HandlesOfPrefix(more[max..], 0);
      assert more[max..][..1] == more[max..] && more[max..][..0] == [];
      assert more[..max] == [Entry(id, h)] + Without(c.cache, max - 1);
    }
  }

  // ---------- The recency list, section by section ----------

  lemma ListBegin(max: nat, c: Core, id: string)
    requires ListInv(max, c)
    ensures ListInv(max, BeginGet(c, id).0)
  {
    if !c.closed && Cached(c.cache, id) {
      SameIds(c.cache, Position(c.cache, id));
    }
  }

  lemma SameIds(list: seq<Entry>, i: nat)
    requires Unique(list) && i < |list|
    ensures var moved := MoveToFront(list, i);
            Unique(moved) && |moved| == |list| && forall id :: Cached(moved, id) <==> Cached(list, id)
  {
    MoveSame(list, i);
    forall id ensures Cached(MoveToFront(list, i), id) <==> Cached(list, id) {
      CachedMeans(list, id);
      CachedMeans(MoveToFront(list, i), id);
    }
  }

  lemma ListFinish(max: nat, c: Core, id: string, op: OpId, result: Option<Handle>)
    requires max >= 1 && ListInv(max, c) && id in c.loading
    requires result.Some? ==> !c.closed && !InCache(c.cache, result.value)
    ensures ListInv(max, FinishGet(c, id, op, result, max))
  {
    if result.Some? {
      var c1 := c.(published := c.published[op := result], loading := c.loading - {id});
      var e := Entry(id, result.value);
      InstallShape(c1, id, result.value, max);
      var kept := if |c.cache| == max then Without(c.cache, max - 1) else c.cache;
      if |c.cache| == max {
        WithoutOne(c.cache, max - 1);
      }
      forall x | x in kept ensures x.id != e.id && x.handle != e.handle {
        CachedMeans(c.cache, id);
      }
      PushOne(kept, e);
      forall id' | id' in c1.loading ensures !Cached([e] + kept, id') {
        CachedMeans(c.cache, id');
        CachedMeans([e] + kept, id');
      }
      hide Install, Cached, InCache;
    }
  }

  lemma ListDrop(max: nat, c: Core, id: string)
    requires ListInv(max, c)
    ensures ListInv(max, Drop(c, id))
  {
    if Cached(c.cache, id) {
      var i := Position(c.cache, id);
      WithoutOne(c.cache, i);
      forall id' | id' in c.loading ensures !Cached(Without(c.cache, i), id') {
        CachedMeans(c.cache, id');
        CachedMeans(Without(c.cache, i), id');
      }
    }
  }

  // ---------- Handle conservation, step by step ----------

  /** Steps that move no handle. */
  lemma HandlesStay(s: System, s': System)
    requires HandleInv(s)
    requires s'.next == s.next && s'.owner == s.owner && s'.core.closes == s.core.closes
    requires forall e :: e in s'.core.cache <==> e in s.core.cache
    requires forall t, h :: t in s'.threads && Awaits(s'.threads[t], h) ==>
               t in s.threads && Awaits(s.threads[t], h) && s'.threads[t].id == s.threads[t].id
    requires forall t, h :: t in s.threads && Awaits(s.threads[t], h) ==> t in s'.threads && Awaits(s'.threads[t], h)
    ensures HandleInv(s')
  {
    forall h: Handle ensures Places(s', h) == Places(s, h) {
      assert InCache(s'.core.cache, h) <==> InCache(s.core.cache, h);
      assert Awaited(s'.threads, h) <==> Awaited(s.threads, h);
    }
  }

  lemma HandlesAfterOpen(s: System, t: Tid)
    requires HandleInv(s) && t in s.threads && s.threads[t].Opening?
    ensures HandleInv(NextOpen(s, t, true))
  {
    var s' := NextOpen(s, t, true);
    assert Places(s, s.next) == 0;
    assert !Awaited(s.threads, s.next) && !InCache(s.core.cache, s.next);
    assert Awaits(s'.threads[t], s.next);
    forall h: Handle ensures Places(s', h) == One(h < s'.next) {
      assert Places(s, h) == One(h < s.next);
      if h != s.next {
        assert Awaited(s'.threads, h) <==> Awaited(s.threads, h) by {
          if Awaited(s.threads, h) {
            var u :| u in s.threads && Awaits(s.threads[u], h);
            assert u in s'.threads && Awaits(s'.threads[u], h);
          }
        }
      }
    }
  }

  /** A handle leaves the cache and is closed once. */
  lemma HandlesAfterRemoval(s: System, s': System, gone: Entry)
    requires HandleInv(s) && Unique(s.core.cache) && gone in s.core.cache
    requires s' == s.(core := s'.core) && s'.core.closes == s.core.closes + multiset{gone.handle}
    requires forall e :: e in s'.core.cache <==> e in s.core.cache && e != gone
    ensures HandleInv(s')
  {
    forall h: Handle ensures Places(s', h) == One(h < s.next) {
      assert Places(s, h) == One(h < s.next);
      if h == gone.handle {
        assert InCache(s.core.cache, h);
        forall e | e in s.core.cache && e.handle == h ensures e == gone {
          SameHandleSameEntry(s.core.cache, e, gone);
        }
        assert !InCache(s'.core.cache, h);
      } else {
        assert InCache(s'.core.cache, h) <==> InCache(s.core.cache, h) by {
          if InCache(s.core.cache, h) {
            var e :| e in s.core.cache && e.handle == h;
            assert e in s'.core.cache;
          }
        }
      }
    }
  }

  lemma SameHandleSameEntry(list: seq<Entry>, a: Entry, b: Entry)
    requires Unique(list) && a in list && b in list && a.handle == b.handle
    ensures a == b
  {
    var i :| 0 <= i < |list| && list[i] == a;
    var j :| 0 <= j < |list| && list[j] == b;
  }

  /** A thread hands its handle over to the cache. */
  ghost predicate HandsOver(s: System, s': System, t: Tid, e: Entry) {
    && t in s.threads && Awaits(s.threads[t], e.handle) && s.threads[t].id == e.id
    && s'.next == s.next && s'.owner == s.owner && s'.core.closes == s.core.closes
    && s'.threads.Keys == s.threads.Keys && s'.threads[t].Returned?
    && (forall u :: u in s.threads && u != t ==> s'.threads[u] == s.threads[u])
    && (forall x :: x in s'.core.cache <==> x in s.core.cache || x == e)
  }

  lemma PlacesAfterPush(s: System, s': System, t: Tid, e: Entry, h: Handle)
    requires HandleInv(s) && HandsOver(s, s', t, e)
    ensures Places(s', h) == One(h < s.next)
  {
    assert Places(s, h) == One(h < s.next);
    if h == e.handle {
      assert Awaited(s.threads, h) && InCache(s'.core.cache, h);
      assert !Awaited(s'.threads, h);
    } else {
      if InCache(s.core.cache, h) {
        var x :| x in s.core.cache && x.handle == h;
        assert x in s'.core.cache;
      }
      if Awaited(s.threads, h) {
        var u :| u in s.threads && Awaits(s.threads[u], h);
        assert u in s'.threads && Awaits(s'.threads[u], h);
      }
    }
  }

  lemma HandlesAfterPush(s: System, s': System, t: Tid, e: Entry)
    requires HandleInv(s) && HandsOver(s, s', t, e)
    ensures HandleInv(s')
  {
    forall h: Handle ensures Places(s', h) == One(h < s.next) {
      PlacesAfterPush(s, s', t, e, h);
    }
    hide Places, InCache, Awaited;
  }

  lemma HandlesAfterClose(s: System, s': System)
    requires HandleInv(s) && Unique(s.core.cache)
    requires s' == s.(core := s'.core) && s'.core.cache == [] && s'.core.closes == s.core.closes + Handles(s.core.cache)
    ensures HandleInv(s')
  {
    forall h: Handle ensures Places(s', h) == One(h < s.next) {
      assert Places(s, h) == One(h < s.next);
      HandlesOnce(s.core.cache, h);
      assert !InCache(s'.core.cache, h);
    }
  }

  // ---------- Every step keeps the invariant ----------

  /** A thread moves on without touching the loads. */
  lemma LoadsAfterRelabel(c: Core, threads: map<Tid, Thread>, t: Tid, now: Thread)
    requires LoadInv(c, threads) && ThreadOk(c.loading, c.published, now)
    requires IsLoader(now) <==> t in threads && IsLoader(threads[t])
    requires IsLoader(now) ==> now.id == threads[t].id
    ensures LoadInv(c, threads[t := now])
  {
    hide ThreadOk;
    var threads' := threads[t := now];
    assert forall u, id :: Loads(threads', u, id) <==> Loads(threads, u, id);
    hide Loads;
  }

  lemma LoadsAfterClaim(c: Core, threads: map<Tid, Thread>, t: Tid, id: string)
    requires LoadInv(c, threads) && id !in c.loading && (t in threads ==> !IsLoader(threads[t]))
    ensures LoadInv(c.(loading := c.loading[id := c.nextOp], nextOp := c.nextOp + 1),
                    threads[t := Opening(id, c.nextOp)])
  {
    var threads' := threads[t := Opening(id, c.nextOp)];
    var loading' := c.loading[id := c.nextOp];
    assert forall u :: u in threads && IsLoader(threads[u]) ==>
      ThreadOk(c.loading, c.published, threads[u]) && threads[u].id != id;
    assert forall u, i :: Loads(threads', u, i) <==> if u == t then i == id else Loads(threads, u, i);
    assert forall u :: Loads(threads', u, id) ==> u == t;
    OneLoaderAfterClaim(c.loading, threads, threads', t, id, c.nextOp);
  }

  lemma OneLoaderAfterClaim(loading: map<string, OpId>, threads: map<Tid, Thread>, threads': map<Tid, Thread>, t: Tid,
                            id: string, op: OpId)
    requires OneLoaderEach(loading, threads)
    requires forall u, i :: Loads(threads', u, i) <==> if u == t then i == id else Loads(threads, u, i)
    requires forall i :: !Loads(threads, t, i)
    requires forall u :: Loads(threads', u, id) ==> u == t
    ensures OneLoaderEach(loading[id := op], threads')
  {
    hide Loads;
    var loading' := loading[id := op];
    forall i | i in loading' ensures exists u :: Loads(threads', u, i) {
      if i == id {
        assert Loads(threads', t, i);
      } else {
        var u :| Loads(threads, u, i);
        assert Loads(threads', u, i);
      }
    }
  }

  /** The others stay in order when a load is published: no other loader worked on it. */
  lemma ThreadsAfterPublish(c: Core, c': Core, threads: map<Tid, Thread>, t: Tid, u: Tid)
    requires LoadInv(c, threads) && t in threads && threads[t].Loaded? && u in threads && u != t
    requires c'.loading == c.loading - {threads[t].id}
    requires c'.published == c.published[threads[t].op := threads[t].result]
    ensures ThreadOk(c'.loading, c'.published, threads[u])
  {
    var Loaded(id, op, result) := threads[t];
    assert ThreadOk(c.loading, c.published, threads[t]) && ThreadOk(c.loading, c.published, threads[u]);
    assert Loads(threads, t, id);
    assert IsLoader(threads[u]) ==> Loads(threads, u, threads[u].id);
    assert op !in c.published;
  }

  lemma OneLoaderAfterPublish(loading: map<string, OpId>, threads: map<Tid, Thread>, threads': map<Tid, Thread>,
                              t: Tid, id: string)
    requires OneLoaderEach(loading, threads) && Loads(threads, t, id)
    requires forall u, i :: Loads(threads', u, i) <==> Loads(threads, u, i) && u != t
    requires forall i :: Loads(threads, t, i) ==> i == id
    ensures OneLoaderEach(loading - {id}, threads')
  {
    hide Loads;
    forall i | i in loading - {id} ensures exists u :: Loads(threads', u, i) {
      var u :| Loads(threads, u, i);
      assert Loads(threads', u, i);
    }
  }

  lemma LoadsAfterPublish(c: Core, c': Core, threads: map<Tid, Thread>, t: Tid)
    requires LoadInv(c, threads) && t in threads && threads[t].Loaded?
    requires c'.loading == c.loading - {threads[t].id}
    requires c'.published == c.published[threads[t].op := threads[t].result]
    requires c'.nextOp == c.nextOp
    ensures LoadInv(c', threads[t := Returned(threads[t].id, Some(threads[t].op), OutcomeOf(threads[t].result))])
  {
    var Loaded(id, op, result) := threads[t];
    var threads' := threads[t := Returned(id, Some(op), OutcomeOf(result))];
    assert ThreadOk(c.loading, c.published, threads[t]) && Loads(threads, t, id);
    assert OpsOk(c'.loading, c'.published, c'.nextOp);
    assert forall u, i :: Loads(threads', u, i) <==> Loads(threads, u, i) && u != t;
    OneLoaderAfterPublish(c.loading, threads, threads', t, id);
    forall u | u in threads' ensures ThreadOk(c'.loading, c'.published, threads'[u]) {
      if u != t {
        hide OneLoaderEach, OpsOk;
        ThreadsAfterPublish(c, c', threads, t, u);
      }
    }
    hide OneLoaderEach, OpsOk, Loads, ThreadOk;
  }

  lemma CallKeepsLoads(s: System, t: Tid, id: string)
    requires LoadInv(s.core, s.threads) && Enabled(s, Call(t, id))
    ensures LoadInv(NextCall(s, t, id).core, NextCall(s, t, id).threads)
  {
    hide LoadInv, MoveToFront, Position, Cached;
    var s' := NextCall(s, t, id);
    if s'.threads[t].Opening? {
      LoadsAfterClaim(s.core, s.threads, t, id);
    } else {
      LoadsAfterRelabel(s.core, s.threads, t, s'.threads[t]);
      SameLoads(s.core, s'.core, s'.threads);
    }
  }

  lemma CallKeepsEntries(c: Core, id: string)
    requires Unique(c.cache)
    ensures forall e :: e in BeginGet(c, id).0.cache <==> e in c.cache
    ensures BeginGet(c, id).0.closes == c.closes
  {
    if !c.closed && Cached(c.cache, id) {
      MoveSame(c.cache, Position(c.cache, id));
    }
  }

  lemma CallKeepsHandles(s: System, t: Tid, id: string)
    requires HandleInv(s) && Unique(s.core.cache) && Enabled(s, Call(t, id))
    ensures HandleInv(NextCall(s, t, id))
  {
    CallKeepsEntries(s.core, id);
    hide HandleInv, BeginGet, Unique;
    HandlesStay(s, NextCall(s, t, id));
  }

  lemma CallKeepsQuiet(s: System, t: Tid, id: string)
    requires s.core.closed ==> !InstallsPending(s.threads)
    ensures var s' := NextCall(s, t, id);
            !s'.crashed == !s.crashed && (s'.core.closed ==> !InstallsPending(s'.threads))
  {
    hide Cached, MoveToFront, Position;
  }

  lemma CallKeepsList(max: nat, s: System, t: Tid, id: string)
    requires ListInv(max, s.core)
    ensures ListInv(max, NextCall(s, t, id).core)
  {
    hide ListInv, BeginGet;
    ListBegin(max, s.core, id);
  }

  lemma CallKeepsInv(max: nat, s: System, t: Tid, id: string)
    requires Inv(max, s) && Enabled(s, Call(t, id))
    ensures Inv(max, NextCall(s, t, id))
  {
    assert Unique(s.core.cache);
    hide LoadInv, HandleInv, ListInv, NextCall, Unique, InstallsPending;
    CallKeepsList(max, s, t, id);
    CallKeepsLoads(s, t, id);
    CallKeepsHandles(s, t, id);
    CallKeepsQuiet(s, t, id);
  }

  lemma SameLoads(c: Core, c': Core, threads: map<Tid, Thread>)
    requires LoadInv(c, threads) && c'.loading == c.loading && c'.published == c.published && c'.nextOp == c.nextOp
    ensures LoadInv(c', threads)
  {
  }

  lemma OpenKeepsInv(max: nat, s: System, t: Tid, ok: bool)
    requires Inv(max, s) && Enabled(s, OpenDone(t, ok))
    ensures Inv(max, NextOpen(s, t, ok))
  {
    var s' := NextOpen(s, t, ok);
    assert ThreadOk(s.core.loading, s.core.published, s.threads[t]);
    LoadsAfterRelabel(s.core, s.threads, t, s'.threads[t]);
    if ok {
      HandlesAfterOpen(s, t);
    } else {
      hide HandleInv, LoadInv;
      HandlesStay(s, s');
    }
  }

  lemma WakeKeepsInv(max: nat, s: System, t: Tid)
    requires Inv(max, s) && Enabled(s, Wake(t))
    ensures Inv(max, Next(max, s, Wake(t)))
  {
    var s' := Next(max, s, Wake(t));
    LoadsAfterRelabel(s.core, s.threads, t, s'.threads[t]);
    hide HandleInv, LoadInv;
    HandlesStay(s, s');
  }

  lemma DropKeepsInv(max: nat, s: System, id: string)
    requires Inv(max, s)
    ensures Inv(max, s.(core := Drop(s.core, id)))
  {
    ListDrop(max, s.core, id);
    if Cached(s.core.cache, id) {
      var i := Position(s.core.cache, id);
      WithoutOne(s.core.cache, i);
      hide HandleInv, Without;
      HandlesAfterRemoval(s, s.(core := Drop(s.core, id)), s.core.cache[i]);
    }
  }

  lemma ShutKeepsInv(max: nat, s: System)
    requires Inv(max, s) && !InstallsPending(s.threads)
    ensures Inv(max, s.(core := Close(s.core)))
  {
    if !s.core.closed {
      hide HandleInv;
      HandlesAfterClose(s, s.(core := Close(s.core)));
    }
  }

  /** What a publishing thread may rely on: its load is the current one, no entry for its id has appeared
      meanwhile, so the lost-race branch is dead, and if it has a handle to install the manager is not shut. */
  lemma NoRaceAtPublish(max: nat, s: System, t: Tid)
    requires Inv(max, s) && Enabled(s, Publish(t))
    ensures var th := s.threads[t];
            && th.id in s.core.loading && s.core.loading[th.id] == th.op && th.op !in s.core.published
            && !Cached(s.core.cache, th.id)
            && (th.result.Some? ==>
                  && !s.core.closed && !s.core.indexNil
                  && !InCache(s.core.cache, th.result.value) && s.core.closes[th.result.value] == 0)
  {
    var th := s.threads[t];
    assert ThreadOk(s.core.loading, s.core.published, th);
    if th.result.Some? {
      var h := th.result.value;
      assert MayInstall(th) && Awaits(th, h) && Awaited(s.threads, h);
      assert Places(s, h) == One(h < s.next);
    }
  }

  /** The system with the last entry evicted, where the list is full: half way through an install. */
  ghost function RoomMade(max: nat, s: System): System
    requires max >= 1
  {
    if |s.core.cache| < max then s
    else
      var last := |s.core.cache| - 1;
      var closes := s.core.closes + multiset{s.core.cache[last].handle};
      s.(core := s.core.(cache := Without(s.core.cache, last), closes := closes))
  }

  lemma HandlesAfterMakingRoom(max: nat, s: System)
    requires max >= 1 && HandleInv(s) && Unique(s.core.cache)
    ensures HandleInv(RoomMade(max, s))
  {
    if |s.core.cache| >= max {
      var last := |s.core.cache| - 1;
      WithoutOne(s.core.cache, last);
      assert s.core.cache[last] in s.core.cache;
      hide HandleInv, Without;
      HandlesAfterRemoval(s, RoomMade(max, s), s.core.cache[last]);
    }
  }

  /** The core after a publication: room is made, then the entry goes first. */
  lemma PublishShape(max: nat, s: System, t: Tid, e: Entry)
    requires Inv(max, s) && Enabled(s, Publish(t))
    requires s.threads[t].result == Some(e.handle) && s.threads[t].id == e.id
    ensures var s', room := NextPublish(max, s, t), RoomMade(max, s);
            && s'.core.cache == [e] + room.core.cache && s'.core.closes == room.core.closes
            && s' == s.(core := s'.core, history := s'.history, threads := s.threads[t := s'.threads[t]])
            && s'.threads[t].Returned?
  {
    NoRaceAtPublish(max, s, t);
    var Loaded(id, op, result) := s.threads[t];
    var c1 := s.core.(published := s.core.published[op := result], loading := s.core.loading - {id});
    assert max >= 1 && |s.core.cache| <= max;
    hide Inv, Install, Cached, Without;
    InstallShape(c1, id, e.handle, max);
  }

  lemma RoomMadeKeeps(max: nat, s: System)
    requires max >= 1
    ensures var room := RoomMade(max, s);
            room.next == s.next && room.owner == s.owner && room.threads == s.threads
  {
  }

  lemma PublishHandsOver(max: nat, s: System, t: Tid, e: Entry)
    requires Inv(max, s) && Enabled(s, Publish(t))
    requires s.threads[t].result == Some(e.handle) && s.threads[t].id == e.id
    ensures HandsOver(RoomMade(max, s), NextPublish(max, s, t), t, e)
  {
    assert max >= 1;
    hide Inv, NextPublish, RoomMade;
    PublishShape(max, s, t, e);
    RoomMadeKeeps(max, s);
    var rest := RoomMade(max, s).core.cache;
    assert forall x :: x in [e] + rest <==> x in rest || x == e;
  }

  lemma PublishKeepsHandles(max: nat, s: System, t: Tid)
    requires Inv(max, s) && Enabled(s, Publish(t))
    ensures HandleInv(NextPublish(max, s, t))
  {
    var Loaded(id, op, result) := s.threads[t];
    var s' := NextPublish(max, s, t);
    if result.None? {
      hide HandleInv, LoadInv, Unique;
      HandlesStay(s, s');
    } else {
      PublishHandsOver(max, s, t, Entry(id, result.value));
      hide HandleInv, LoadInv, Unique, HandsOver, NextPublish, RoomMade;
      HandlesAfterMakingRoom(max, s);
      HandlesAfterPush(RoomMade(max, s), s', t, Entry(id, result.value));
    }
  }

  lemma PublishKeepsLoads(max: nat, s: System, t: Tid)
    requires Inv(max, s) && Enabled(s, Publish(t))
    ensures LoadInv(NextPublish(max, s, t).core, NextPublish(max, s, t).threads)
  {
    NoRaceAtPublish(max, s, t);
    var Loaded(id, op, result) := s.threads[t];
    var s' := NextPublish(max, s, t);
    var c1 := s.core.(published := s.core.published[op := result], loading := s.core.loading - {id});
    hide HandleInv, LoadInv, Install, Cached, InCache;
    if result.Some? {
      InstallShape(c1, id, result.value, max);
    }
    LoadsAfterPublish(s.core, s'.core, s.threads, t);
  }

  lemma PublishKeepsInv(max: nat, s: System, t: Tid)
    requires Inv(max, s) && Enabled(s, Publish(t))
    ensures Inv(max, NextPublish(max, s, t))
  {
    NoRaceAtPublish(max, s, t);
    var Loaded(id, op, result) := s.threads[t];
    hide HandleInv, LoadInv, ListInv, FinishGet, Cached, InCache;
    ListFinish(max, s.core, id, op, result);
    PublishKeepsHandles(max, s, t);
    PublishKeepsLoads(max, s, t);
  }

  /** Close runs when nobody may yet install a handle; the server's shutdown order, which lets no request
      be in flight at all, sees to it. */
  ghost predicate Quiet(s: System, e: Event) {
    e.Shut? ==> !InstallsPending(s.threads)
  }

  lemma StepKeepsInv(max: nat, s: System, e: Event)
    requires Inv(max, s) && Enabled(s, e) && Quiet(s, e)
    ensures Inv(max, Next(max, s, e))
  {
    hide Inv, NextCall, NextOpen, NextPublish, Drop, Close;
    match e
    case Call(t, id) => CallKeepsInv(max, s, t, id);
    case OpenDone(t, ok) => OpenKeepsInv(max, s, t, ok);
    case Publish(t) => PublishKeepsInv(max, s, t);
    case Wake(t) => WakeKeepsInv(max, s, t);
    case DropStore(id) => DropKeepsInv(max, s, id);
    case Shut => ShutKeepsInv(max, s);
  }

  // ---------- Whole runs ----------

  /** A run from the start: any interleaving of enabled events, with no install pending at a Close. */
  ghost predicate IsRun(max: nat, states: seq<System>, events: seq<Event>) {
    && max >= 1
    && |states| == |events| + 1 && states[0] == START
    && forall i :: 0 <= i < |events| ==>
         && Enabled(states[i], events[i]) && Quiet(states[i], events[i])
         && states[i + 1] == Next(max, states[i], events[i])
  }

  lemma StartIsGood(max: nat)
    requires max >= 1
    ensures Inv(max, START)
  {
    forall h: Handle ensures Places(START, h) == 0 {
      assert !InCache(START.core.cache, h) && !Awaited(START.threads, h);
    }
  }

  lemma {:induction false} RunKeepsInv(max: nat, states: seq<System>, events: seq<Event>, n: nat)
    requires IsRun(max, states, events) && n <= |events|
    ensures Inv(max, states[n])
    decreases n
  {
    hide Inv;
    if n == 0 {
      StartIsGood(max);
    } else {
      RunKeepsInv(max, states, events, n - 1);
      StepKeepsInv(max, states[n - 1], events[n - 1]);
    }
  }

  /** In every interleaving each opened handle is in exactly one place: about to be installed by one
      thread, cached, or closed once.  At most `max` are cached, and after Close all are closed. */
  lemma HandleConservation(max: nat, states: seq<System>, events: seq<Event>, n: nat, h: Handle)
    requires IsRun(max, states, events) && n <= |events|
    ensures var s := states[n];
            && One(InCache(s.core.cache, h)) + One(Awaited(s.threads, h)) + s.core.closes[h] == One(h < s.next)
            && |s.core.cache| <= max
            && (s.core.closed && h < s.next ==> s.core.closes[h] == 1)
  {
    RunKeepsInv(max, states, events, n);
    var s := states[n];
    assert Places(s, h) == One(h < s.next);
    assert forall t :: t in s.threads && Awaits(s.threads[t], h) ==> MayInstall(s.threads[t]);
  }

  /** When a thread starts to open an id, nobody else is opening it, and every handle ever opened for
      it has been closed. */
  lemma OpensAreExclusive(max: nat, states: seq<System>, events: seq<Event>, n: nat, h: Handle, u: Tid)
    requires IsRun(max, states, events) && n < |events|
    requires events[n].Call? && states[n + 1].threads[events[n].thread].Opening?
    ensures var s, id := states[n], events[n].id;
            && !Loads(s.threads, u, id)
            && (h in s.owner && s.owner[h] == id ==> s.core.closes[h] == 1)
  {
    RunKeepsInv(max, states, events, n);
    var s, id := states[n], events[n].id;
    assert Enabled(s, events[n]) && states[n + 1] == NextCall(s, events[n].thread, id);
    assert id !in s.core.loading && !Cached(s.core.cache, id);
    forall t | t in s.threads && IsLoader(s.threads[t]) ensures s.threads[t].id != id {
      assert ThreadOk(s.core.loading, s.core.published, s.threads[t]);
    }
    if h in s.owner && s.owner[h] == id {
      CachedMeans(s.core.cache, id);
      assert Places(s, h) == 1;
      assert !InCache(s.core.cache, h) && !Awaited(s.threads, h);
    }
  }

  /** When an open delivers a handle, outside the mutex, nobody else is opening that id and every other
      handle ever opened for it has been closed. */
  lemma OpenDeliversTheOnlyHandle(max: nat, states: seq<System>, events: seq<Event>, n: nat, h: Handle, u: Tid)
    requires IsRun(max, states, events) && n < |events| && events[n].OpenDone? && events[n].ok
    ensures var s, t := states[n], events[n].thread;
            var id := s.threads[t].id;
            && (Loads(s.threads, u, id) ==> u == t)
            && (h in s.owner && s.owner[h] == id ==> s.core.closes[h] == 1)
            && states[n + 1].owner == s.owner[s.next := id] && s.next !in s.owner
  {
    RunKeepsInv(max, states, events, n);
    var s, t := states[n], events[n].thread;
    assert Enabled(s, events[n]) && states[n + 1] == NextOpen(s, t, true);
    var id := s.threads[t].id;
    assert ThreadOk(s.core.loading, s.core.published, s.threads[t]) && Loads(s.threads, t, id);
    if h in s.owner && s.owner[h] == id {
      CachedMeans(s.core.cache, id);
      assert Places(s, h) == 1;
      assert !InCache(s.core.cache, h);
      if Awaited(s.threads, h) {
        var v :| v in s.threads && Awaits(s.threads[v], h);
        assert Loads(s.threads, v, id);
      }
    }
  }

  /** The second critical section never loses a race and never writes a nil index; what it installs
      goes first in the list, so an install does not evict its own handle. */
  lemma PublishInstalls(max: nat, states: seq<System>, events: seq<Event>, n: nat)
    requires IsRun(max, states, events) && n < |events| && events[n].Publish?
    ensures var s, s', th := states[n], states[n + 1], states[n].threads[events[n].thread];
            && !Cached(s.core.cache, th.id) && !s'.crashed
            && (th.result.Some? ==>
                  && !s.core.indexNil && s'.core.cache != [] && s'.core.cache[0] == Entry(th.id, th.result.value)
                  && s'.core.closes[th.result.value] == 0)
  {
    RunKeepsInv(max, states, events, n);
    RunKeepsInv(max, states, events, n + 1);
    var s, s', t := states[n], states[n + 1], events[n].thread;
    assert Enabled(s, events[n]) && s' == NextPublish(max, s, t);
    NoRaceAtPublish(max, s, t);
    var Loaded(id, op, result) := s.threads[t];
    if result.Some? {
      var c1 := s.core.(published := s.core.published[op := result], loading := s.core.loading - {id});
      InstallShape(c1, id, result.value, max);
      assert s'.core == Install(c1, id, result.value, max);
      hide Install, LoadInv, ListInv;
      assert s'.core.cache[0] in s'.core.cache;
      assert InCache(s'.core.cache, result.value);
      assert Places(s', result.value) == One(result.value < s'.next);
    }
  }

  lemma HitIsFirst(c: Core, id: string)
    requires BeginGet(c, id).1.Hit?
    ensures var (c', begun) := BeginGet(c, id);
            c'.cache != [] && c'.cache[0] == Entry(id, begun.handle) && c'.cache[0] in c.cache
  {
    assert MoveToFront(c.cache, Position(c.cache, id))[0] == c.cache[Position(c.cache, id)];
    hide MoveToFront, Cached;
  }

  lemma HitGoesFirst(s: System, t: Tid, id: string, h: Handle)
    requires NextCall(s, t, id).threads[t] == Returned(id, None, Got(h))
    ensures var s' := NextCall(s, t, id);
            s'.core.cache != [] && s'.core.cache[0] == Entry(id, h)
  {
    hide BeginGet;
    if BeginGet(s.core, id).1.Hit? {
      HitIsFirst(s.core, id);
    }
  }

  /** A caller that is answered from the list gets a handle that is open, and was opened for its id. */
  lemma HitsAreOpen(max: nat, states: seq<System>, events: seq<Event>, n: nat, h: Handle)
    requires IsRun(max, states, events) && n < |events| && events[n].Call?
    requires states[n + 1].threads[events[n].thread] == Returned(events[n].id, None, Got(h))
    ensures var s' := states[n + 1];
            && h in s'.owner && s'.owner[h] == events[n].id && s'.core.closes[h] == 0
            && s'.core.cache != [] && s'.core.cache[0] == Entry(events[n].id, h)
  {
    RunKeepsInv(max, states, events, n + 1);
    var s, s', id := states[n], states[n + 1], events[n].id;
    assert Enabled(s, events[n]) && s' == NextCall(s, events[n].thread, id);
    hide IsRun, LoadInv, ListInv, HandleInv;
    HitGoesFirst(s, events[n].thread, id, h);
    assert s'.core.cache[0] in s'.core.cache;
    hide NextCall;
    assert InCache(s'.core.cache, h);
    assert Places(s', h) == One(h < s'.next);
  }

  lemma FinishPublishes(c: Core, id: string, op: OpId, result: Option<Handle>, max: nat)
    ensures FinishGet(c, id, op, result, max).published == c.published[op := result]
  {
  }

  lemma StepKeepsPublished(max: nat, s: System, e: Event, op: OpId)
    requires Inv(max, s) && Enabled(s, e) && op in s.core.published
    ensures var c' := Next(max, s, e).core;
            op in c'.published && c'.published[op] == s.core.published[op]
  {
    if e.Publish? {
      NoRaceAtPublish(max, s, e.thread);
      var Loaded(id, op', result) := s.threads[e.thread];
      FinishPublishes(s.core, id, op', result, max);
    }
    hide FinishGet, Inv, Cached, MoveToFront, Position, Handles, Without;
  }

  /** Once an operation is published its result never changes. */
  lemma {:induction false} PublishedOnce(max: nat, states: seq<System>, events: seq<Event>, i: nat, j: nat, op: OpId)
    requires IsRun(max, states, events) && i <= j <= |events| && op in states[i].core.published
    ensures op in states[j].core.published && states[j].core.published[op] == states[i].core.published[op]
    decreases j
  {
    hide Inv, Next;
    if i == j {
    } else {
      PublishedOnce(max, states, events, i, j - 1, op);
      RunKeepsInv(max, states, events, j - 1);
      assert Enabled(states[j - 1], events[j - 1]);
      StepKeepsPublished(max, states[j - 1], events[j - 1], op);
    }
  }

  /** All callers served by one load operation, whether they opened or waited, and whenever they
      return, get the same outcome. */
  lemma SameLoadSameOutcome(max: nat, states: seq<System>, events: seq<Event>, i: nat, j: nat, t: Tid, u: Tid)
    requires IsRun(max, states, events) && i <= j <= |events|
    requires t in states[i].threads && states[i].threads[t].Returned? && states[i].threads[t].via.Some?
    requires u in states[j].threads && states[j].threads[u].Returned?
    requires states[j].threads[u].via == states[i].threads[t].via
    ensures states[i].threads[t].outcome == states[j].threads[u].outcome
  {
    RunKeepsInv(max, states, events, i);
    RunKeepsInv(max, states, events, j);
    assert ThreadOk(states[i].core.loading, states[i].core.published, states[i].threads[t]);
    assert ThreadOk(states[j].core.loading, states[j].core.published, states[j].threads[u]);
    PublishedOnce(max, states, events, i, j, states[i].threads[t].via.value);
  }

  // ---------- Tenant isolation ----------

  ghost predicate BelongsTo(owner: map<Handle, string>, h: Handle, id: string) {
    h in owner && owner[h] == id
  }

  /** What a thread has got, or will get when it wakes, was opened for the id it asked for. */
  ghost predicate OwnTenant(s: System, th: Thread) {
    && (th.Returned? && th.outcome.Got? ==> BelongsTo(s.owner, th.outcome.handle, th.id))
    && (th.Waiting? && th.op in s.core.published && s.core.published[th.op].Some? ==>
          BelongsTo(s.owner, s.core.published[th.op].value, th.id))
  }

  ghost predicate TenantInv(s: System) {
    forall t :: t in s.threads ==> OwnTenant(s, s.threads[t])
  }

  lemma OwnersGrow(max: nat, s: System, e: Event, h: Handle)
    requires Inv(max, s) && Enabled(s, e) && h in s.owner
    ensures h in Next(max, s, e).owner && Next(max, s, e).owner[h] == s.owner[h]
  {
    assert s.next !in s.owner;
    hide Inv, BeginGet, FinishGet, Drop, Close;
  }

  lemma CallerKeepsTenant(s: System, t: Tid, id: string)
    requires HandleInv(s) && LoadInv(s.core, s.threads) && Enabled(s, Call(t, id))
    ensures OwnTenant(NextCall(s, t, id), NextCall(s, t, id).threads[t])
  {
    if BeginGet(s.core, id).1.Hit? {
      HitIsFirst(s.core, id);
    }
    if id in s.core.loading {
      UnpublishedLoad(s, id);
    }
    BegunMeans(s.core, id);
    hide LoadInv, BeginGet;
  }

  lemma BegunMeans(c: Core, id: string)
    ensures var (c', begun) := BeginGet(c, id);
            && c'.published == c.published
            && (begun.Wait? ==> id in c.loading && begun.op == c.loading[id])
  {
    hide Cached, MoveToFront, Position;
  }

  lemma PublisherKeepsTenant(max: nat, s: System, t: Tid)
    requires Inv(max, s) && Enabled(s, Publish(t))
    ensures t in NextPublish(max, s, t).threads && OwnTenant(NextPublish(max, s, t), NextPublish(max, s, t).threads[t])
  {
    NoRaceAtPublish(max, s, t);
    var th := s.threads[t];
    assert th.result.Some? ==> Awaits(th, th.result.value);
    hide FinishGet, LoadInv, ListInv;
  }

  lemma MoverKeepsTenant(max: nat, s: System, e: Event)
    requires Inv(max, s) && TenantInv(s) && Enabled(s, e)
    requires e.Call? || e.OpenDone? || e.Publish? || e.Wake?
    ensures var s' := Next(max, s, e);
            e.thread in s'.threads && OwnTenant(s', s'.threads[e.thread])
  {
    hide HandleInv, LoadInv, ListInv, BeginGet, FinishGet;
    if e.Publish? {
      PublisherKeepsTenant(max, s, e.thread);
    } else if e.Call? {
      CallerKeepsTenant(s, e.thread, e.id);
    } else if e.Wake? {
      assert OwnTenant(s, s.threads[e.thread]);
    }
  }

  lemma UnpublishedLoad(s: System, id: string)
    requires LoadInv(s.core, s.threads) && id in s.core.loading
    ensures s.core.loading[id] !in s.core.published
  {
  }

  /** A thread that did not move keeps its tenant if its result, if any, was published before. */
  lemma StillOwnTenant(s: System, s': System, th: Thread)
    requires OwnTenant(s, th)
    requires forall h :: h in s.owner ==> h in s'.owner && s'.owner[h] == s.owner[h]
    requires th.Waiting? && th.op in s'.core.published ==>
               th.op in s.core.published && s'.core.published[th.op] == s.core.published[th.op]
    ensures OwnTenant(s', th)
  {
  }

  /** A publication brings its waiters the result of their own load. */
  lemma WaiterKeepsTenant(max: nat, s: System, t: Tid, u: Tid)
    requires Inv(max, s) && TenantInv(s) && Enabled(s, Publish(t)) && u in s.threads && u != t
    ensures OwnTenant(NextPublish(max, s, t), s.threads[u])
  {
    var s', th := NextPublish(max, s, t), s.threads[u];
    var Loaded(id, op, result) := s.threads[t];
    assert OwnTenant(s, th) && ThreadOk(s.core.loading, s.core.published, th);
    NoRaceAtPublish(max, s, t);
    FinishPublishes(s.core, id, op, result, max);
    if th.Waiting? && th.op == op {
      assert th.id == id;
      assert result.Some? ==> Awaits(s.threads[t], result.value);
    } else {
      hide FinishGet, ListInv, LoadInv, HandleInv, ThreadOk;
      StillOwnTenant(s, s', th);
    }
    hide FinishGet, ListInv;
  }

  lemma OnlyPublishPublishes(max: nat, s: System, e: Event)
    requires Enabled(s, e) && !e.Publish?
    ensures Next(max, s, e).core.published == s.core.published
  {
    hide Cached, MoveToFront, Position, Handles, Without;
  }

  lemma OthersStay(max: nat, s: System, e: Event, u: Tid)
    requires Enabled(s, e) && u in s.threads && (e.DropStore? || e.Shut? || e.thread != u)
    ensures u in Next(max, s, e).threads && Next(max, s, e).threads[u] == s.threads[u]
  {
    hide BeginGet, FinishGet, Drop, Close;
  }

  lemma BystanderKeepsTenant(max: nat, s: System, e: Event, u: Tid)
    requires Inv(max, s) && TenantInv(s) && Enabled(s, e) && u in s.threads
    requires e.DropStore? || e.Shut? || e.thread != u
    ensures var s' := Next(max, s, e);
            u in s'.threads && OwnTenant(s', s'.threads[u])
  {
    OthersStay(max, s, e, u);
    if e.Publish? {
      WaiterKeepsTenant(max, s, e.thread, u);
    } else {
      hide Inv, OwnTenant;
      OnlyPublishPublishes(max, s, e);
      forall h | h in s.owner ensures h in Next(max, s, e).owner && Next(max, s, e).owner[h] == s.owner[h] {
        OwnersGrow(max, s, e, h);
      }
      hide Next, Enabled;
      StillOwnTenant(s, Next(max, s, e), s.threads[u]);
    }
  }

  lemma StepKeepsTenants(max: nat, s: System, e: Event)
    requires Inv(max, s) && TenantInv(s) && Enabled(s, e) && Quiet(s, e)
    ensures TenantInv(Next(max, s, e))
  {
    hide Inv, OwnTenant, Quiet, BeginGet, FinishGet, Drop, Close;
    var s' := Next(max, s, e);
    forall u | u in s'.threads ensures OwnTenant(s', s'.threads[u]) {
      if (e.DropStore? || e.Shut?) || e.thread != u {
        BystanderKeepsTenant(max, s, e, u);
      } else {
        MoverKeepsTenant(max, s, e);
      }
    }
  }

  lemma {:induction false} RunKeepsTenants(max: nat, states: seq<System>, events: seq<Event>, n: nat)
    requires IsRun(max, states, events) && n <= |events|
    ensures TenantInv(states[n])
    decreases n
  {
    hide Inv, Next, OwnTenant;
    if n == 0 {
      assert states[0].threads == map[];
    } else {
      RunKeepsTenants(max, states, events, n - 1);
      RunKeepsInv(max, states, events, n - 1);
      StepKeepsTenants(max, states[n - 1], events[n - 1]);
    }
  }

  /** Tenant isolation: in every interleaving, whoever gets a handle from Get, by a hit, by opening or by
      waiting, gets one that was opened for the id it asked for. */
  lemma EveryoneGetsTheirOwnStore(max: nat, states: seq<System>, events: seq<Event>, n: nat, t: Tid)
    requires IsRun(max, states, events) && n <= |events|
    requires t in states[n].threads && states[n].threads[t].Returned? && states[n].threads[t].outcome.Got?
    ensures var th := states[n].threads[t];
            th.outcome.handle in states[n].owner && states[n].owner[th.outcome.handle] == th.id
  {
    RunKeepsTenants(max, states, events, n);
    assert OwnTenant(states[n], states[n].threads[t]);
  }

  // ---------- The list is the recency of the touches ----------

  ghost predicate FollowsHistory(max: nat, s: System) {
    Ids(s.core.cache) == Take(Recency(s.history), max)
  }

  lemma CallFollowsHistory(max: nat, s: System, t: Tid, id: string)
    requires Inv(max, s) && FollowsHistory(max, s)
    ensures FollowsHistory(max, NextCall(s, t, id))
  {
    hide LoadInv, HandleInv, Recency, MoveToFront, Position;
    if id != "" && !s.core.closed && Cached(s.core.cache, id) {
      UniqueImpliesUniqueIds(s.core.cache);
      HitIsTouch(s.core.cache, id, max);
      TouchIsRecency(s.history, id, max);
    }
    hide Cached, Touch, Ids;
  }

  lemma PublishFollowsHistory(max: nat, s: System, t: Tid)
    requires Inv(max, s) && Enabled(s, Publish(t)) && FollowsHistory(max, s)
    ensures FollowsHistory(max, NextPublish(max, s, t))
  {
    NoRaceAtPublish(max, s, t);
    var Loaded(id, op, result) := s.threads[t];
    hide LoadInv, HandleInv, Recency, Install, Touch, Ids, Take, Cached;
    if result.Some? {
      var c1 := s.core.(published := s.core.published[op := result], loading := s.core.loading - {id});
      InstallIsTouch(c1, id, result.value, max);
      TouchIsRecency(s.history, id, max);
    }
  }

  lemma StepFollowsHistory(max: nat, s: System, e: Event)
    requires Inv(max, s) && Enabled(s, e) && !e.DropStore? && !e.Shut?
    requires FollowsHistory(max, s)
    ensures FollowsHistory(max, Next(max, s, e))
  {
    if e.Call? {
      CallFollowsHistory(max, s, e.thread, e.id);
    } else if e.Publish? {
      PublishFollowsHistory(max, s, e.thread);
    }
    hide Inv, NextCall, NextPublish, Recency, Take;
  }

  /** Without drops, and until Close, the list is at all times exactly the most recently touched
      distinct ids, as many as fit. */
  lemma {:induction false} ListIsRecency(max: nat, states: seq<System>, events: seq<Event>, n: nat)
    requires IsRun(max, states, events) && n <= |events|
    requires forall i :: 0 <= i < n ==> !events[i].DropStore? && !events[i].Shut?
    ensures FollowsHistory(max, states[n])
    decreases n
  {
    if n == 0 {
    } else {
      ListIsRecency(max, states, events, n - 1);
      RunKeepsInv(max, states, events, n - 1);
      hide Inv, FollowsHistory;
      assert Enabled(states[n - 1], events[n - 1]);
      StepFollowsHistory(max, states[n - 1], events[n - 1]);
    }
  }

  // ---------- When exactly Close is safe ----------

  /** Any continuation from any state, whatever is pending when Close runs. */
  ghost predicate Continues(max: nat, states: seq<System>, events: seq<Event>) {
    && |states| == |events| + 1
    && forall i :: 0 <= i < |events| ==>
         Enabled(states[i], events[i]) && states[i + 1] == Next(max, states[i], events[i])
  }

  ghost predicate EndsInCrash(max: nat, states: seq<System>, events: seq<Event>) {
    Continues(max, states, events) && states[|events|].crashed
  }

  lemma FinishKeepsClosed(c: Core, id: string, op: OpId, result: Option<Handle>, max: nat)
    ensures FinishGet(c, id, op, result, max).closed == c.closed
  {
  }

  lemma ClosedForGood(max: nat, s: System, e: Event)
    requires s.core.closed && Enabled(s, e)
    ensures Next(max, s, e).core.closed
  {
    if e.Publish? {
      var Loaded(id, op, result) := s.threads[e.thread];
      FinishKeepsClosed(s.core, id, op, result, max);
    }
    hide FinishGet, Cached, MoveToFront, Position, Handles, Without;
  }

  lemma {:induction false} ClosedStaysSafe(max: nat, states: seq<System>, events: seq<Event>, n: nat)
    requires Continues(max, states, events) && n <= |events| && Inv(max, states[0]) && states[0].core.closed
    ensures Inv(max, states[n]) && states[n].core.closed
    decreases n
  {
    if n == 0 {
    } else {
      ClosedStaysSafe(max, states, events, n - 1);
      assert !InstallsPending(states[n - 1].threads);
      hide Inv, Next;
      assert Enabled(states[n - 1], events[n - 1]);
      ClosedForGood(max, states[n - 1], events[n - 1]);
      StepKeepsInv(max, states[n - 1], events[n - 1]);
    }
  }

  lemma LoadedCrashes(max: nat, s: System, t: Tid) returns (states: seq<System>, events: seq<Event>)
    requires !s.crashed && s.core.indexNil && t in s.threads && s.threads[t].Loaded? && s.threads[t].result.Some?
    ensures |states| > 0 && states[0] == s && EndsInCrash(max, states, events)
  {
    events := [Publish(t)];
    states := [s, Next(max, s, Publish(t))];
  }

  lemma OpeningCrashes(max: nat, s: System, t: Tid) returns (states: seq<System>, events: seq<Event>)
    requires !s.crashed && s.core.indexNil && t in s.threads && s.threads[t].Opening?
    ensures |states| > 0 && states[0] == s && EndsInCrash(max, states, events)
  {
    events := [OpenDone(t, true), Publish(t)];
    var s1 := Next(max, s, OpenDone(t, true));
    states := [s, s1, Next(max, s1, Publish(t))];
  }

  /** A Close can be followed by a write to the nil index, in some continuation, exactly when it finds a
      thread that is opening a store or has opened one and not yet installed it. */
  lemma CloseCrashesIff(max: nat, s: System)
    requires Inv(max, s) && !s.core.closed
    ensures (exists states, events ::
               |states| > 0 && states[0] == Next(max, s, Shut) && EndsInCrash(max, states, events))
            <==> InstallsPending(s.threads)
  {
    var s1 := Next(max, s, Shut);
    if InstallsPending(s.threads) {
      var t :| t in s.threads && MayInstall(s.threads[t]);
      if s.threads[t].Opening? {
        var states, events := OpeningCrashes(max, s1, t);
      } else {
        var states, events := LoadedCrashes(max, s1, t);
      }
    } else {
      StepKeepsInv(max, s, Shut);
      forall states, events | |states| > 0 && states[0] == s1 && EndsInCrash(max, states, events) ensures false {
        ClosedStaysSafe(max, states, events, |events|);
      }
    }
  }
}
