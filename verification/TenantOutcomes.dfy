/** What each step of the tenant protocol must do, said of the list, the loads and the threads before and
    after it.  Together with the safety results these leave a step no freedom. */
module TenantOutcomes {
  import opened Wrappers
  import opened TenantCore
  import opened TenantProtocol

  ghost predicate BeingLoaded(s: System, id: string) {
    exists u :: Loads(s.threads, u, id)
  }

  ghost predicate OthersAsBefore(s: System, s': System, t: Tid) {
    && s'.threads.Keys == s.threads.Keys + {t}
    && forall u :: u in s.threads && u != t ==> s'.threads[u] == s.threads[u]
  }

  // ---------- Get: the first critical section ----------

  lemma LoadingMeans(s: System, id: string)
    requires LoadInv(s.core, s.threads)
    ensures id in s.core.loading <==> BeingLoaded(s, id)
    ensures forall u :: Loads(s.threads, u, id) ==> id in s.core.loading && s.threads[u].op == s.core.loading[id]
  {
    forall u | Loads(s.threads, u, id) ensures id in s.core.loading && s.threads[u].op == s.core.loading[id] {
      assert ThreadOk(s.core.loading, s.core.published, s.threads[u]);
    }
    if id in s.core.loading {
      var u :| Loads(s.threads, u, id);
    }
  }

  /** Where a caller stands after its first critical section. */
  ghost predicate CallLeads(s: System, id: string, th: Thread) {
    if id == "" then th == Returned(id, None, Rejected)
    else if s.core.closed then th == Returned(id, None, Refused)
    else
      && (th.Returned? <==> Cached(s.core.cache, id))
      && (th.Returned? ==>
            th.id == id && th.via == None && th.outcome.Got? && ListedFor(s.core.cache, id, th.outcome.handle))
      && (th.Waiting? <==> BeingLoaded(s, id))
      && (th.Waiting? ==> th.id == id && forall u :: Loads(s.threads, u, id) ==> th.op == s.threads[u].op)
      && (th.Opening? <==> !Cached(s.core.cache, id) && !BeingLoaded(s, id))
      && (th.Opening? ==>
            && th.id == id && th.op !in s.core.published
            && forall u :: LoaderAt(s.threads, u) ==> s.threads[u].op != th.op)
  }

  predicate LoaderAt(threads: map<Tid, Thread>, u: Tid) {
    u in threads && IsLoader(threads[u])
  }

  /** What a caller's first critical section does to the list and the loads. */
  ghost predicate CallTouches(s: System, s': System, id: string, th: Thread) {
    && s'.core == s.core.(cache := s'.core.cache, loading := s'.core.loading, nextOp := s'.core.nextOp)
    && s'.core.cache == (if th.Returned? && th.outcome.Got?
                         then [Entry(id, th.outcome.handle)] + Others(s.core.cache, id)
                         else s.core.cache)
    && s'.core.loading == (if th.Opening? then s.core.loading[id := th.op] else s.core.loading)
    && s'.next == s.next && s'.owner == s.owner
  }

  lemma HitMeans(c: Core, id: string)
    requires !c.closed && Cached(c.cache, id) && UniqueIds(c.cache)
    ensures var (c', begun) := BeginGet(c, id);
            && begun.Hit? && ListedFor(c.cache, id, begun.handle)
            && c' == c.(cache := [Entry(id, begun.handle)] + Others(c.cache, id))
  {
    var i := Position(c.cache, id);
    WithoutIsOthers(c.cache, i);
    assert c.cache[i] in c.cache;
    hide Others, Without;
  }

  lemma MissMeans(c: Core, id: string)
    requires !Cached(c.cache, id) || c.closed
    ensures var (c', begun) := BeginGet(c, id);
            if c.closed then c' == c && begun == Shutdown
            else if id in c.loading then c' == c && begun == Wait(c.loading[id])
            else begun == Claimed(c.nextOp) && c' == c.(loading := c.loading[id := c.nextOp], nextOp := c.nextOp + 1)
  {
    hide Cached;
  }

  lemma FreshOp(s: System)
    requires LoadInv(s.core, s.threads)
    ensures s.core.nextOp !in s.core.published
    ensures forall u :: LoaderAt(s.threads, u) ==> s.threads[u].op != s.core.nextOp
  {
    forall u | LoaderAt(s.threads, u) ensures s.threads[u].op != s.core.nextOp {
      assert ThreadOk(s.core.loading, s.core.published, s.threads[u]);
    }
  }

  lemma NotBoth(max: nat, s: System, id: string)
    requires Inv(max, s)
    ensures !(Cached(s.core.cache, id) && id in s.core.loading) && UniqueIds(s.core.cache)
  {
    UniqueImpliesUniqueIds(s.core.cache);
    hide LoadInv, HandleInv;
  }

  lemma CallOnHit(s: System, t: Tid, id: string)
    requires id != "" && !s.core.closed && Cached(s.core.cache, id) && UniqueIds(s.core.cache)
    ensures var s' := NextCall(s, t, id);
            && t in s'.threads && s'.threads[t].Returned? && s'.threads[t].id == id && s'.threads[t].via == None
            && s'.threads[t].outcome.Got? && ListedFor(s.core.cache, id, s'.threads[t].outcome.handle)
            && CallTouches(s, s', id, s'.threads[t])
  {
    HitMeans(s.core, id);
    hide BeginGet, ListedFor, Others, Cached;
  }

  lemma CallOnMiss(s: System, t: Tid, id: string)
    requires id == "" || s.core.closed || !Cached(s.core.cache, id)
    ensures var s' := NextCall(s, t, id);
            && t in s'.threads && CallTouches(s, s', id, s'.threads[t])
            && s'.threads[t] == if id == "" then Returned(id, None, Rejected)
                                else if s.core.closed then Returned(id, None, Refused)
                                else if id in s.core.loading then Waiting(id, s.core.loading[id])
                                else Opening(id, s.core.nextOp)
  {
    if id != "" {
      MissMeans(s.core, id);
    }
    hide BeginGet, Others, Cached;
  }

  lemma CallMeans(max: nat, s: System, t: Tid, id: string)
    requires Inv(max, s) && Enabled(s, Call(t, id))
    ensures var s' := NextCall(s, t, id);
            t in s'.threads && CallLeads(s, id, s'.threads[t]) && CallTouches(s, s', id, s'.threads[t])
  {
    assert LoadInv(s.core, s.threads);
    NotBoth(max, s, id);
    LoadingMeans(s, id);
    FreshOp(s);
    hide Inv, NextCall, LoadInv, BeingLoaded, Cached, ListedFor, Loads, UniqueIds, CallTouches, LoaderAt;
    if id != "" && !s.core.closed && Cached(s.core.cache, id) {
      CallOnHit(s, t, id);
    } else {
      CallOnMiss(s, t, id);
    }
  }

  /** In every interleaving, also while other ids are loading: a caller gets a handle at once exactly if its id
      is listed, waits for the thread that is loading it exactly if there is one, opens it exactly if neither
      holds, and is turned away exactly if the manager is shut. */
  lemma CallOutcome(max: nat, states: seq<System>, events: seq<Event>, n: nat)
    requires IsRun(max, states, events) && n < |events| && events[n].Call?
    ensures var s, s', t, id := states[n], states[n + 1], events[n].thread, events[n].id;
            && OthersAsBefore(s, s', t)
            && CallLeads(s, id, s'.threads[t]) && CallTouches(s, s', id, s'.threads[t])
  {
    RunKeepsInv(max, states, events, n);
    assert Enabled(states[n], events[n]) && states[n + 1] == Next(max, states[n], events[n]);
    hide Inv, CallLeads, CallTouches, NextCall, IsRun;
    CallMeans(max, states[n], events[n].thread, events[n].id);
    CallMovesOne(states[n], events[n].thread, events[n].id);
  }

  lemma CallMovesOne(s: System, t: Tid, id: string)
    ensures OthersAsBefore(s, NextCall(s, t, id), t)
  {
    hide BeginGet;
  }

  // ---------- The open, and the second critical section ----------

  /** An open that succeeds hands its thread a handle that never existed before; nothing under the lock changes. */
  lemma OpenOutcome(max: nat, states: seq<System>, events: seq<Event>, n: nat)
    requires IsRun(max, states, events) && n < |events| && events[n].OpenDone?
    ensures var s, s', t := states[n], states[n + 1], events[n].thread;
            var th := s.threads[t];
            && th.Opening? && OthersAsBefore(s, s', t) && s'.core == s.core
            && s'.threads[t] == Loaded(th.id, th.op, if events[n].ok then Some(s.next) else None)
            && s.next !in s.owner && s'.owner == if events[n].ok then s.owner[s.next := th.id] else s.owner
  {
    RunKeepsInv(max, states, events, n);
    assert Enabled(states[n], events[n]) && states[n + 1] == Next(max, states[n], events[n]);
    assert states[n].next !in states[n].owner;
    hide Inv;
  }

  /** A publishing loader returns what it opened, or the failure; its load is over and its result published;
      what it opened goes first, the rest of the list moves down, and only the last entry of a full list is
      closed; after a failure the list is as before. */
  ghost predicate Publishes(max: nat, s: System, s': System, t: Tid)
    requires t in s.threads && s.threads[t].Loaded? && t in s'.threads
  {
    var Loaded(id, op, result) := s.threads[t];
    var full := |s.core.cache| == max && max > 0;
    && s'.threads[t] == Returned(id, Some(op), if result.Some? then Got(result.value) else Failed)
    && s'.core.published == s.core.published[op := result] && s'.core.loading == s.core.loading - {id}
    && s'.core.closed == s.core.closed && s'.next == s.next && s'.owner == s.owner
    && (result.None? ==> s'.core.cache == s.core.cache && s'.core.closes == s.core.closes)
    && (result.Some? ==>
          && s'.core.cache == [Entry(id, result.value)] + (if full then s.core.cache[..max - 1] else s.core.cache)
          && (forall h :: s'.core.closes[h] == s.core.closes[h] + One(full && h == s.core.cache[max - 1].handle)))
  }

  /** Were an entry of the id listed after all, the listed handle would be kept, and moved to the front, and the
      newly opened one closed. */
  lemma LostRaceOutcome(c: Core, id: string, h: Handle, max: nat)
    requires Cached(c.cache, id) && UniqueIds(c.cache)
    ensures var c' := Install(c, id, h, max);
            && c'.cache != [] && c'.cache[0] in c.cache && c'.cache[0].id == id
            && c'.cache[1..] == Others(c.cache, id)
            && c' == c.(cache := c'.cache, closes := c.closes + multiset{h})
  {
    var i := Position(c.cache, id);
    WithoutIsOthers(c.cache, i);
    assert c.cache[i] in c.cache;
    hide Others, Without, Evict;
  }

  lemma CutLast(list: seq<Entry>)
    requires list != []
    ensures Without(list, |list| - 1) == list[..|list| - 1]
  {
  }

  lemma PublishSuccessMeans(max: nat, s: System, t: Tid)
    requires Inv(max, s) && Enabled(s, Publish(t)) && s.threads[t].result.Some?
    ensures var s' := NextPublish(max, s, t);
            t in s'.threads && Publishes(max, s, s', t)
  {
    NoRaceAtPublish(max, s, t);
    assert max >= 1 && |s.core.cache| <= max;
    var Loaded(id, op, result) := s.threads[t];
    var c1 := s.core.(published := s.core.published[op := result], loading := s.core.loading - {id});
    InstallShape(c1, id, result.value, max);
    if |s.core.cache| == max {
      CutLast(s.core.cache);
    }
    hide Inv, Install, Cached, InCache, Without;
  }

  lemma PublishMeans(max: nat, s: System, t: Tid)
    requires Inv(max, s) && Enabled(s, Publish(t))
    ensures var s' := NextPublish(max, s, t);
            t in s'.threads && Publishes(max, s, s', t)
  {
    hide Inv, Install;
    if s.threads[t].result.Some? {
      hide NextPublish, Publishes;
      PublishSuccessMeans(max, s, t);
    }
  }

  lemma PublishOutcome(max: nat, states: seq<System>, events: seq<Event>, n: nat)
    requires IsRun(max, states, events) && n < |events| && events[n].Publish?
    ensures var s, s', t := states[n], states[n + 1], events[n].thread;
            OthersAsBefore(s, s', t) && Publishes(max, s, s', t)
  {
    RunKeepsInv(max, states, events, n);
    assert Enabled(states[n], events[n]) && states[n + 1] == NextPublish(max, states[n], events[n].thread);
    PublishMeans(max, states[n], events[n].thread);
    NoRaceAtPublish(max, states[n], events[n].thread);
    hide Inv, Publishes, FinishGet;
  }

  /** A waiter that wakes returns the published result of the load it waited for. */
  lemma WakeOutcome(max: nat, states: seq<System>, events: seq<Event>, n: nat)
    requires IsRun(max, states, events) && n < |events| && events[n].Wake?
    ensures var s, s', u := states[n], states[n + 1], events[n].thread;
            && s.threads[u].Waiting? && s.threads[u].op in s.core.published
            && var Waiting(id, op) := s.threads[u];
               var result := s.core.published[op];
               && OthersAsBefore(s, s', u) && s'.core == s.core && s'.owner == s.owner
               && s'.threads[u] == Returned(id, Some(op), if result.Some? then Got(result.value) else Failed)
  {
    assert Enabled(states[n], events[n]) && states[n + 1] == Next(max, states[n], events[n]);
  }

  /** Delivery: whatever a loader opened, it returns, and so does everyone who waited for that load, however
      much later they wake. */
  lemma LoadIsDelivered(max: nat, states: seq<System>, events: seq<Event>, n: nat, m: nat, op: OpId, h: Handle)
    requires IsRun(max, states, events) && n < m < |events|
    requires events[n].Publish? && events[n].thread in states[n].threads
    requires states[n].threads[events[n].thread].Loaded?
    requires states[n].threads[events[n].thread].op == op && states[n].threads[events[n].thread].result == Some(h)
    requires events[m].Wake? && events[m].thread in states[m].threads
    requires states[m].threads[events[m].thread].Waiting? && states[m].threads[events[m].thread].op == op
    ensures states[n + 1].threads[events[n].thread].outcome == Got(h)
    ensures states[m + 1].threads[events[m].thread].Returned?
    ensures states[m + 1].threads[events[m].thread].outcome == Got(h)
  {
    PublishOutcome(max, states, events, n);
    PublishedOnce(max, states, events, n + 1, m, op);
    WakeOutcome(max, states, events, m);
    hide IsRun;
  }

  /** Nobody is stranded: in every reachable state, a thread still waiting can be woken at once, or waits for a
      load whose thread is alive and can take its next step. */
  lemma NoWaiterIsStranded(max: nat, states: seq<System>, events: seq<Event>, n: nat, u: Tid)
    requires IsRun(max, states, events) && n <= |events|
    requires u in states[n].threads && states[n].threads[u].Waiting?
    ensures var s, op := states[n], states[n].threads[u].op;
            || Enabled(s, Wake(u))
            || (exists t :: && Loads(s.threads, t, s.threads[u].id) && s.threads[t].op == op
                            && (Enabled(s, OpenDone(t, true)) || Enabled(s, Publish(t))))
  {
    RunKeepsInv(max, states, events, n);
    var s := states[n];
    assert ThreadOk(s.core.loading, s.core.published, s.threads[u]);
    if s.threads[u].op !in s.core.published {
      LoadingMeans(s, s.threads[u].id);
      var t :| Loads(s.threads, t, s.threads[u].id);
    }
    hide IsRun, ListInv, HandleInv;
  }

  // ---------- Drop and Close ----------

  /** Dropping an id takes its entry out of the list and closes its handle, for the first and only time; the
      other entries, the loads and the threads stay as they are. */
  lemma DropOutcome(max: nat, states: seq<System>, events: seq<Event>, n: nat, h: Handle)
    requires IsRun(max, states, events) && n < |events| && events[n].DropStore?
    ensures var s, s', id := states[n], states[n + 1], events[n].id;
            && s' == s.(core := s'.core) && Dropped(s.core, s'.core, id)
            && (ListedFor(s.core.cache, id, h) ==> s.core.closes[h] == 0 && s'.core.closes[h] == 1)
  {
    RunKeepsInv(max, states, events, n);
    var s, id := states[n], events[n].id;
    assert Enabled(s, events[n]) && states[n + 1] == Next(max, s, events[n]);
    UniqueImpliesUniqueIds(s.core.cache);
    DropMeans(s.core, id);
    if ListedFor(s.core.cache, id, h) {
      assert InCache(s.core.cache, h);
      assert Places(s, h) == One(h < s.next);
    }
    hide IsRun, Drop, ListInv, LoadInv;
  }

  /** Close empties the list, closes each listed handle, for the first and only time, and no other; a second
      Close changes nothing. */
  lemma CloseOutcome(max: nat, states: seq<System>, events: seq<Event>, n: nat, h: Handle)
    requires IsRun(max, states, events) && n < |events| && events[n].Shut?
    ensures var s, s' := states[n], states[n + 1];
            && s' == s.(core := s'.core)
            && s'.core == s.core.(cache := [], closed := true, indexNil := true, closes := s'.core.closes)
            && s'.core.closes[h] == s.core.closes[h] + One(InCache(s.core.cache, h))
            && (InCache(s.core.cache, h) ==> s.core.closes[h] == 0)
            && (s.core.closed ==> s' == s)
  {
    RunKeepsInv(max, states, events, n);
    var s := states[n];
    assert Enabled(s, events[n]) && states[n + 1] == Next(max, s, events[n]);
    HandlesOnce(s.core.cache, h);
    assert Places(s, h) == One(h < s.next);
    assert s.core.closed ==> s.core.cache == [] && s.core.indexNil;
    hide IsRun, LoadInv;
  }
}
