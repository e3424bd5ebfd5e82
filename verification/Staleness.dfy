/** Resolve racing with changes: each call is split into its cache lookup, its two store reads and its
    cache write, interleaved in any way with other calls, store writes and invalidations.

    The state is that of one (subject, genealogy) pair; entries of other pairs do not interact.  Steps
    are numbered, and every decision remembers at which steps its two reads were made. */
module Staleness {
  import opened Wrappers
  import opened Records
  import opened PlatformTables
  import opened Authz

  type CallId = nat

  datatype Reads = Reads(record: nat, row: nat)

  datatype Phase =
    | Missed(began: nat)
    | HasRecord(began: nat, recordAt: nat, record: Genealogy)
    | HasRow(began: nat, basis: Reads, decision: Decision)
    | Finished(began: nat, basis: Reads, result: Option<Decision>)

  datatype Cell = Cell(decision: Decision, expires: int, basis: Reads)

  /** `steps` counts the steps taken so far. */
  datatype World = World(
    steps: nat,
    clock: int,
    record: Option<Genealogy>,
    row: Option<Membership>,
    cache: Option<Cell>,
    calls: map<CallId, Phase>)

  datatype Event =
    | Advance(seconds: nat)
    | Begin(call: CallId)
    | ReadRecord(call: CallId)
    | ReadRow(call: CallId)
    | Put(call: CallId)
    | Change(record: Option<Genealogy>, row: Option<Membership>)
    | Invalidate

  datatype Setup = Setup(sub: string, ttl: int)

  predicate Enabled(w: World, e: Event) {
    match e
    case Begin(c) => c !in w.calls
    case ReadRecord(c) => c in w.calls && w.calls[c].Missed?
    case ReadRow(c) => c in w.calls && w.calls[c].HasRecord?
    case Put(c) => c in w.calls && w.calls[c].HasRow?
    case _ => true
  }

  function Next(p: Setup, w: World, e: Event): World
    requires Enabled(w, e)
  {
    var n := w.steps;
    var w1 := w.(steps := n + 1);
    match e
    case Advance(d) => w1.(clock := w.clock + d)
    case Begin(c) =>
      if w.cache.Some? && w.clock <= w.cache.value.expires then
        w1.(calls := w.calls[c := Finished(n, w.cache.value.basis, Some(w.cache.value.decision))])
      else w1.(calls := w.calls[c := Missed(n)])
    case ReadRecord(c) =>
      if w.record.None? then w1.(calls := w.calls[c := Finished(w.calls[c].began, Reads(n, n), None)])
      else w1.(calls := w.calls[c := HasRecord(w.calls[c].began, n, w.record.value)])
    case ReadRow(c) =>
      var HasRecord(began, at, record) := w.calls[c];
      var d := Decide(record, p.sub, w.row);
      if d.None? then w1.(calls := w.calls[c := Finished(began, Reads(at, n), None)])
      else w1.(calls := w.calls[c := HasRow(began, Reads(at, n), d.value)])
    case Put(c) =>
      var HasRow(began, basis, d) := w.calls[c];
      w1.(cache := Some(Cell(d, w.clock + p.ttl, basis)), calls := w.calls[c := Finished(began, basis, Some(d))])
    case Change(record, row) => w1.(record := record, row := row)
    case Invalidate => w1.(cache := None)
  }

  ghost predicate IsRun(p: Setup, ws: seq<World>, es: seq<Event>) {
    && |ws| == |es| + 1
    && ws[0].steps == 0 && ws[0].cache == None && ws[0].calls == map[]
    && forall i :: 0 <= i < |es| ==> Enabled(ws[i], es[i]) && ws[i + 1] == Next(p, ws[i], es[i])
  }

  predicate InFlight(w: World, c: CallId) {
    c in w.calls && !w.calls[c].Finished?
  }

  /** The reads were made after step `n`. */
  predicate MadeAfter(basis: Reads, n: nat) {
    basis.record > n && basis.row > n
  }

  // ---------- Monotone facts ----------

  lemma {:induction false} StepsAreIndices(p: Setup, ws: seq<World>, es: seq<Event>, n: nat)
    requires IsRun(p, ws, es) && n <= |es|
    ensures ws[n].steps == n
    decreases n
  {
    if n == 0 {
    } else {
      StepsAreIndices(p, ws, es, n - 1);
    }
  }

  lemma {:induction false} ClockIsMonotone(p: Setup, ws: seq<World>, es: seq<Event>, i: nat, j: nat)
    requires IsRun(p, ws, es) && i <= j <= |es|
    ensures ws[i].clock <= ws[j].clock
    decreases j
  {
    if i == j {
    } else {
      ClockIsMonotone(p, ws, es, i, j - 1);
    }
  }

  lemma {:induction false} FinishedForGood(p: Setup, ws: seq<World>, es: seq<Event>, i: nat, j: nat, c: CallId)
    requires IsRun(p, ws, es) && i <= j <= |es| && c in ws[i].calls && ws[i].calls[c].Finished?
    ensures c in ws[j].calls && ws[j].calls[c] == ws[i].calls[c]
    decreases j
  {
    if i == j {
    } else {
      FinishedForGood(p, ws, es, i, j - 1, c);
      assert Enabled(ws[j - 1], es[j - 1]);
    }
  }

  // ---------- Decisions are what the reads say ----------

  /** The decision drawn from the record as of one step and the row as of another. */
  ghost function DecisionOf(p: Setup, ws: seq<World>, basis: Reads): Option<Decision>
    requires basis.record < |ws| && basis.row < |ws|
  {
    if ws[basis.record].record.None? then None
    else Decide(ws[basis.record].record.value, p.sub, ws[basis.row].row)
  }

  ghost predicate PhaseHonest(p: Setup, ws: seq<World>, n: nat, ph: Phase)
    requires n < |ws|
  {
    match ph
    case Missed(_) => true
    case HasRecord(_, at, record) => at < n && ws[at].record == Some(record)
    case HasRow(_, basis, d) => basis.record < n && basis.row < n && DecisionOf(p, ws, basis) == Some(d)
    case Finished(_, basis, result) => basis.record < n && basis.row < n && DecisionOf(p, ws, basis) == result
  }

  ghost predicate Honest(p: Setup, ws: seq<World>, n: nat)
    requires n < |ws|
  {
    && (forall c :: c in ws[n].calls ==> PhaseHonest(p, ws, n, ws[n].calls[c]))
    && (ws[n].cache.Some? ==>
          var cell := ws[n].cache.value;
          cell.basis.record < n && cell.basis.row < n && DecisionOf(p, ws, cell.basis) == Some(cell.decision))
  }

  lemma HonestCall(p: Setup, ws: seq<World>, n: nat, e: Event, c: CallId)
    requires n + 1 < |ws| && Honest(p, ws, n) && ws[n].steps == n
    requires Enabled(ws[n], e) && ws[n + 1] == Next(p, ws[n], e) && c in ws[n + 1].calls
    ensures PhaseHonest(p, ws, n + 1, ws[n + 1].calls[c])
  {
    if c in ws[n].calls {
      assert PhaseHonest(p, ws, n, ws[n].calls[c]);
    }
    hide Decide, Honest;
  }

  /** Every decision handed out or cached is the one its recorded reads support. */
  lemma {:induction false} RunIsHonest(p: Setup, ws: seq<World>, es: seq<Event>, n: nat)
    requires IsRun(p, ws, es) && n <= |es|
    ensures Honest(p, ws, n)
    decreases n
  {
    if n == 0 {
    } else {
      RunIsHonest(p, ws, es, n - 1);
      StepsAreIndices(p, ws, es, n - 1);
      var w, e := ws[n - 1], es[n - 1];
      assert Enabled(w, e) && ws[n] == Next(p, w, e);
      forall c | c in ws[n].calls ensures PhaseHonest(p, ws, n, ws[n].calls[c]) {
        HonestCall(p, ws, n - 1, e, c);
      }
      if e.Put? {
        assert PhaseHonest(p, ws, n - 1, w.calls[e.call]);
      } else {
        assert ws[n].cache == w.cache || ws[n].cache == None;
      }
      hide Decide, Next, IsRun;
    }
  }

  // ---------- Bounded staleness ----------

  predicate OldPhase(ph: Phase, change: nat) {
    match ph
    case Missed(_) => false
    case HasRecord(_, at, _) => at <= change
    case HasRow(_, basis, _) => !MadeAfter(basis, change)
    case Finished(_, basis, _) => !MadeAfter(basis, change)
  }

  ghost predicate OldInFlight(w: World, c: CallId, change: nat) {
    InFlight(w, c) && OldPhase(w.calls[c], change)
  }

  ghost predicate OldCached(w: World, change: nat) {
    w.cache.Some? && !MadeAfter(w.cache.value.basis, change)
  }

  /** Between the invalidation and the end of the calls it caught in flight: only those calls can still
      carry old reads, and an old cached decision expires within one TTL of now. */
  ghost predicate Settling(p: Setup, caught: World, w: World, change: nat) {
    && (forall c :: OldInFlight(w, c, change) ==> InFlight(caught, c))
    && (OldCached(w, change) ==> w.cache.value.expires <= w.clock + p.ttl)
  }

  /** Once those have finished, nothing old is in flight, and an old cached decision expires by the deadline. */
  ghost predicate Settled(w: World, change: nat, deadline: int) {
    && (forall c :: !OldInFlight(w, c, change))
    && (OldCached(w, change) ==> w.cache.value.expires <= deadline)
  }

  lemma OldCallStep(p: Setup, w: World, e: Event, change: nat, c: CallId)
    requires Enabled(w, e) && w.steps > change
    ensures OldInFlight(Next(p, w, e), c, change) ==> OldInFlight(w, c, change)
  {
    hide Decide;
  }

  /** An old decision in the cache was there before, or was just written by an old call in flight. */
  lemma OldCacheStep(p: Setup, w: World, e: Event, change: nat)
    requires Enabled(w, e)
    ensures var w' := Next(p, w, e);
            && w.clock <= w'.clock
            && (OldCached(w', change) ==>
                  || (w'.cache == w.cache && OldCached(w, change))
                  || (e.Put? && OldInFlight(w, e.call, change) && w'.cache.value.expires == w.clock + p.ttl))
  {
    hide Decide;
  }

  lemma StepSettles(p: Setup, caught: World, w: World, e: Event, change: nat)
    requires Settling(p, caught, w, change) && Enabled(w, e) && w.steps > change
    ensures Settling(p, caught, Next(p, w, e), change)
  {
    hide Next, Enabled, OldInFlight, OldCached;
    var w' := Next(p, w, e);
    OldCacheStep(p, w, e, change);
    forall c | OldInFlight(w', c, change) ensures InFlight(caught, c) {
      OldCallStep(p, w, e, change, c);
    }
  }

  lemma StepStaysSettled(p: Setup, w: World, e: Event, change: nat, deadline: int)
    requires Settled(w, change, deadline) && Enabled(w, e) && w.steps > change
    ensures Settled(Next(p, w, e), change, deadline)
  {
    hide Next, Enabled, OldInFlight, OldCached;
    var w' := Next(p, w, e);
    OldCacheStep(p, w, e, change);
    forall c ensures !OldInFlight(w', c, change) {
      OldCallStep(p, w, e, change, c);
    }
  }

  lemma {:induction false} RunSettles(p: Setup, ws: seq<World>, es: seq<Event>, change: nat, cut: nat, n: nat)
    requires IsRun(p, ws, es) && change < cut < n <= |es| && es[cut] == Invalidate
    ensures Settling(p, ws[cut], ws[n], change)
    decreases n
  {
    StepsAreIndices(p, ws, es, n - 1);
    assert Enabled(ws[n - 1], es[n - 1]) && ws[n] == Next(p, ws[n - 1], es[n - 1]);
    if n == cut + 1 {
      assert ws[n].calls == ws[cut].calls && ws[n].cache == None;
    } else {
      RunSettles(p, ws, es, change, cut, n - 1);
      hide Next, Enabled, IsRun, Settling;
      StepSettles(p, ws[cut], ws[n - 1], es[n - 1], change);
    }
  }

  lemma {:induction false} RunStaysSettled(p: Setup, ws: seq<World>, es: seq<Event>,
                                           change: nat, cut: nat, end: nat, n: nat)
    requires IsRun(p, ws, es) && change < cut < end <= n <= |es| && es[cut] == Invalidate
    requires forall c :: InFlight(ws[cut], c) ==> c in ws[end].calls && ws[end].calls[c].Finished?
    ensures Settled(ws[n], change, ws[end].clock + p.ttl)
    decreases n
  {
    if n == end {
      RunSettles(p, ws, es, change, cut, n);
      hide IsRun, OldPhase;
    } else {
      RunStaysSettled(p, ws, es, change, cut, end, n - 1);
      StepsAreIndices(p, ws, es, n - 1);
      assert Enabled(ws[n - 1], es[n - 1]) && ws[n] == Next(p, ws[n - 1], es[n - 1]);
      hide Settled, Next, Enabled, IsRun;
      StepStaysSettled(p, ws[n - 1], es[n - 1], change, ws[end].clock + p.ttl);
    }
  }

  lemma YoungStays(p: Setup, w: World, e: Event, k: nat, c: CallId)
    requires Enabled(w, e) && w.steps > k && c in w.calls && !OldPhase(w.calls[c], k)
    ensures c in Next(p, w, e).calls && !OldPhase(Next(p, w, e).calls[c], k)
  {
    hide Decide;
  }

  /** A call that missed the cache at step `k` uses only reads made after step `k`. */
  lemma {:induction false} OwnReadsAreLater(p: Setup, ws: seq<World>, es: seq<Event>, k: nat, n: nat, c: CallId)
    requires IsRun(p, ws, es) && k < n <= |es| && es[k] == Begin(c)
    requires c in ws[k + 1].calls && ws[k + 1].calls[c].Missed?
    ensures c in ws[n].calls && !OldPhase(ws[n].calls[c], k)
    decreases n
  {
    if n == k + 1 {
    } else {
      OwnReadsAreLater(p, ws, es, k, n - 1, c);
      StepsAreIndices(p, ws, es, n - 1);
      assert Enabled(ws[n - 1], es[n - 1]) && ws[n] == Next(p, ws[n - 1], es[n - 1]);
      hide Next, Enabled, IsRun;
      YoungStays(p, ws[n - 1], es[n - 1], k, c);
    }
  }

  /** Bounded staleness.  A change at step `change` is followed by an invalidation at `cut`; by `end`
      every call that was in flight at the invalidation has finished.  Then a call that begins more
      than one TTL after `end` is decided by reads made after the change, and its result is what the
      store held at those reads. */
  lemma BoundedStaleness(p: Setup, ws: seq<World>, es: seq<Event>, change: nat, cut: nat, end: nat, k: nat, n: nat,
                         c: CallId)
    requires IsRun(p, ws, es) && change < cut < end <= k < n <= |es|
    requires es[cut] == Invalidate
    requires forall d :: InFlight(ws[cut], d) ==> d in ws[end].calls && ws[end].calls[d].Finished?
    requires es[k] == Begin(c) && ws[k].clock > ws[end].clock + p.ttl
    requires c in ws[n].calls && ws[n].calls[c].Finished?
    ensures var done := ws[n].calls[c];
            && MadeAfter(done.basis, change)
            && done.basis.record < n && done.basis.row < n
            && done.result == DecisionOf(p, ws, done.basis)
  {
    RunStaysSettled(p, ws, es, change, cut, end, k);
    RunIsHonest(p, ws, es, n);
    assert PhaseHonest(p, ws, n, ws[n].calls[c]);
    StepsAreIndices(p, ws, es, k);
    assert Enabled(ws[k], es[k]) && ws[k + 1] == Next(p, ws[k], es[k]);
    if ws[k + 1].calls[c].Missed? {
      OwnReadsAreLater(p, ws, es, k, n, c);
    } else {
      FinishedForGood(p, ws, es, k + 1, n, c);
    }
  }

  /** A cache hit leaves the cached decision and its expiry as they are: only a call that missed, and
      so did its own reads, ever writes the cache. */
  lemma HitsDoNotExtend(p: Setup, w: World, c: CallId)
    requires Enabled(w, Begin(c))
    ensures Next(p, w, Begin(c)).cache == w.cache
    ensures forall e :: Enabled(w, e) && Next(p, w, e).cache != w.cache ==>
              e == Invalidate || (e.Put? && w.calls[e.call].HasRow?)
  {
    hide Decide;
  }

  /** Invalidating is not enough by itself: a call caught between its reads and its cache write puts the
      old decision back, and the next call gets it although the store no longer supports it. */
  lemma OldDecisionCanReturn(p: Setup, g: Genealogy) returns (ws: seq<World>, es: seq<Event>)
    requires p.ttl >= 0 && g.visibility == Public
    ensures IsRun(p, ws, es) && |es| == 7
    ensures es[3] == Change(None, None) && es[4] == Invalidate && es[6] == Begin(1)
    ensures 1 in ws[7].calls && ws[7].calls[1].Finished? && ws[7].calls[1].result.Some?
    ensures ws[6].record == None && ws[6].row == None
  {
    var read := Reads(1, 2);
    var d := Decide(g, p.sub, None).value;
    var cell := Cell(d, p.ttl, read);
    var served := Finished(0, read, Some(d));
    es := [Begin(0), ReadRecord(0), ReadRow(0), Change(None, None), Invalidate, Put(0), Begin(1)];
    ws := [World(0, 0, Some(g), None, None, map[]),
           World(1, 0, Some(g), None, None, map[0 := Missed(0)]),
           World(2, 0, Some(g), None, None, map[0 := HasRecord(0, 1, g)]),
           World(3, 0, Some(g), None, None, map[0 := HasRow(0, read, d)]),
           World(4, 0, None, None, None, map[0 := HasRow(0, read, d)]),
           World(5, 0, None, None, None, map[0 := HasRow(0, read, d)]),
           World(6, 0, None, None, Some(cell), map[0 := served]),
           World(7, 0, None, None, Some(cell), map[0 := served, 1 := Finished(6, read, Some(d))])];
    hide Decide;
    assert map[0 := Missed(0)][0 := HasRecord(0, 1, g)] == map[0 := HasRecord(0, 1, g)];
    assert map[0 := HasRecord(0, 1, g)][0 := HasRow(0, read, d)] == map[0 := HasRow(0, read, d)];
    assert map[0 := HasRow(0, read, d)][0 := served] == map[0 := served];
  }

  // ---------- When exactly an old decision can return ----------

  ghost predicate Continues(p: Setup, ws: seq<World>, es: seq<Event>) {
    && |ws| == |es| + 1
    && forall i :: 0 <= i < |es| ==> Enabled(ws[i], es[i]) && ws[i + 1] == Next(p, ws[i], es[i])
  }

  /** A call in flight that holds an old read and may yet write a decision based on it to the cache. */
  predicate MayStoreOld(p: Setup, ph: Phase, change: nat) {
    match ph
    case HasRecord(_, at, record) => at <= change && (p.sub != "" || ImplicitRole(record.visibility, false) != NoRole)
    case HasRow(_, basis, _) => !MadeAfter(basis, change)
    case _ => false
  }

  ghost predicate AnyMayStoreOld(p: Setup, w: World, change: nat) {
    exists c :: c in w.calls && MayStoreOld(p, w.calls[c], change)
  }

  /** The continuation ends with a call, begun in it, that was allowed in on the strength of an old read. */
  ghost predicate ServesOld(p: Setup, ws: seq<World>, es: seq<Event>, change: nat) {
    && Continues(p, ws, es)
    && exists c :: c in ws[|es|].calls && c !in ws[0].calls && ServedOld(ws[|es|].calls[c], change)
  }

  predicate ServedOld(ph: Phase, change: nat) {
    ph.Finished? && ph.result.Some? && !MadeAfter(ph.basis, change)
  }

  ghost predicate Clean(p: Setup, start: World, w: World, change: nat) {
    && w.steps > change
    && (w.cache.Some? ==> MadeAfter(w.cache.value.basis, change))
    && (forall c :: c in w.calls ==> !MayStoreOld(p, w.calls[c], change))
    && (forall c :: c in w.calls && c !in start.calls ==> !OldPhase(w.calls[c], change))
    && start.calls.Keys <= w.calls.Keys
  }

  lemma StepStaysClean(p: Setup, start: World, w: World, e: Event, change: nat)
    requires Clean(p, start, w, change) && Enabled(w, e)
    ensures Clean(p, start, Next(p, w, e), change)
  {
    if e.ReadRow? {
      assert !MayStoreOld(p, w.calls[e.call], change);
    }
  }

  lemma {:induction false} StaysClean(p: Setup, ws: seq<World>, es: seq<Event>, change: nat, n: nat)
    requires Continues(p, ws, es) && n <= |es| && Clean(p, ws[0], ws[0], change)
    ensures Clean(p, ws[0], ws[n], change)
    decreases n
  {
    hide Clean, Next;
    if n == 0 {
    } else {
      StaysClean(p, ws, es, change, n - 1);
      assert Enabled(ws[n - 1], es[n - 1]);
      StepStaysClean(p, ws[0], ws[n - 1], es[n - 1], change);
    }
  }

  lemma {:induction false} UnusedCall(used: set<CallId>) returns (c: CallId)
    ensures forall x :: x in used ==> x < c
  {
    if used == {} {
      c := 0;
    } else {
      var x :| x in used;
      var rest := UnusedCall(used - {x});
      c := if rest <= x then x + 1 else rest;
      forall y | y in used ensures y < c {
        assert y == x || y in used - {x};
      }
    }
  }

  lemma PutThenServe(p: Setup, w: World, c: CallId, d: CallId, change: nat) returns (ws: seq<World>, es: seq<Event>)
    requires p.ttl >= 0 && c in w.calls && d !in w.calls && w.calls[c].HasRow? && !MadeAfter(w.calls[c].basis, change)
    ensures Continues(p, ws, es) && ws[0] == w && d in ws[|es|].calls && ServedOld(ws[|es|].calls[d], change)
  {
    es := [Put(c), Begin(d)];
    var w1 := Next(p, w, es[0]);
    ws := [w, w1, Next(p, w1, es[1])];
  }

  /** From an old record read to a stored decision: a row for the caller settles it, if need be. */
  lemma ReachRow(p: Setup, w: World, c: CallId, change: nat) returns (ws: seq<World>, es: seq<Event>)
    requires c in w.calls && w.calls[c].HasRecord? && MayStoreOld(p, w.calls[c], change)
    ensures Continues(p, ws, es) && ws[0] == w && ws[|es|].calls.Keys == w.calls.Keys
    ensures ws[|es|].calls[c].HasRow? && !MadeAfter(ws[|es|].calls[c].basis, change)
  {
    es := [Change(w.record, Some(Membership(p.sub, "", Viewer, "", 0))), ReadRow(c)];
    var w1 := Next(p, w, es[0]);
    ws := [w, w1, Next(p, w1, es[1])];
  }

  lemma Join(p: Setup, ws: seq<World>, es: seq<Event>, ws': seq<World>, es': seq<Event>)
    requires Continues(p, ws, es) && Continues(p, ws', es') && ws'[0] == ws[|es|]
    ensures Continues(p, ws + ws'[1..], es + es')
    ensures (ws + ws'[1..])[0] == ws[0] && (ws + ws'[1..])[|es + es'|] == ws'[|es'|]
  {
    hide Next, Enabled;
    var all, events := ws + ws'[1..], es + es';
    forall i | 0 <= i < |events|
      ensures Enabled(all[i], events[i]) && all[i + 1] == Next(p, all[i], events[i])
    {
      if i >= |es| {
        assert events[i] == es'[i - |es|] && all[i] == ws'[i - |es|] && all[i + 1] == ws'[i - |es| + 1];
      }
    }
  }

  lemma OldCallServes(p: Setup, w: World, c: CallId, change: nat) returns (ws: seq<World>, es: seq<Event>)
    requires p.ttl >= 0 && c in w.calls && MayStoreOld(p, w.calls[c], change)
    ensures |ws| > 0 && ws[0] == w && ServesOld(p, ws, es, change)
  {
    var d := UnusedCall(w.calls.Keys);
    assert d !in w.calls;
    hide Next, Enabled;
    if w.calls[c].HasRow? {
      ws, es := PutThenServe(p, w, c, d, change);
    } else {
      var ws1, es1 := ReachRow(p, w, c, change);
      var ws2, es2 := PutThenServe(p, ws1[|es1|], c, d, change);
      Join(p, ws1, es1, ws2, es2);
      ws, es := ws1 + ws2[1..], es1 + es2;
    }
  }

  /** Right after an invalidation, some continuation lets a new call in on a read from before the change
      exactly when the invalidation caught a call that holds such a read and may yet store it. */
  lemma OldDecisionReturnsIff(p: Setup, w: World, change: nat)
    requires p.ttl >= 0 && w.cache == None && w.steps > change
    ensures (exists ws, es :: |ws| > 0 && ws[0] == w && ServesOld(p, ws, es, change)) <==> AnyMayStoreOld(p, w, change)
  {
    if AnyMayStoreOld(p, w, change) {
      var c :| c in w.calls && MayStoreOld(p, w.calls[c], change);
      var ws, es := OldCallServes(p, w, c, change);
    } else {
      forall ws, es | |ws| > 0 && ws[0] == w && ServesOld(p, ws, es, change) ensures false {
        StaysClean(p, ws, es, change, |es|);
      }
    }
  }

  // ---------- Without interruption, the split Resolve is Resolve ----------

  /** The world, for one pair, that a store and a cache make. */
  ghost predicate Shows(w: World, t: Tables, cache: Cache, k: CacheKey) {
    && w.record == (if k.gid in t.genealogies then Some(t.genealogies[k.gid]) else None)
    && w.row == RowOf(t, k.gid, k.sub)
    && (w.cache.Some? <==> k in cache)
    && (w.cache.Some? ==> w.cache.value.decision == cache[k].decision && w.cache.value.expires == cache[k].expires)
  }

  /** A call's steps one after the other, with `pause` seconds before the cache write. */
  function Uninterrupted(p: Setup, w: World, c: CallId, pause: nat): World
    requires c !in w.calls
  {
    var w1 := Next(p, w, Begin(c));
    if w1.calls[c].Finished? then w1
    else
      var w2 := Next(p, w1, ReadRecord(c));
      if w2.calls[c].Finished? then w2
      else
        var w3 := Next(p, w2, ReadRow(c));
        if w3.calls[c].Finished? then w3 else Next(p, Next(p, w3, Advance(pause)), Put(c))
  }

  /** The interleaved model and the Resolve of the sequential one agree on calls that nothing interrupts. */
  lemma UninterruptedIsResolve(p: Setup, w: World, c: CallId, pause: nat, t: Tables, cache: Cache, gid: string)
    requires c !in w.calls && gid != "" && Shows(w, t, cache, CacheKey(p.sub, gid))
    ensures var w' := Uninterrupted(p, w, c, pause);
            var (cache', d) := ResolveCached(t, cache, p.ttl, p.sub, gid, w.clock, w.clock + pause);
            && c in w'.calls && w'.calls[c].Finished? && w'.calls[c].result == d
            && Shows(w', t, cache', CacheKey(p.sub, gid))
  {
    hide Decide;
  }
}
