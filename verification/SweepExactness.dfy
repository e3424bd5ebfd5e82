/** When exactly idle sweeping is invisible: a bucket must be able to fill up while it is idle, or be too
    small to grant anything.  Otherwise a drained key that is swept gets a full bucket back too early, and
    a run shows it. */
module SweepExactness {
  import opened Wrappers
  import opened RateLimit

  const KEY := "client"

  // ---------- A run that drains, sweeps and calls again ----------

  function CallsAt(times: seq<real>): seq<Event> {
    seq(|times|, i requires 0 <= i < |times| => Call(KEY, times[i]))
  }

  lemma {:induction false} SegmentTimes(events: seq<Event>, p: nat, times: seq<real>, k: nat)
    requires k <= |times| && p + |times| <= |events| && events[p..p + |times|] == CallsAt(times)
    ensures CallTimes(events, KEY, p, p + k) == times[..k]
    decreases k
  {
    if k == 0 {
    } else {
      SegmentTimes(events, p, times, k - 1);
      assert events[p + k - 1] == events[p..p + |times|][k - 1];
    }
  }

  /** A stretch of calls on the key is answered as by a bucket of its own. */
  lemma Segment(c: Config, events: seq<Event>, p: nat, times: seq<real>)
    requires p + |times| <= |events| && events[p..p + |times|] == CallsAt(times)
    ensures var entry := Lookup(BucketsBefore(c, events, p), KEY);
            && Replies(c, events, KEY, p + |times|) == Replies(c, events, KEY, p) + Answers(c, entry, times)
            && Lookup(BucketsBefore(c, events, p + |times|), KEY) == EntryBefore(c, entry, times, |times|)
  {
    SegmentTimes(events, p, times, |times|);
    assert times[..|times|] == times;
    forall m | p <= m < p + |times| ensures events[m].Call? {
      assert events[m] == events[p..p + |times|][m - p];
    }
    hide BucketsBefore, Available, Touch, Answers;
    KeysAreIndependent(c, events, KEY, p, p + |times|);
  }

  lemma RunStartsEmpty(c: Config, events: seq<Event>)
    ensures Replies(c, events, KEY, 0) == [] && Lookup(BucketsBefore(c, events, 0), KEY) == None
  {
  }

  lemma {:induction false} WithoutTicksAppend(a: seq<Event>, b: seq<Event>)
    ensures WithoutTicks(a + b) == WithoutTicks(a) + WithoutTicks(b)
    decreases |b|
  {
    if b == [] {
      assert a + b == a;
    } else {
      var front := b[..|b| - 1];
      WithoutTicksAppend(a, front);
      assert (a + b)[..|a + b| - 1] == a + front;
    }
  }

  lemma {:induction false} CallsStay(calls: seq<Event>)
    requires forall e :: e in calls ==> e.Call?
    ensures WithoutTicks(calls) == calls
    decreases |calls|
  {
    if calls == [] {
    } else {
      CallsStay(calls[..|calls| - 1]);
      assert calls == calls[..|calls| - 1] + [calls[|calls| - 1]];
    }
  }

  /** Call at the times of `first`, let a sweep come by, and call at the times of `second`. */
  function Witness(first: seq<real>, sweepAt: real, second: seq<real>): seq<Event> {
    CallsAt(first) + [Tick(sweepAt)] + CallsAt(second)
  }

  lemma WitnessParts(first: seq<real>, sweepAt: real, second: seq<real>)
    ensures var events, m := Witness(first, sweepAt, second), |first|;
            && |events| == m + 1 + |second|
            && events[0..0 + m] == CallsAt(first)
            && events[m] == Tick(sweepAt)
            && events[m + 1..m + 1 + |second|] == CallsAt(second)
  {
  }

  lemma UnsweptParts(first: seq<real>, second: seq<real>)
    ensures var calls, m := CallsAt(first) + CallsAt(second), |first|;
            && |calls| == m + |second|
            && calls[0..0 + m] == CallsAt(first) && calls[m..m + |second|] == CallsAt(second)
  {
  }

  lemma WitnessWithoutTicks(first: seq<real>, sweepAt: real, second: seq<real>)
    ensures WithoutTicks(Witness(first, sweepAt, second)) == CallsAt(first) + CallsAt(second)
  {
    var a, t, b := CallsAt(first), [Tick(sweepAt)], CallsAt(second);
    WithoutTicksAppend(a + t, b);
    WithoutTicksAppend(a, t);
    CallsStay(a);
    CallsStay(b);
    assert WithoutTicks(t) == [] by {
      assert t[..0] == [];
    }
  }

  lemma WitnessIsMonotone(first: seq<real>, sweepAt: real, second: seq<real>)
    requires Nondecreasing(first) && Nondecreasing(second)
    requires forall i :: 0 <= i < |first| ==> first[i] <= sweepAt
    requires forall i :: 0 <= i < |second| ==> sweepAt <= second[i]
    ensures MonotoneClock(Witness(first, sweepAt, second))
  {
    var events, m := Witness(first, sweepAt, second), |first|;
    forall i | 0 <= i < |events|
      ensures events[i].at == if i < m then first[i] else if i == m then sweepAt else second[i - m - 1]
    {
    }
  }

  lemma WitnessSwept(c: Config, first: seq<real>, sweepAt: real, second: seq<real>, e: Entry)
    requires EntryBefore(c, None, first, |first|) == Some(e) && Stale(c, e, sweepAt)
    ensures var events := Witness(first, sweepAt, second);
            Replies(c, events, KEY, |events|) == Answers(c, None, first) + Answers(c, None, second)
  {
    hide Available, Touch, Earned, Answers, Replies, BucketsBefore, Lookup, EntryBefore, CallsAt, Witness;
    var events, m := Witness(first, sweepAt, second), |first|;
    WitnessParts(first, sweepAt, second);
    RunStartsEmpty(c, events);
    Segment(c, events, 0, first);
    TickForgets(c, events, KEY, m, e);
    Segment(c, events, m + 1, second);
  }

  lemma WitnessUnswept(c: Config, first: seq<real>, second: seq<real>, e: Entry)
    requires EntryBefore(c, None, first, |first|) == Some(e)
    ensures var calls := CallsAt(first) + CallsAt(second);
            Replies(c, calls, KEY, |calls|) == Answers(c, None, first) + Answers(c, Some(e), second)
  {
    hide Available, Touch, Earned, Answers, Replies, BucketsBefore, Lookup, EntryBefore, CallsAt;
    var calls, m := CallsAt(first) + CallsAt(second), |first|;
    UnsweptParts(first, second);
    RunStartsEmpty(c, calls);
    Segment(c, calls, 0, first);
    Segment(c, calls, m, second);
  }

  ghost predicate Differs(c: Config, events: seq<Event>) {
    var calls := WithoutTicks(events);
    Replies(c, events, KEY, |events|) != Replies(c, calls, KEY, |calls|)
  }

  /** The sweep shows if a new bucket answers the second stretch differently from the one swept away. */
  lemma WitnessShows(c: Config, first: seq<real>, sweepAt: real, second: seq<real>, e: Entry)
    requires EntryBefore(c, None, first, |first|) == Some(e) && Stale(c, e, sweepAt)
    requires Answers(c, None, second) != Answers(c, Some(e), second)
    ensures Differs(c, Witness(first, sweepAt, second))
  {
    hide Answers, Replies, EntryBefore, CallsAt, Witness, Stale;
    WitnessWithoutTicks(first, sweepAt, second);
    WitnessSwept(c, first, sweepAt, second, e);
    WitnessUnswept(c, first, second, e);
    var a, x, y := Answers(c, None, first), Answers(c, None, second), Answers(c, Some(e), second);
    assert (a + x)[|a|..] == x && (a + y)[|a|..] == y;
  }

  // ---------- Draining a bucket ----------

  lemma NothingEarned(c: Config, at: real)
    ensures Earned(c, at, at) == 0.0
  {
  }

  /** Calls at one moment take the tokens of a full bucket one by one. */
  lemma {:induction false} BurstEntry(c: Config, n: nat, at: real, times: seq<real>, i: nat)
    requires n as real <= c.capacity && 1 <= i <= n <= |times| && forall j :: 0 <= j < n ==> times[j] == at
    ensures EntryBefore(c, None, times, i) == Some(Entry(c.capacity - i as real, at))
    decreases i
  {
    hide Earned;
    NothingEarned(c, at);
    if i == 1 {
      assert EntryBefore(c, None, times, 0) == None;
    } else {
      BurstEntry(c, n, at, times, i - 1);
    }
  }

  lemma {:induction false} WholePart(x: real, n: nat) returns (m: nat)
    requires n as real <= x
    ensures m as real <= x < m as real + 1.0 && m >= n
    decreases (x - n as real).Floor
  {
    if x < n as real + 1.0 {
      m := n;
    } else {
      m := WholePart(x, n + 1);
    }
  }

  // ---------- A rate that refills ----------

  /** `n` calls at one moment and one more `wait` later. */
  function Burst(n: nat, at: real, wait: real): seq<real> {
    seq(n + 1, i => if i < n then at else at + wait)
  }

  /** `n` is the whole part of the capacity, and the wait earns what is missing to one more token. */
  ghost predicate Drains(c: Config, n: nat, wait: real) {
    && n >= 1 && n as real <= c.capacity < n as real + 1.0
    && wait >= 0.0 && c.rate > 0.0 && wait * c.rate == n as real + 1.0 - c.capacity
  }

  lemma WaitEarns(c: Config, n: nat, at: real, wait: real)
    requires Drains(c, n, wait)
    ensures Earned(c, at, at + wait) == n as real + 1.0 - c.capacity
  {
    assert (at + wait) - at == wait;
  }

  /** A full bucket grants the whole burst and is left with nothing. */
  lemma BurstFromFull(c: Config, n: nat, at: real, wait: real)
    requires Drains(c, n, wait)
    ensures Answers(c, None, Burst(n, at, wait)) == seq(n + 1, _ => true)
    ensures EntryBefore(c, None, Burst(n, at, wait), n + 1) == Some(Entry(0.0, at + wait))
  {
    hide Earned;
    var times := Burst(n, at, wait);
    NothingEarned(c, at);
    WaitEarns(c, n, at, wait);
    forall i | 0 <= i < n + 1 ensures Answer(c, None, times, i) {
      if i == 0 {
        assert EntryBefore(c, None, times, 0) == None;
      } else {
        BurstEntry(c, n, at, times, i);
      }
    }
    BurstEntry(c, n, at, times, n);
  }

  lemma {:induction false} FoundFromFirst(cap: real, p: seq<real>, a: seq<real>, g: seq<bool>, j: nat)
    requires Ledger(cap, p, a, g) && j < |a|
    ensures a[j] <= a[0] + (p[j] - p[0]) - Count(g, 0, j) as real
    decreases j
  {
    if j == 0 {
    } else {
      FoundFromFirst(cap, p, a, g, j - 1);
    }
  }

  lemma {:induction false} CountAtMost(choice: seq<bool>, i: nat, j: nat)
    requires i <= j <= |choice|
    ensures Count(choice, i, j) <= j - i
    decreases j
  {
    if i == j {
    } else {
      CountAtMost(choice, i, j - 1);
    }
  }

  lemma {:induction false} AllTrueCount(choice: seq<bool>, j: nat)
    requires j <= |choice| && forall i :: 0 <= i < |choice| ==> choice[i]
    ensures Count(choice, 0, j) == j
    decreases j
  {
    if j == 0 {
    } else {
      AllTrueCount(choice, j - 1);
    }
  }

  /** An empty bucket that has earned less than its capacity denies part of the burst. */
  lemma BurstFromDrained(c: Config, n: nat, since: real, at: real, wait: real)
    requires Drains(c, n, wait) && Earned(c, since, at) < c.capacity
    ensures Count(Answers(c, Some(Entry(0.0, since)), Burst(n, at, wait)), 0, n + 1) < n + 1
  {
    hide Earned;
    var entry, times := Some(Entry(0.0, since)), Burst(n, at, wait);
    var p, a, g := Worth(c, times), Found(c, entry, times), Answers(c, entry, times);
    RunIsLedger(c, entry, times);
    FoundFromFirst(c.capacity, p, a, g, n);
    WorthOfWindow(c, times, 0, n);
    WaitEarns(c, n, at, wait);
    CountAtMost(g, 0, n);
    assert a[0] == Available(c, entry, at);
    hide Worth, Found, Answers, Ledger;
  }

  lemma BurstShows(c: Config, n: nat, since: real, at: real, wait: real)
    requires Drains(c, n, wait) && Earned(c, since, at) < c.capacity
    ensures Answers(c, None, Burst(n, at, wait)) != Answers(c, Some(Entry(0.0, since)), Burst(n, at, wait))
  {
    hide Answers, Earned, Burst, Drains;
    BurstFromFull(c, n, at, wait);
    BurstFromDrained(c, n, since, at, wait);
    AllTrueCount(seq(n + 1, _ => true), n + 1);
  }

  lemma HalfGap(c: Config, wait: real, sweepAt: real, gap: real)
    requires c.rate > 0.0 && gap > 0.0 && gap * c.rate == c.capacity - c.rate * c.idle
    requires sweepAt == wait + c.idle + gap / 2.0
    ensures Earned(c, wait, sweepAt) < c.capacity
  {
    assert (sweepAt - wait) * c.rate == c.idle * c.rate + gap * c.rate / 2.0;
    assert gap * c.rate > 0.0;
  }

  lemma Choose(c: Config) returns (n: nat, wait: real, sweepAt: real)
    requires c.capacity >= 1.0 && c.rate > 0.0 && c.idle >= 0.0 && c.rate * c.idle < c.capacity
    ensures Drains(c, n, wait) && sweepAt - wait > c.idle && Earned(c, wait, sweepAt) < c.capacity
    ensures 0.0 <= wait <= sweepAt
  {
    n := WholePart(c.capacity, 1);
    wait := (n as real + 1.0 - c.capacity) / c.rate;
    var gap := (c.capacity - c.rate * c.idle) / c.rate;
    assert wait * c.rate == n as real + 1.0 - c.capacity;
    assert gap * c.rate == c.capacity - c.rate * c.idle;
    assert gap > 0.0 && wait >= 0.0;
    sweepAt := wait + c.idle + gap / 2.0;
    HalfGap(c, wait, sweepAt, gap);
  }

  lemma BurstIsMonotone(n: nat, at: real, wait: real)
    requires wait >= 0.0
    ensures Nondecreasing(Burst(n, at, wait)) && |Burst(n, at, wait)| == n + 1
    ensures forall i :: 0 <= i < n + 1 ==> at <= Burst(n, at, wait)[i] <= at + wait
  {
  }

  lemma RefillingShows(c: Config) returns (events: seq<Event>)
    requires c.capacity >= 1.0 && c.rate > 0.0 && c.idle >= 0.0 && c.rate * c.idle < c.capacity
    ensures MonotoneClock(events) && Differs(c, events)
  {
    var n, wait, sweepAt := Choose(c);
    assert Stale(c, Entry(0.0, wait), sweepAt) && wait >= 0.0;
    hide Drains, Answers, Earned, Burst, Stale, EntryBefore, Differs, Witness, MonotoneClock;
    var first, second := Burst(n, 0.0, wait), Burst(n, sweepAt, wait);
    events := Witness(first, sweepAt, second);
    BurstIsMonotone(n, 0.0, wait);
    BurstIsMonotone(n, sweepAt, wait);
    WitnessIsMonotone(first, sweepAt, second);
    BurstFromFull(c, n, 0.0, wait);
    BurstShows(c, n, wait, sweepAt, wait);
    WitnessShows(c, first, sweepAt, second, Entry(0.0, wait));
  }

  // ---------- A rate that does not ----------

  lemma NothingComesBack(c: Config, to: real)
    requires c.rate <= 0.0 && to >= 0.0
    ensures Earned(c, 0.0, to) <= 0.0
  {
  }

  lemma StarvedShows(c: Config) returns (events: seq<Event>)
    requires c.capacity >= 1.0 && c.rate <= 0.0 && c.idle >= 0.0
    ensures MonotoneClock(events) && Differs(c, events)
  {
    var n := WholePart(c.capacity, 1);
    var sweepAt := c.idle + 1.0;
    var first, second, e := seq(n, _ => 0.0), [sweepAt], Entry(c.capacity - n as real, 0.0);
    events := Witness(first, sweepAt, second);
    assert Nondecreasing(first) && Nondecreasing(second) && Stale(c, e, sweepAt);
    hide Earned, Witness, MonotoneClock, Differs;
    WitnessIsMonotone(first, sweepAt, second);
    BurstEntry(c, n, 0.0, first, n);
    NothingComesBack(c, sweepAt);
    assert Answers(c, None, second)[0] && !Answers(c, Some(e), second)[0];
    WitnessShows(c, first, sweepAt, second, e);
  }

  // ---------- The exact condition ----------

  /** If an idle bucket that could grant cannot fill up, some run on a monotone clock shows whether there is
      a sweeper. */
  lemma SweepsCanShow(c: Config) returns (events: seq<Event>)
    requires c.idle >= 0.0 && c.capacity >= 1.0 && c.rate * c.idle < c.capacity
    ensures MonotoneClock(events) && Differs(c, events)
  {
    if c.rate > 0.0 {
      events := RefillingShows(c);
    } else {
      events := StarvedShows(c);
    }
  }

  lemma SweepsCannotShow(c: Config, events: seq<Event>, key: string)
    requires MonotoneClock(events) && c.idle >= 0.0 && (c.capacity < 1.0 || c.rate * c.idle >= c.capacity)
    ensures var calls := WithoutTicks(events);
            Replies(c, events, key, |events|) == Replies(c, calls, key, |calls|)
  {
    if c.capacity < 1.0 {
      assert events[..|events|] == events;
      var calls := WithoutTicks(events);
      NoGrantBelowOne(c, events, key, |events|);
      NoGrantBelowOne(c, calls, key, |calls|);
      SameNumberOfReplies(c, events, key, |events|);
    } else {
      assert c.rate >= 0.0;
      SweepsAreInvisible(c, events, key);
    }
  }

  ghost predicate SweepingInvisible(c: Config) {
    forall events, key {:trigger Replies(c, events, key, |events|)} :: MonotoneClock(events) ==>
      var calls := WithoutTicks(events);
      Replies(c, events, key, |events|) == Replies(c, calls, key, |calls|)
  }

  /** For every capacity, every rate and every idle timeout: sweeping is invisible on every monotone run
      exactly when the bucket is too small to grant anything or can fill up while it is idle. */
  lemma SweepsInvisibleIff(c: Config)
    requires c.idle >= 0.0
    ensures SweepingInvisible(c) <==> c.capacity < 1.0 || c.rate * c.idle >= c.capacity
  {
    hide Replies, WithoutTicks, MonotoneClock;
    if c.capacity < 1.0 || c.rate * c.idle >= c.capacity {
      forall events, key | MonotoneClock(events)
        ensures var calls := WithoutTicks(events); Replies(c, events, key, |events|) == Replies(c, calls, key, |calls|)
      {
        SweepsCannotShow(c, events, key);
      }
    } else {
      var events := SweepsCanShow(c);
      assert Replies(c, events, KEY, |events|) != Replies(c, WithoutTicks(events), KEY, |WithoutTicks(events)|);
    }
  }
}
