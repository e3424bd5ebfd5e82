/** The in-process token bucket: lazy refill with a cap, one bucket per key, and an idle sweep.

    Floats are modelled as `real` and every clock reading is a parameter.  The clock is read before
    the lock is taken, so readings in lock order need not be monotone; a lemma assumes monotone
    readings only where it says so. */
module RateLimit {
  import opened Wrappers

  datatype Config = Config(capacity: real, rate: real, idle: real)

  datatype Entry = Entry(tokens: real, updated: real)

  /** What the refill adds between two clock readings. */
  function Earned(c: Config, from: real, to: real): real {
    (to - from) * c.rate
  }

  /** Tokens a call at `now` finds, before it takes one. */
  function Available(c: Config, entry: Option<Entry>, now: real): real {
    match entry
    case None => c.capacity
    case Some(e) =>
      var refilled := e.tokens + Earned(c, e.updated, now);
      if refilled > c.capacity then c.capacity else refilled
  }

  function Grants(c: Config, entry: Option<Entry>, now: real): bool {
    Available(c, entry, now) >= 1.0
  }

  /** The entry a call at `now` leaves behind. */
  function Touch(c: Config, entry: Option<Entry>, now: real): Entry {
    var available := Available(c, entry, now);
    Entry(if available >= 1.0 then available - 1.0 else available, now)
  }

  predicate Stale(c: Config, e: Entry, now: real) {
    now - e.updated > c.idle
  }

  function Swept(c: Config, buckets: map<string, Entry>, now: real): map<string, Entry> {
    map k | k in buckets && !Stale(c, buckets[k], now) :: buckets[k]
  }

  function Lookup(buckets: map<string, Entry>, key: string): Option<Entry> {
    if key in buckets then Some(buckets[key]) else None
  }

  /** One call: a new bucket is full, an old one has gained rate * elapsed up to the capacity; a whole token
      is needed and taken; the clock reading is kept whether or not there is one. */
  ghost predicate Takes(c: Config, before: Option<Entry>, now: real, ok: bool, after: Entry) {
    var refilled := if before.None? then c.capacity else before.value.tokens + (now - before.value.updated) * c.rate;
    var found := if refilled > c.capacity then c.capacity else refilled;
    && (ok <==> found >= 1.0)
    && after == Entry(if ok then found - 1.0 else found, now)
  }

  lemma CallMeans(c: Config, entry: Option<Entry>, now: real)
    ensures Takes(c, entry, now, Grants(c, entry, now), Touch(c, entry, now))
  {
  }

  const DEFAULT_IDLE: real := 600.0

  class Bucket {
    const config: Config
    var buckets: map<string, Entry>

    constructor (capacity: real, rate: real, idle: real)
      ensures config.capacity == capacity && config.rate == rate
      ensures config.idle == (if idle <= 0.0 then 600.0 else idle)
      ensures config.idle > 0.0 && buckets == map[]
    {
      config := Config(capacity, rate, if idle <= 0.0 then DEFAULT_IDLE else idle);
      buckets := map[];
    }

    method Allow(key: string, now: real) returns (ok: bool)
      modifies this
      ensures ok == Grants(config, Lookup(old(buckets), key), now)
      ensures buckets == old(buckets)[key := Touch(config, Lookup(old(buckets), key), now)]
      ensures Takes(config, Lookup(old(buckets), key), now, ok, buckets[key])
    {
      hide Takes;
      CallMeans(config, Lookup(buckets, key), now);
      var e;
      if key !in buckets {
        e := Entry(config.capacity, now);
      } else {
        e := buckets[key];
        var dt := now - e.updated;
        e := e.(tokens := e.tokens + dt * config.rate);
        if e.tokens > config.capacity {
          e := e.(tokens := config.capacity);
        }
        e := e.(updated := now);
      }
      if e.tokens >= 1.0 {
        e := e.(tokens := e.tokens - 1.0);
        ok := true;
      } else {
        ok := false;
      }
      buckets := buckets[key := e];
      assert ok == Grants(config, Lookup(old(buckets), key), now);
      assert buckets[key] == Touch(config, Lookup(old(buckets), key), now);
    }

    /** One tick of the sweeper: visits every key, in any order, and drops the idle ones. */
    method Sweep(now: real)
      modifies this
      ensures buckets == Swept(config, old(buckets), now)
      ensures forall k :: k in buckets <==> k in old(buckets) && now - old(buckets)[k].updated <= config.idle
      ensures forall k :: k in buckets ==> buckets[k] == old(buckets)[k]
    {
      var pending := buckets.Keys;
      while pending != {}
        invariant pending <= old(buckets).Keys
        invariant buckets == map k | k in old(buckets) && (k in pending || !Stale(config, old(buckets)[k], now))
                               :: old(buckets)[k]
        decreases |pending|
      {
        var k :| k in pending;
        if Stale(config, buckets[k], now) {
          buckets := buckets - {k};
        }
        pending := pending - {k};
      }
    }
  }

  // ---------- Runs of calls on one key ----------

  /** The entry found by call `i` of `times`, starting from `entry`. */
  function EntryBefore(c: Config, entry: Option<Entry>, times: seq<real>, i: nat): Option<Entry>
    requires i <= |times|
    decreases i
  {
    if i == 0 then entry else Some(Touch(c, EntryBefore(c, entry, times, i - 1), times[i - 1]))
  }

  function Answer(c: Config, entry: Option<Entry>, times: seq<real>, i: nat): bool
    requires i < |times|
  {
    Grants(c, EntryBefore(c, entry, times, i), times[i])
  }

  /** What `Allow` answers to the calls of `times`. */
  function Answers(c: Config, entry: Option<Entry>, times: seq<real>): seq<bool> {
    seq(|times|, i requires 0 <= i < |times| => Answer(c, entry, times, i))
  }

  /** How many of the choices i, ..., j-1 are accepted. */
  function Count(choice: seq<bool>, i: nat, j: nat): nat
    requires i <= j <= |choice|
    decreases j
  {
    if i == j then 0 else Count(choice, i, j - 1) + if choice[j - 1] then 1 else 0
  }

  lemma {:induction false} CountSplit(choice: seq<bool>, i: nat, k: nat, j: nat)
    requires i <= k <= j <= |choice|
    ensures Count(choice, i, j) == Count(choice, i, k) + Count(choice, k, j)
    decreases j
  {
    if k == j {
    } else {
      CountSplit(choice, i, k, j - 1);
    }
  }

  lemma EarnedAddsUp(c: Config, from: real, middle: real, to: real)
    ensures Earned(c, from, to) == Earned(c, from, middle) + Earned(c, middle, to)
  {
  }

  lemma EarnedIs(c: Config, from: real, to: real)
    ensures Earned(c, from, to) == (to - from) * c.rate
  {
  }

  lemma EarnedNonNegative(c: Config, from: real, to: real)
    requires c.rate >= 0.0 && from <= to
    ensures Earned(c, from, to) >= 0.0
  {
  }

  /** A run seen as a ledger: at call `j` the clock is worth `p[j]` tokens, `a[j]` tokens are found
      and `g[j]` says whether one is taken. */
  ghost predicate Ledger(cap: real, p: seq<real>, a: seq<real>, g: seq<bool>) {
    && |p| == |a| == |g|
    && (forall j :: 0 <= j < |a| ==> a[j] <= cap && (g[j] <==> a[j] >= 1.0))
    && (forall j :: 0 < j < |a| ==>
          var earned := a[j - 1] - (if g[j - 1] then 1.0 else 0.0) + (p[j] - p[j - 1]);
          a[j] == if earned > cap then cap else earned)
  }

  /** The potential argument: tokens found minus clock worth drops by one with every grant, so what
      is found at call `j` is bounded through every earlier call `i`. */
  lemma {:induction false} FoundAtMost(cap: real, p: seq<real>, a: seq<real>, g: seq<bool>, i: nat, j: nat)
    requires Ledger(cap, p, a, g) && i <= j < |a|
    ensures a[j] <= cap + (p[j] - p[i]) - Count(g, i, j) as real
    decreases j
  {
    if i == j {
    } else {
      FoundAtMost(cap, p, a, g, i, j - 1);
    }
  }

  /** ... and the bound is attained through the call that last found the bucket full. */
  lemma {:induction false} FoundExactly(cap: real, p: seq<real>, a: seq<real>, g: seq<bool>, j: nat) returns (i: nat)
    requires Ledger(cap, p, a, g) && j < |a| && a[0] == cap
    ensures i <= j && a[j] == cap + (p[j] - p[i]) - Count(g, i, j) as real
    decreases j
  {
    if a[j] == cap {
      i := j;
    } else {
      i := FoundExactly(cap, p, a, g, j - 1);
    }
  }

  ghost predicate WithinEnvelope(cap: real, p: seq<real>, choice: seq<bool>)
    requires |choice| == |p|
  {
    forall i, j {:trigger p[i], choice[j]} :: 0 <= i <= j < |p| && choice[j] ==>
      Count(choice, i, j + 1) as real <= cap + (p[j] - p[i])
  }

  lemma {:induction false} LedgerIsGreedy(cap: real, p: seq<real>, a: seq<real>, g: seq<bool>, other: seq<bool>, n: nat)
    requires Ledger(cap, p, a, g) && (|a| > 0 ==> a[0] == cap)
    requires |other| == |g| && n <= |g| && WithinEnvelope(cap, p, other)
    ensures Count(other, 0, n) <= Count(g, 0, n)
    decreases n
  {
    if n == 0 {
    } else {
      LedgerIsGreedy(cap, p, a, g, other, n - 1);
      if other[n - 1] && !g[n - 1] {
        var i := FoundExactly(cap, p, a, g, n - 1);
        assert Count(other, i, n) as real <= cap + (p[n - 1] - p[i]);
        LedgerIsGreedy(cap, p, a, g, other, i);
        CountSplit(other, 0, i, n - 1);
        CountSplit(g, 0, i, n - 1);
      }
    }
  }

  ghost function Worth(c: Config, times: seq<real>): seq<real> {
    seq(|times|, i requires 0 <= i < |times| => Earned(c, 0.0, times[i]))
  }

  lemma WorthOfWindow(c: Config, times: seq<real>, i: nat, j: nat)
    requires i <= j < |times|
    ensures |Worth(c, times)| == |times|
    ensures Worth(c, times)[j] - Worth(c, times)[i] == Earned(c, times[i], times[j])
  {
    hide Earned;
    EarnedAddsUp(c, 0.0, times[i], times[j]);
  }

  ghost function Found(c: Config, entry: Option<Entry>, times: seq<real>): seq<real> {
    seq(|times|, i requires 0 <= i < |times| => Available(c, EntryBefore(c, entry, times, i), times[i]))
  }

  /** Between two consecutive calls the balance grows by what the interval earns, up to the cap. */
  lemma OneCall(c: Config, entry: Option<Entry>, now: real, next: real)
    ensures var left := Available(c, entry, now) - (if Grants(c, entry, now) then 1.0 else 0.0);
            var earned := left + (Earned(c, 0.0, next) - Earned(c, 0.0, now));
            Available(c, Some(Touch(c, entry, now)), next) == if earned > c.capacity then c.capacity else earned
  {
    hide Earned;
    EarnedAddsUp(c, 0.0, now, next);
  }

  lemma LedgerStep(c: Config, entry: Option<Entry>, times: seq<real>, j: nat)
    requires 0 < j < |times|
    ensures var p, a, g := Worth(c, times), Found(c, entry, times), Answers(c, entry, times);
            var earned := a[j - 1] - (if g[j - 1] then 1.0 else 0.0) + (p[j] - p[j - 1]);
            a[j] == if earned > c.capacity then c.capacity else earned
  {
    hide Earned, Available;
    OneCall(c, EntryBefore(c, entry, times, j - 1), times[j - 1], times[j]);
  }

  lemma RunIsLedger(c: Config, entry: Option<Entry>, times: seq<real>)
    ensures Ledger(c.capacity, Worth(c, times), Found(c, entry, times), Answers(c, entry, times))
  {
    var p, a, g := Worth(c, times), Found(c, entry, times), Answers(c, entry, times);
    forall j | 0 < j < |a|
      ensures var earned := a[j - 1] - (if g[j - 1] then 1.0 else 0.0) + (p[j] - p[j - 1]);
              a[j] == if earned > c.capacity then c.capacity else earned
    {
      LedgerStep(c, entry, times, j);
    }
  }

  lemma FoundBound(c: Config, entry: Option<Entry>, times: seq<real>, i: nat, j: nat)
    requires i <= j < |times|
    requires Answer(c, entry, times, j)
    ensures Count(Answers(c, entry, times), i, j + 1) as real <= c.capacity + Earned(c, times[i], times[j])
  {
    hide Earned, Available;
    RunIsLedger(c, entry, times);
    FoundAtMost(c.capacity, Worth(c, times), Found(c, entry, times), Answers(c, entry, times), i, j);
    WorthOfWindow(c, times, i, j);
  }

  /** Rate bound: whatever the clock does, over every window of calls on one live entry that ends in
      a granted call, the number granted is at most capacity + rate * (last - first). */
  lemma RateBound(c: Config, entry: Option<Entry>, times: seq<real>, i: nat, j: nat)
    requires i <= j < |times|
    requires Answer(c, entry, times, j)
    ensures Count(Answers(c, entry, times), i, j + 1) as real <= c.capacity + (times[j] - times[i]) * c.rate
  {
    hide Answers, Answer, Count, Earned;
    FoundBound(c, entry, times, i, j);
    EarnedIs(c, times[i], times[j]);
  }

  /** Choices that obey the envelope on every window ending in an accepted call. */
  ghost predicate Respects(c: Config, times: seq<real>, choice: seq<bool>)
    requires |choice| == |times|
  {
    forall i, j {:trigger times[i], choice[j]} :: 0 <= i <= j < |times| && choice[j] ==>
      Count(choice, i, j + 1) as real <= c.capacity + (times[j] - times[i]) * c.rate
  }

  /** Choices that obey it on every window that starts and ends in an accepted call. */
  ghost predicate RespectsBetweenAccepted(c: Config, times: seq<real>, choice: seq<bool>)
    requires |choice| == |times|
  {
    forall i, j {:trigger choice[i], choice[j]} :: 0 <= i <= j < |times| && choice[i] && choice[j] ==>
      Count(choice, i, j + 1) as real <= c.capacity + (times[j] - times[i]) * c.rate
  }

  ghost predicate Nondecreasing(times: seq<real>) {
    forall i, j :: 0 <= i <= j < |times| ==> times[i] <= times[j]
  }

  lemma AllowRespects(c: Config, entry: Option<Entry>, times: seq<real>)
    ensures Respects(c, times, Answers(c, entry, times))
  {
    forall i, j {:trigger times[i], Answers(c, entry, times)[j]} | 0 <= i <= j < |times| && Answers(c, entry, times)[j]
      ensures Count(Answers(c, entry, times), i, j + 1) as real <= c.capacity + (times[j] - times[i]) * c.rate
    {
      RateBound(c, entry, times, i, j);
    }
  }

  lemma EnvelopeInWorth(c: Config, times: seq<real>, choice: seq<bool>, p: seq<real>)
    requires |choice| == |times| && p == Worth(c, times)
    requires Respects(c, times, choice)
    ensures |p| == |times| && WithinEnvelope(c.capacity, p, choice)
  {
    assert |p| == |times|;
    hide Earned;
    forall i, j {:trigger p[i], choice[j]} | 0 <= i <= j < |p| && choice[j]
      ensures Count(choice, i, j + 1) as real <= c.capacity + (p[j] - p[i])
    {
      WorthOfWindow(c, times, i, j);
      assert Count(choice, i, j + 1) as real <= c.capacity + (times[j] - times[i]) * c.rate;
    }
  }

  /** Optimality: after every prefix of the calls, no choice that respects the envelope has accepted
      more calls than `Allow` has.  With `AllowRespects`, `Allow` is the greatest such choice. */
  lemma PrefixOptimal(c: Config, times: seq<real>, other: seq<bool>, n: nat)
    requires |other| == |times| && n <= |times|
    requires Respects(c, times, other)
    ensures Count(other, 0, n) <= Count(Answers(c, None, times), 0, n)
  {
    assert |times| > 0 ==> Found(c, None, times)[0] == c.capacity;
    hide Earned, Available;
    RunIsLedger(c, None, times);
    EnvelopeInWorth(c, times, other, Worth(c, times));
    LedgerIsGreedy(c.capacity, Worth(c, times), Found(c, None, times), Answers(c, None, times), other, n);
  }

  lemma {:induction false} WidenWindow(c: Config, times: seq<real>, choice: seq<bool>, i: nat, j: nat)
    requires |choice| == |times| && i <= j < |times| && choice[j]
    requires c.rate >= 0.0 && Nondecreasing(times)
    requires RespectsBetweenAccepted(c, times, choice)
    ensures Count(choice, i, j + 1) as real <= c.capacity + (times[j] - times[i]) * c.rate
    decreases j - i
  {
    hide Earned;
    if choice[i] {
    } else {
      WidenWindow(c, times, choice, i + 1, j);
      CountSplit(choice, i, i + 1, j + 1);
      assert Count(choice, i, i) == 0;
      EarnedAddsUp(c, times[i], times[i + 1], times[j]);
      EarnedNonNegative(c, times[i], times[i + 1]);
    }
  }

  /** On a clock that does not run backwards it is enough that the other choice obeys the envelope
      between its own accepted calls. */
  lemma PrefixOptimalMonotone(c: Config, times: seq<real>, other: seq<bool>, n: nat)
    requires |other| == |times| && n <= |times|
    requires c.rate >= 0.0 && Nondecreasing(times)
    requires RespectsBetweenAccepted(c, times, other)
    ensures Count(other, 0, n) <= Count(Answers(c, None, times), 0, n)
  {
    forall i, j {:trigger times[i], other[j]} | 0 <= i <= j < |times| && other[j]
      ensures Count(other, i, j + 1) as real <= c.capacity + (times[j] - times[i]) * c.rate
    {
      WidenWindow(c, times, other, i, j);
    }
    PrefixOptimal(c, times, other, n);
  }

  // ---------- Denied calls leave no trace ----------

  /** The items among the first `n` that are kept. */
  function Select<T>(items: seq<T>, keep: seq<bool>, n: nat): seq<T>
    requires n <= |items| == |keep|
  {
    if n == 0 then []
    else if keep[n - 1] then Select(items, keep, n - 1) + [items[n - 1]]
    else Select(items, keep, n - 1)
  }

  ghost predicate Indistinguishable(c: Config, a: Option<Entry>, b: Option<Entry>) {
    || c.capacity < 1.0
    || forall t :: Available(c, a, t) == Available(c, b, t)
  }

  lemma KeptCallSeesTheSame(c: Config, a: Option<Entry>, b: Option<Entry>, now: real)
    requires Indistinguishable(c, a, b)
    ensures Grants(c, a, now) == Grants(c, b, now)
    ensures Indistinguishable(c, Some(Touch(c, a, now)), Some(Touch(c, b, now)))
  {
    if c.capacity >= 1.0 {
      assert Available(c, a, now) == Available(c, b, now);
    }
  }

  lemma DeniedTouchIsInvisible(c: Config, a: Option<Entry>, b: Option<Entry>, now: real)
    requires Indistinguishable(c, a, b)
    requires !Grants(c, a, now)
    ensures Indistinguishable(c, Some(Touch(c, a, now)), b)
  {
    hide Earned;
    if c.capacity >= 1.0 {
      forall t ensures Available(c, Some(Touch(c, a, now)), t) == Available(c, b, t) {
        assert Available(c, a, t) == Available(c, b, t);
        EarnedAddsUp(c, a.value.updated, now, t);
      }
    }
  }

  lemma {:induction false} EntryBeforeExtends(c: Config, entry: Option<Entry>, times: seq<real>, more: seq<real>,
                                              i: nat)
    requires i <= |times|
    ensures EntryBefore(c, entry, times + more, i) == EntryBefore(c, entry, times, i)
    decreases i
  {
    if i == 0 {
    } else {
      EntryBeforeExtends(c, entry, times, more, i - 1);
    }
  }

  lemma EntryAfterLast(c: Config, entry: Option<Entry>, times: seq<real>, t: real)
    ensures EntryBefore(c, entry, times + [t], |times| + 1)
            == Some(Touch(c, EntryBefore(c, entry, times, |times|), t))
  {
    hide Touch;
    EntryBeforeExtends(c, entry, times, [t], |times|);
  }

  lemma AnswersExtend(c: Config, entry: Option<Entry>, times: seq<real>, t: real)
    ensures Answers(c, entry, times + [t])
            == Answers(c, entry, times) + [Grants(c, EntryBefore(c, entry, times, |times|), t)]
  {
    forall i | 0 <= i <= |times|
      ensures EntryBefore(c, entry, times + [t], i) == EntryBefore(c, entry, times, i)
    {
      EntryBeforeExtends(c, entry, times, [t], i);
    }
  }

  /** Deleting any of the denied calls changes no other answer, whatever the clock does. */
  lemma {:induction false} DeniedCallsAreInvisible(c: Config, entry: Option<Entry>, times: seq<real>, keep: seq<bool>,
                                                   n: nat)
    requires n <= |times| == |keep|
    requires forall i :: 0 <= i < |times| && !keep[i] ==> !Answer(c, entry, times, i)
    ensures Answers(c, entry, Select(times, keep, n)) == Select(Answers(c, entry, times), keep, n)
    ensures Indistinguishable(c, EntryBefore(c, entry, times, n),
                              EntryBefore(c, entry, Select(times, keep, n), |Select(times, keep, n)|))
    decreases n
  {
    hide Grants, Touch, Indistinguishable, Select, Answers, EntryBefore, Answer;
    if n == 0 {
      NothingSelected(c, entry, times, keep);
    } else {
      DeniedCallsAreInvisible(c, entry, times, keep, n - 1);
      var kept := Select(times, keep, n - 1);
      var full := EntryBefore(c, entry, times, n - 1);
      var reduced := EntryBefore(c, entry, kept, |kept|);
      var now := times[n - 1];
      SelectStep(times, keep, n - 1);
      AnswerStep(c, entry, times, keep, n - 1);
      if keep[n - 1] {
        AnswersExtend(c, entry, kept, now);
        EntryAfterLast(c, entry, kept, now);
        KeptCallSeesTheSame(c, full, reduced, now);
      } else {
        assert !Answer(c, entry, times, n - 1);
        DeniedTouchIsInvisible(c, full, reduced, now);
      }
    }
  }

  lemma NothingSelected(c: Config, entry: Option<Entry>, times: seq<real>, keep: seq<bool>)
    requires |times| == |keep|
    ensures Select(times, keep, 0) == [] && Select(Answers(c, entry, times), keep, 0) == []
            && Answers(c, entry, []) == []
    ensures EntryBefore(c, entry, times, 0) == entry == EntryBefore(c, entry, [], 0)
            && Indistinguishable(c, entry, entry)
  {
    hide Available;
  }

  lemma SelectStep<T>(items: seq<T>, keep: seq<bool>, n: nat)
    requires n < |items| == |keep|
    ensures Select(items, keep, n + 1)
            == if keep[n] then Select(items, keep, n) + [items[n]] else Select(items, keep, n)
  {
  }

  lemma AnswerStep(c: Config, entry: Option<Entry>, times: seq<real>, keep: seq<bool>, n: nat)
    requires n < |times| == |keep|
    ensures var before, all := EntryBefore(c, entry, times, n), Answers(c, entry, times);
            && Answer(c, entry, times, n) == Grants(c, before, times[n])
            && EntryBefore(c, entry, times, n + 1) == Some(Touch(c, before, times[n]))
            && Select(all, keep, n + 1)
               == if keep[n] then Select(all, keep, n) + [Grants(c, before, times[n])] else Select(all, keep, n)
  {
    hide Grants, Touch;
  }

  // ---------- Runs of the whole limiter: calls on any key, and sweeps ----------

  datatype Event = Call(key: string, at: real) | Tick(at: real)

  function BucketsBefore(c: Config, events: seq<Event>, n: nat): map<string, Entry>
    requires n <= |events|
    decreases n
  {
    if n == 0 then map[]
    else
      var before := BucketsBefore(c, events, n - 1);
      match events[n - 1]
      case Call(key, at) => before[key := Touch(c, Lookup(before, key), at)]
      case Tick(at) => Swept(c, before, at)
  }

  function Reply(c: Config, events: seq<Event>, n: nat): bool
    requires n < |events| && events[n].Call?
  {
    Grants(c, Lookup(BucketsBefore(c, events, n), events[n].key), events[n].at)
  }

  /** The replies to the calls on `key` among the first `n` events, oldest first. */
  function Replies(c: Config, events: seq<Event>, key: string, n: nat): seq<bool>
    requires n <= |events|
    decreases n
  {
    if n == 0 then []
    else if events[n - 1].Call? && events[n - 1].key == key then
      Replies(c, events, key, n - 1) + [Reply(c, events, n - 1)]
    else Replies(c, events, key, n - 1)
  }

  function WithoutTicks(events: seq<Event>): seq<Event> {
    if events == [] then []
    else
      var earlier := WithoutTicks(events[..|events| - 1]);
      var last := events[|events| - 1];
      if last.Call? then earlier + [last] else earlier
  }

  ghost predicate MonotoneClock(events: seq<Event>) {
    forall i, j :: 0 <= i <= j < |events| ==> events[i].at <= events[j].at
  }

  /** An entry forgotten by a sweep is as good as the kept one once the kept one would be full. */
  ghost predicate SameFrom(c: Config, swept: Option<Entry>, kept: Option<Entry>, now: real) {
    && (kept.Some? ==> kept.value.tokens >= 0.0 && kept.value.updated <= now)
    && (|| swept == kept
        || (swept.None? && kept.Some? && kept.value.tokens + Earned(c, kept.value.updated, now) >= c.capacity))
  }

  lemma SameFromLater(c: Config, swept: Option<Entry>, kept: Option<Entry>, now: real, later: real)
    requires c.rate >= 0.0 && now <= later
    requires SameFrom(c, swept, kept, now)
    ensures SameFrom(c, swept, kept, later)
  {
    hide Earned;
    if kept.Some? {
      EarnedAddsUp(c, kept.value.updated, now, later);
      EarnedNonNegative(c, now, later);
    }
  }

  lemma SameAtStart(c: Config, now: real)
    ensures SameFrom(c, None, None, now)
  {
  }

  lemma TouchKeepsSame(c: Config, swept: Option<Entry>, kept: Option<Entry>, now: real)
    requires c.rate >= 0.0 && c.capacity >= 1.0
    requires SameFrom(c, swept, kept, now)
    ensures Grants(c, swept, now) == Grants(c, kept, now)
    ensures Touch(c, swept, now) == Touch(c, kept, now)
    ensures SameFrom(c, Some(Touch(c, swept, now)), Some(Touch(c, kept, now)), now)
  {
    hide Earned;
    if kept.Some? {
      EarnedNonNegative(c, kept.value.updated, now);
    }
  }

  lemma IdleEarnsCapacity(c: Config, from: real, to: real)
    requires c.rate >= 0.0 && c.rate * c.idle >= c.capacity && to - from > c.idle
    ensures Earned(c, from, to) >= c.capacity
  {
    assert (to - from - c.idle) * c.rate >= 0.0;
  }

  lemma SweepKeepsSame(c: Config, swept: Option<Entry>, kept: Option<Entry>, now: real)
    requires c.rate >= 0.0 && c.rate * c.idle >= c.capacity
    requires SameFrom(c, swept, kept, now)
    requires swept.Some? && Stale(c, swept.value, now)
    ensures SameFrom(c, None, kept, now)
  {
    hide Earned;
    IdleEarnsCapacity(c, swept.value.updated, now);
  }

  lemma WithoutTicksPrefix(events: seq<Event>, n: nat)
    requires 0 < n <= |events|
    ensures WithoutTicks(events[..n])
            == (var earlier := WithoutTicks(events[..n - 1]);
                if events[n - 1].Call? then earlier + [events[n - 1]] else earlier)
  {
    assert events[..n][..n - 1] == events[..n - 1];
  }

  lemma {:induction false} BucketsBeforeExtends(c: Config, events: seq<Event>, e: Event, n: nat)
    requires n <= |events|
    ensures BucketsBefore(c, events + [e], n) == BucketsBefore(c, events, n)
    decreases n
  {
    if n == 0 {
    } else {
      BucketsBeforeExtends(c, events, e, n - 1);
    }
  }

  lemma {:induction false} RepliesExtend(c: Config, events: seq<Event>, e: Event, key: string, n: nat)
    requires n <= |events|
    ensures Replies(c, events + [e], key, n) == Replies(c, events, key, n)
    decreases n
  {
    if n == 0 {
    } else {
      RepliesExtend(c, events, e, key, n - 1);
      BucketsBeforeExtends(c, events, e, n - 1);
    }
  }

  lemma CallOnKey(c: Config, events: seq<Event>, key: string, n: nat)
    requires n < |events| && events[n].Call? && events[n].key == key
    ensures var entry := Lookup(BucketsBefore(c, events, n), key);
            && Replies(c, events, key, n + 1) == Replies(c, events, key, n) + [Grants(c, entry, events[n].at)]
            && Lookup(BucketsBefore(c, events, n + 1), key) == Some(Touch(c, entry, events[n].at))
  {
    hide Grants, Touch;
  }

  /** Calls on other keys, and sweeps that leave the entry alone. */
  lemma OtherEvent(c: Config, events: seq<Event>, key: string, n: nat)
    requires n < |events| && !(events[n].Call? && events[n].key == key)
    requires var before := BucketsBefore(c, events, n);
             events[n].Tick? && key in before ==> !Stale(c, before[key], events[n].at)
    ensures Replies(c, events, key, n + 1) == Replies(c, events, key, n)
    ensures Lookup(BucketsBefore(c, events, n + 1), key) == Lookup(BucketsBefore(c, events, n), key)
  {
    hide Grants, Touch;
  }

  lemma TickForgets(c: Config, events: seq<Event>, key: string, n: nat, e: Entry)
    requires n < |events| && events[n].Tick?
    requires Lookup(BucketsBefore(c, events, n), key) == Some(e) && Stale(c, e, events[n].at)
    ensures Lookup(BucketsBefore(c, events, n + 1), key) == None
    ensures Replies(c, events, key, n + 1) == Replies(c, events, key, n)
  {
    hide Grants, Touch;
  }

  /** One more call, on the key or on another, with and without the sweeps before it. */
  lemma CallKeepsSame(c: Config, events: seq<Event>, calls: seq<Event>, key: string, n: nat)
    requires n < |events| && events[n].Call? && c.capacity >= 1.0 && c.rate >= 0.0
    requires Replies(c, calls, key, |calls|) == Replies(c, events, key, n)
    requires SameFrom(c, Lookup(BucketsBefore(c, events, n), key),
                      Lookup(BucketsBefore(c, calls, |calls|), key), events[n].at)
    ensures var more := calls + [events[n]];
            && Replies(c, more, key, |more|) == Replies(c, events, key, n + 1)
            && SameFrom(c, Lookup(BucketsBefore(c, events, n + 1), key),
                        Lookup(BucketsBefore(c, more, |more|), key), events[n].at)
  {
    hide Grants, Touch, SameFrom, Lookup, BucketsBefore, Replies;
    var e, more := events[n], calls + [events[n]];
    BucketsBeforeExtends(c, calls, e, |calls|);
    RepliesExtend(c, calls, e, key, |calls|);
    assert more[|calls|] == e;
    if e.key == key {
      CallOnKey(c, events, key, n);
      CallOnKey(c, more, key, |calls|);
      TouchKeepsSame(c, Lookup(BucketsBefore(c, events, n), key), Lookup(BucketsBefore(c, calls, |calls|), key), e.at);
    } else {
      OtherEvent(c, events, key, n);
      OtherEvent(c, more, key, |calls|);
    }
  }

  lemma {:induction false} SweepsKeepSame(c: Config, events: seq<Event>, key: string, n: nat)
    requires n <= |events| && MonotoneClock(events)
    requires c.capacity >= 1.0 && c.rate >= 0.0 && c.rate * c.idle >= c.capacity
    ensures var calls := WithoutTicks(events[..n]);
            && Replies(c, calls, key, |calls|) == Replies(c, events, key, n)
            && (n > 0 ==> SameFrom(c, Lookup(BucketsBefore(c, events, n), key),
                                   Lookup(BucketsBefore(c, calls, |calls|), key), events[n - 1].at))
            && (n == 0 ==> calls == [])
    decreases n
  {
    if n == 0 {
    } else {
      hide Stale, SameFrom, Touch, Grants, WithoutTicks;
      SweepsKeepSame(c, events, key, n - 1);
      WithoutTicksPrefix(events, n);
      var calls, e := WithoutTicks(events[..n - 1]), events[n - 1];
      var swept := Lookup(BucketsBefore(c, events, n - 1), key);
      var kept := Lookup(BucketsBefore(c, calls, |calls|), key);
      if n == 1 {
        SameAtStart(c, e.at);
      } else {
        SameFromLater(c, swept, kept, events[n - 2].at, e.at);
      }
      hide BucketsBefore, Replies;
      if e.Call? {
        CallKeepsSame(c, events, calls, key, n - 1);
      } else if swept.Some? && Stale(c, swept.value, e.at) {
        TickForgets(c, events, key, n - 1, swept.value);
        SweepKeepsSame(c, swept, kept, e.at);
      } else {
        OtherEvent(c, events, key, n - 1);
      }
    }
  }

  lemma {:induction false} NoGrantBelowOne(c: Config, events: seq<Event>, key: string, n: nat)
    requires n <= |events| && c.capacity < 1.0
    ensures Replies(c, events, key, n) == seq(|Replies(c, events, key, n)|, i => false)
    decreases n
  {
    if n == 0 {
    } else {
      NoGrantBelowOne(c, events, key, n - 1);
    }
  }

  lemma {:induction false} SameNumberOfReplies(c: Config, events: seq<Event>, key: string, n: nat)
    requires n <= |events|
    ensures var calls := WithoutTicks(events[..n]);
            |Replies(c, calls, key, |calls|)| == |Replies(c, events, key, n)|
    decreases n
  {
    hide Reply;
    if n == 0 {
    } else {
      SameNumberOfReplies(c, events, key, n - 1);
      WithoutTicksPrefix(events, n);
      var calls := WithoutTicks(events[..n - 1]);
      if events[n - 1].Call? {
        RepliesExtend(c, calls, events[n - 1], key, |calls|);
      }
    }
  }

  /** When an idle bucket has had time to fill up (rate * idle >= capacity), a limiter that sweeps
      and one that never does give the same replies to every key. */
  lemma SweepsAreInvisible(c: Config, events: seq<Event>, key: string)
    requires MonotoneClock(events)
    requires c.rate >= 0.0 && c.rate * c.idle >= c.capacity
    ensures var calls := WithoutTicks(events);
            Replies(c, events, key, |events|) == Replies(c, calls, key, |calls|)
  {
    assert events[..|events|] == events;
    var calls := WithoutTicks(events);
    if c.capacity >= 1.0 {
      SweepsKeepSame(c, events, key, |events|);
    } else {
      NoGrantBelowOne(c, events, key, |events|);
      NoGrantBelowOne(c, calls, key, |calls|);
      SameNumberOfReplies(c, events, key, |events|);
    }
  }

  // ---------- Each key has its own bucket ----------

  /** The times of the calls on `key` among events p, ..., n-1. */
  function CallTimes(events: seq<Event>, key: string, p: nat, n: nat): seq<real>
    requires p <= n <= |events|
    decreases n
  {
    if n == p then []
    else if events[n - 1].Call? && events[n - 1].key == key then CallTimes(events, key, p, n - 1) + [events[n - 1].at]
    else CallTimes(events, key, p, n - 1)
  }

  /** No sweep among events p, ..., n-1 forgets the entry of `key`. */
  ghost predicate StaysLive(c: Config, events: seq<Event>, key: string, p: nat, n: nat)
    requires p <= n <= |events|
  {
    forall m | p <= m < n && events[m].Tick? ::
      var before := BucketsBefore(c, events, m);
      key in before ==> !Stale(c, before[key], events[m].at)
  }

  lemma NoCallsYet(c: Config, events: seq<Event>, key: string, p: nat)
    requires p <= |events|
    ensures var entry := Lookup(BucketsBefore(c, events, p), key);
            CallTimes(events, key, p, p) == [] && Answers(c, entry, []) == [] && EntryBefore(c, entry, [], 0) == entry
  {
  }

  lemma CallTimesStep(events: seq<Event>, key: string, p: nat, n: nat)
    requires p <= n < |events|
    ensures CallTimes(events, key, p, n + 1)
            == (var times := CallTimes(events, key, p, n);
                if events[n].Call? && events[n].key == key then times + [events[n].at] else times)
  {
  }

  /** What the limiter tells one key is what a bucket serving that key alone would tell it. */
  lemma {:induction false} KeysAreIndependent(c: Config, events: seq<Event>, key: string, p: nat, n: nat)
    requires p <= n <= |events| && StaysLive(c, events, key, p, n)
    ensures var times := CallTimes(events, key, p, n);
            var entry := Lookup(BucketsBefore(c, events, p), key);
            && Replies(c, events, key, n) == Replies(c, events, key, p) + Answers(c, entry, times)
            && Lookup(BucketsBefore(c, events, n), key) == EntryBefore(c, entry, times, |times|)
    decreases n
  {
    hide Grants, Touch, Lookup, BucketsBefore, Replies, Answers, CallTimes, EntryBefore, Stale;
    if n == p {
      NoCallsYet(c, events, key, p);
    } else {
      KeysAreIndependent(c, events, key, p, n - 1);
      var times := CallTimes(events, key, p, n - 1);
      var entry := Lookup(BucketsBefore(c, events, p), key);
      CallTimesStep(events, key, p, n - 1);
      if events[n - 1].Call? && events[n - 1].key == key {
        CallOnKey(c, events, key, n - 1);
        AnswersExtend(c, entry, times, events[n - 1].at);
        EntryAfterLast(c, entry, times, events[n - 1].at);
      } else {
        OtherEvent(c, events, key, n - 1);
      }
    }
  }

  lemma {:induction false} CountShift(a: seq<bool>, b: seq<bool>, i: nat, j: nat)
    requires i <= j <= |b|
    ensures Count(a + b, |a| + i, |a| + j) == Count(b, i, j)
    decreases j
  {
    if i == j {
    } else {
      CountShift(a, b, i, j - 1);
    }
  }

  ghost predicate WindowFor(c: Config, events: seq<Event>, key: string, p: nat, q: nat) {
    && p <= q < |events|
    && events[p].Call? && events[p].key == key && events[q].Call? && events[q].key == key
    && StaysLive(c, events, key, p, q + 1) && Reply(c, events, q)
  }

  lemma WindowEnds(c: Config, events: seq<Event>, key: string, p: nat, q: nat, times: seq<real>)
    requires WindowFor(c, events, key, p, q) && times == CallTimes(events, key, p, q + 1)
    ensures |times| > 0 && times[0] == events[p].at && times[|times| - 1] == events[q].at
  {
    hide Reply, StaysLive;
    FirstCallTime(events, key, p, q + 1);
  }

  lemma LastReply(c: Config, events: seq<Event>, key: string, q: nat)
    requires q < |events| && events[q].Call? && events[q].key == key && Reply(c, events, q)
    ensures var after := Replies(c, events, key, q + 1);
            |after| > 0 && after[|after| - 1]
  {
    hide Reply;
  }

  lemma WindowAlone(c: Config, events: seq<Event>, key: string, p: nat, q: nat, entry: Option<Entry>, times: seq<real>)
    requires WindowFor(c, events, key, p, q)
    requires times == CallTimes(events, key, p, q + 1) && entry == Lookup(BucketsBefore(c, events, p), key)
    ensures |times| > 0 && times[0] == events[p].at && times[|times| - 1] == events[q].at
    ensures Answers(c, entry, times)[|times| - 1]
    ensures var before, after := Replies(c, events, key, p), Replies(c, events, key, q + 1);
            && |before| <= |after|
            && Count(after, |before|, |after|) == Count(Answers(c, entry, times), 0, |times|)
  {
    hide Reply, StaysLive, Replies, Count, CallTimes, BucketsBefore, Lookup, Answer, EntryBefore;
    WindowEnds(c, events, key, p, q, times);
    LastReply(c, events, key, q);
    KeysAreIndependent(c, events, key, p, q + 1);
    var before, window := Replies(c, events, key, p), Answers(c, entry, times);
    assert |window| == |times|;
    CountShift(before, window, 0, |window|);
  }

  /** The rate bound for one key of a limiter that serves any keys and sweeps: between two calls on
      the key, the later one granted, with the entry live in between. */
  lemma LimiterRateBound(c: Config, events: seq<Event>, key: string, p: nat, q: nat)
    requires WindowFor(c, events, key, p, q)
    ensures |Replies(c, events, key, p)| <= |Replies(c, events, key, q + 1)|
    ensures var before, after := Replies(c, events, key, p), Replies(c, events, key, q + 1);
            Count(after, |before|, |after|) as real <= c.capacity + (events[q].at - events[p].at) * c.rate
  {
    hide Earned, Available, Touch, Stale, Replies, Count, BucketsBefore, CallTimes, EntryBefore;
    var times := CallTimes(events, key, p, q + 1);
    WindowAlone(c, events, key, p, q, Lookup(BucketsBefore(c, events, p), key), times);
    RateBound(c, Lookup(BucketsBefore(c, events, p), key), times, 0, |times| - 1);
  }

  lemma {:induction false} FirstCallTime(events: seq<Event>, key: string, p: nat, n: nat)
    requires p < n <= |events| && events[p].Call? && events[p].key == key
    ensures |CallTimes(events, key, p, n)| > 0 && CallTimes(events, key, p, n)[0] == events[p].at
    decreases n
  {
    if p + 1 < n {
      FirstCallTime(events, key, p, n - 1);
    } else {
      assert CallTimes(events, key, p, p) == [];
    }
  }
}
