/** The person quota of one genealogy when Accept handlers run at the same time: the check, the
    acceptance by the governance engine and the increment of the counter are separate steps. */
module PersonQuota {
  import opened Wrappers
  import opened Counters

  type HandlerId = nat

  /** Where a handler for a Create-Person proposal stands; a handler that has ended is not listed. */
  datatype Phase = Started | Checked | Accepted

  datatype State = State(count: uint64, running: map<HandlerId, Phase>)

  /** `limit` is the configured cap (0: none); at most `k` handlers run at once. */
  datatype Setup = Setup(limit: uint64, k: nat)

  datatype Event =
    | Start(h: HandlerId)
    | Check(h: HandlerId)
    | Accept(h: HandlerId, ok: bool)
    | Increment(h: HandlerId)

  predicate AtPhase(s: State, h: HandlerId, phase: Phase) {
    h in s.running && s.running[h] == phase
  }

  predicate Enabled(p: Setup, s: State, e: Event) {
    match e
    case Start(h) => h !in s.running && |s.running| < p.k
    case Check(h) => AtPhase(s, h, Started)
    case Accept(h, _) => AtPhase(s, h, Checked)
    case Increment(h) => AtPhase(s, h, Accepted)
  }

  function Next(p: Setup, s: State, e: Event): State
    requires Enabled(p, s, e)
  {
    match e
    case Start(h) => s.(running := s.running[h := Started])
    case Check(h) =>
      if p.limit != 0 && s.count >= p.limit then s.(running := s.running - {h})
      else s.(running := s.running[h := Checked])
    case Accept(h, ok) => s.(running := if ok then s.running[h := Accepted] else s.running - {h})
    case Increment(h) => State(Bump(s.count, 1), s.running - {h})
  }

  /** The state after a sequence of events, if each is enabled in turn. */
  function Exec(p: Setup, s: State, events: seq<Event>): Option<State>
    decreases |events|
  {
    if events == [] then Some(s)
    else if !Enabled(p, s, events[0]) then None
    else Exec(p, Next(p, s, events[0]), events[1..])
  }

  // ---------- The bound ----------

  function Past(running: map<HandlerId, Phase>): set<HandlerId> {
    set h | h in running && running[h] != Started
  }

  /** Handlers past the check have a person coming that the counter does not show yet. */
  ghost predicate Inv(p: Setup, s: State) {
    && |s.running| <= p.k
    && s.count + |Past(s.running)| <= p.limit + p.k - 1
  }

  lemma PastIsRunning(running: map<HandlerId, Phase>)
    ensures |Past(running)| <= |running|
  {
    SubsetIsSmaller(Past(running), running.Keys);
  }

  lemma StepKeepsInv(p: Setup, s: State, e: Event)
    requires p.limit != 0 && p.k >= 1 && p.limit + p.k <= TWO_64
    requires Inv(p, s) && Enabled(p, s, e)
    ensures Inv(p, Next(p, s, e))
  {
    hide Bump;
    var s' := Next(p, s, e);
    var h := e.h;
    var past, past' := Past(s.running), Past(s'.running);
    SubsetIsSmaller(s'.running.Keys, s.running.Keys + {h});
    match e
    case Start(_) => assert past' == past;
    case Check(_) =>
      if s'.running == s.running - {h} {
        assert past' == past;
      } else {
        assert s'.running.Keys == s.running.Keys;
        PastIsRunning(s'.running);
      }
    case Accept(_, ok) =>
      if ok {
        assert s'.running.Keys == s.running.Keys && past' == past;
      } else {
        assert past' == past - {h};
      }
    case Increment(_) =>
      assert h in past && past' == past - {h};
      BumpSaturates(s.count, 1);
  }

  /** With at most `k` handlers at once, the person counter never exceeds the limit by more than k - 1;
      with one at a time it never exceeds the limit. */
  lemma {:induction false} CounterBound(p: Setup, s: State, events: seq<Event>)
    requires p.limit != 0 && p.k >= 1 && p.limit + p.k <= TWO_64
    requires Inv(p, s)
    ensures Exec(p, s, events).Some? ==> Inv(p, Exec(p, s, events).value)
    ensures Exec(p, s, events).Some? ==> Exec(p, s, events).value.count <= p.limit + p.k - 1
    decreases |events|
  {
    hide Inv, Next;
    if events == [] {
      assert s.count <= p.limit + p.k - 1 by {
        InvBounds(p, s);
      }
    } else if Enabled(p, s, events[0]) {
      StepKeepsInv(p, s, events[0]);
      CounterBound(p, Next(p, s, events[0]), events[1..]);
    }
  }

  lemma InvBounds(p: Setup, s: State)
    requires Inv(p, s)
    ensures s.count <= p.limit + p.k - 1
  {
  }

  lemma EmptyIsGood(p: Setup)
    requires p.limit != 0 && p.k >= 1
    ensures Inv(p, State(0, map[]))
  {
    assert Past(map[]) == {};
  }

  /** In every interleaving from the start, with at most `k` handlers at once. */
  lemma NeverMoreThan(p: Setup, events: seq<Event>)
    requires p.limit != 0 && p.k >= 1 && p.limit + p.k <= TWO_64
    ensures Exec(p, State(0, map[]), events).Some? ==> Exec(p, State(0, map[]), events).value.count <= p.limit + p.k - 1
  {
    hide Inv, Exec;
    EmptyIsGood(p);
    CounterBound(p, State(0, map[]), events);
  }

  // ---------- One handler's steps ----------

  /** A step concerns its own handler only, and the counter moves only by an increment, by one. */
  lemma StepIsOwn(p: Setup, s: State, e: Event, other: HandlerId)
    requires Enabled(p, s, e) && other != e.h
    ensures var s' := Next(p, s, e);
            && (other in s'.running <==> other in s.running)
            && (other in s.running ==> s'.running[other] == s.running[other])
            && (!e.Increment? ==> s'.count == s.count)
            && (e.Increment? && s.count < TWO_64 - 1 ==> s'.count == s.count + 1)
  {
    BumpSaturates(s.count, 1);
    hide Bump;
  }

  /** Where a step leads its handler: the check stops it exactly at the cap, the engine's refusal ends it, and
      an increment is its last step. */
  lemma StepLeads(p: Setup, s: State, e: Event)
    requires Enabled(p, s, e)
    ensures var s' := Next(p, s, e);
            match e
            case Start(h) => AtPhase(s', h, Started)
            case Check(h) => if p.limit != 0 && s.count >= p.limit then h !in s'.running else AtPhase(s', h, Checked)
            case Accept(h, ok) => if ok then AtPhase(s', h, Accepted) else h !in s'.running
            case Increment(h) => h !in s'.running
  {
    hide Bump;
  }

  // ---------- The bound is reached ----------

  lemma {:induction false} ExecTwice(p: Setup, s: State, a: seq<Event>, b: seq<Event>)
    requires Exec(p, s, a).Some?
    ensures Exec(p, s, a + b) == Exec(p, Exec(p, s, a).value, b)
    decreases |a|
  {
    hide Next;
    if a == [] {
      assert a + b == b;
    } else {
      assert (a + b)[1..] == a[1..] + b;
      ExecTwice(p, Next(p, s, a[0]), a[1..], b);
    }
  }

  lemma ExecOne(p: Setup, s: State, e: Event)
    requires Enabled(p, s, e)
    ensures Exec(p, s, [e]) == Some(Next(p, s, e))
  {
    assert [e][1..] == [];
  }

  predicate Below(h: HandlerId, n: nat) {
    h < n
  }

  /** Handlers 0, ..., n-1 all at one phase. */
  function Crowd(n: nat, phase: Phase): map<HandlerId, Phase> {
    map h: nat | 0 <= h < n && Below(h, n) :: phase
  }

  lemma CrowdSize(n: nat, phase: Phase)
    ensures |Crowd(n, phase)| == n
    decreases n
  {
    if n > 0 {
      CrowdSize(n - 1, phase);
      assert Crowd(n, phase) == Crowd(n - 1, phase)[n - 1 := phase];
    } else {
      assert Crowd(0, phase) == map[];
    }
  }

  /** One handler alone, from start to end. */
  lemma OneAlone(p: Setup, n: uint64)
    requires p.k >= 1 && (p.limit == 0 || n < p.limit) && n + 1 < TWO_64
    ensures Exec(p, State(n, map[]), [Start(0), Check(0), Accept(0, true), Increment(0)]) == Some(State(n + 1, map[]))
  {
    BumpSaturates(n, 1);
    hide Bump;
    var s, s1, s2, s3 :=
      State(n, map[]), State(n, map[0 := Started]), State(n, map[0 := Checked]), State(n, map[0 := Accepted]);
    assert Next(p, s, Start(0)) == s1 && Next(p, s1, Check(0)) == s2 && Next(p, s2, Accept(0, true)) == s3;
    assert Next(p, s3, Increment(0)) == State(n + 1, map[]);
    hide Exec;
    ExecFour(p, s, s1, s2, s3, [Start(0), Check(0), Accept(0, true), Increment(0)]);
  }

  /** One handler after the other, up to the limit less one. */
  lemma {:induction false} Serially(p: Setup, n: uint64) returns (events: seq<Event>)
    requires p.limit != 0 && p.k >= 1 && n < p.limit
    ensures Exec(p, State(0, map[]), events) == Some(State(n, map[]))
    decreases n
  {
    if n == 0 {
      events := [];
    } else {
      var before := Serially(p, n - 1);
      OneAlone(p, n - 1);
      var one := [Start(0), Check(0), Accept(0, true), Increment(0)];
      ExecTwice(p, State(0, map[]), before, one);
      events := before + one;
    }
    hide Exec;
  }

  lemma ExecFour(p: Setup, s: State, s1: State, s2: State, s3: State, e: seq<Event>)
    requires |e| == 4
    requires Enabled(p, s, e[0]) && Next(p, s, e[0]) == s1 && Enabled(p, s1, e[1]) && Next(p, s1, e[1]) == s2
    requires Enabled(p, s2, e[2]) && Next(p, s2, e[2]) == s3 && Enabled(p, s3, e[3])
    ensures Exec(p, s, e) == Some(Next(p, s3, e[3]))
  {
    hide Next, Enabled;
    assert e[1..][1..] == e[2..] && e[2..][1..] == e[3..] && e[3..][1..] == [];
    assert Exec(p, s3, e[3..]) == Exec(p, Next(p, s3, e[3]), []);
    assert Exec(p, s2, e[2..]) == Exec(p, s3, e[3..]);
    assert Exec(p, s1, e[1..]) == Exec(p, s2, e[2..]);
  }

  /** Handlers 0, ..., n-1 take one step each, from `from` to `to`; the rest stay at `from`. */
  function Mixed(n: nat, k: nat, from: Phase, to: Phase): map<HandlerId, Phase>
    requires n <= k
  {
    map h: nat | 0 <= h < k && Below(h, k) :: if h < n then to else from
  }

  lemma {:induction false} AllStart(p: Setup, count: uint64, n: nat) returns (events: seq<Event>)
    requires n <= p.k
    ensures Exec(p, State(count, map[]), events) == Some(State(count, Crowd(n, Started)))
    decreases n
  {
    if n == 0 {
      events := [];
      assert Crowd(0, Started) == map[];
    } else {
      var before := AllStart(p, count, n - 1);
      ExecTwice(p, State(count, map[]), before, [Start(n - 1)]);
      CrowdSize(n - 1, Started);
      assert Crowd(n, Started) == Crowd(n - 1, Started)[n - 1 := Started];
      ExecOne(p, State(count, Crowd(n - 1, Started)), Start(n - 1));
      events := before + [Start(n - 1)];
    }
  }

  /** All `k` handlers pass the check before any of them has counted, or all are accepted. */
  lemma {:induction false} AllMove(p: Setup, count: uint64, n: nat, from: Phase) returns (events: seq<Event>)
    requires n <= p.k && from != Accepted && (from == Started ==> p.limit == 0 || count < p.limit)
    ensures var to := if from == Started then Checked else Accepted;
            Exec(p, State(count, Crowd(p.k, from)), events) == Some(State(count, Mixed(n, p.k, from, to)))
    decreases n
  {
    var to := if from == Started then Checked else Accepted;
    var s0 := State(count, Crowd(p.k, from));
    if n == 0 {
      events := [];
      assert Mixed(0, p.k, from, to) == Crowd(p.k, from);
    } else {
      var before := AllMove(p, count, n - 1, from);
      var e := if from == Started then Check(n - 1) else Accept(n - 1, true);
      var mid := State(count, Mixed(n - 1, p.k, from, to));
      ExecTwice(p, s0, before, [e]);
      assert Mixed(n, p.k, from, to) == Mixed(n - 1, p.k, from, to)[n - 1 := to];
      assert AtPhase(mid, n - 1, from);
      ExecOne(p, mid, e);
      events := before + [e];
    }
  }

  lemma OneCounts(p: Setup, count: uint64, n: nat)
    requires n > 0 && count + 1 < TWO_64
    ensures var s := State(count, Crowd(n, Accepted));
            Enabled(p, s, Increment(n - 1)) && Next(p, s, Increment(n - 1)) == State(count + 1, Crowd(n - 1, Accepted))
  {
    BumpSaturates(count, 1);
    hide Bump;
    assert Below(n - 1, n);
    assert Crowd(n, Accepted) - {n - 1} == Crowd(n - 1, Accepted);
  }

  lemma NobodyLeft(p: Setup, count: uint64)
    ensures Exec(p, State(count, Crowd(0, Accepted)), []) == Some(State(count, map[]))
  {
    assert Crowd(0, Accepted) == map[];
  }

  lemma {:induction false} AllCount(p: Setup, count: uint64, n: nat) returns (events: seq<Event>)
    requires count + n < TWO_64
    ensures Exec(p, State(count, Crowd(n, Accepted)), events) == Some(State(count + n, map[]))
    decreases n
  {
    hide Exec, Next, Enabled, Crowd;
    if n == 0 {
      events := [];
      NobodyLeft(p, count);
    } else {
      OneCounts(p, count, n);
      var after := AllCount(p, count + 1, n - 1);
      events := [Increment(n - 1)] + after;
      Prepend(p, State(count, Crowd(n, Accepted)), Increment(n - 1), State(count + 1, Crowd(n - 1, Accepted)), after);
    }
  }

  lemma Prepend(p: Setup, s: State, e: Event, s1: State, events: seq<Event>)
    requires Enabled(p, s, e) && Next(p, s, e) == s1
    ensures Exec(p, s, [e] + events) == Exec(p, s1, events)
  {
    hide Next, Enabled;
    assert ([e] + events)[1..] == events;
  }

  /** For every limit and every k there is a run that ends with the counter at limit + k - 1: the check
      before the acceptance does not by itself keep the cap unless k is 1. */
  lemma BoundIsReached(p: Setup) returns (events: seq<Event>)
    requires p.limit != 0 && p.k >= 1 && p.limit + p.k <= TWO_64
    ensures Exec(p, State(0, map[]), events) == Some(State(p.limit + p.k - 1, map[]))
  {
    hide Exec, Next;
    var start, count := State(0, map[]), p.limit - 1;
    var serial := Serially(p, count);
    var starts := AllStart(p, count, p.k);
    var checks := AllMove(p, count, p.k, Started);
    assert Mixed(p.k, p.k, Started, Checked) == Crowd(p.k, Checked);
    var accepts := AllMove(p, count, p.k, Checked);
    assert Mixed(p.k, p.k, Checked, Accepted) == Crowd(p.k, Accepted);
    var counts := AllCount(p, count, p.k);
    ExecTwice(p, start, serial, starts);
    ExecTwice(p, start, serial + starts, checks);
    ExecTwice(p, start, serial + starts + checks, accepts);
    ExecTwice(p, start, serial + starts + checks + accepts, counts);
    events := serial + starts + checks + accepts + counts;
  }
}
