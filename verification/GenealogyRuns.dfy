/** What holds over whole sequential runs of genealogy requests from an empty store. */
module GenealogyRuns {
  import opened Wrappers
  import opened Records
  import opened Keys
  import opened Counters
  import opened PlatformTables
  import opened Authz
  import opened Genealogies

  datatype Step = Step(req: Request, env: Env)

  function After(c: Config, steps: seq<Step>, n: nat): State
    requires n <= |steps|
    decreases n
  {
    if n == 0 then State(EMPTY, map[]) else Apply(c, After(c, steps, n - 1), steps[n - 1].req, steps[n - 1].env).0
  }

  function Reply(c: Config, steps: seq<Step>, n: nat): Response
    requires n < |steps|
  {
    Apply(c, After(c, steps, n), steps[n].req, steps[n].env).1
  }

  /** The same run on a server without a cache. */
  function TablesAfter(limit: uint64, steps: seq<Step>, n: nat): Tables
    requires n <= |steps|
    decreases n, 0
  {
    if n == 0 then EMPTY else Perform(TablesAfter(limit, steps, n - 1), EffectAt(limit, steps, n - 1))
  }

  function EffectAt(limit: uint64, steps: seq<Step>, n: nat): Effect
    requires n < |steps|
    decreases n, 1
  {
    Uncached(TablesAfter(limit, steps, n), limit, steps[n].req, steps[n].env).0
  }

  function UncachedReply(limit: uint64, steps: seq<Step>, n: nat): Response
    requires n < |steps|
  {
    Uncached(TablesAfter(limit, steps, n), limit, steps[n].req, steps[n].env).1
  }

  /** Every step meets the model's assumptions on its surroundings; and, with no limit configured, the
      run is short enough for 64-bit counting. */
  ghost predicate GoodRun(limit: uint64, steps: seq<Step>) {
    && (forall n :: 0 <= n < |steps| ==> Admissible(TablesAfter(limit, steps, n), steps[n].req, steps[n].env))
    && (limit != 0 || |steps| < TWO_64)
  }

  lemma AtMostOneMore(rows: map<string, Genealogy>, e: Effect)
    ensures |GenealogiesAfter(rows, e)| <= |rows| + 1
  {
    var after := GenealogiesAfter(rows, e);
    assert after.Keys <= rows.Keys + {Subject(e)};
    SubsetIsSmaller(after.Keys, rows.Keys + {Subject(e)});
  }

  /** The invariant holds in every reachable state, and the cache is invisible: tables and replies are
      those of the run without it. */
  lemma {:induction false} RunKeepsInv(c: Config, steps: seq<Step>, n: nat)
    requires GoodRun(c.limit, steps) && n <= |steps|
    ensures Inv(c, After(c, steps, n))
    ensures After(c, steps, n).tables == TablesAfter(c.limit, steps, n)
    ensures |TablesAfter(c.limit, steps, n).genealogies| <= n
    ensures n < |steps| ==> Reply(c, steps, n) == UncachedReply(c.limit, steps, n)
    decreases n
  {
    hide Inv, Admissible, Apply, Uncached, Perform;
    if n == 0 {
      EmptyIsGood(c);
    } else {
      RunKeepsInv(c, steps, n - 1);
      OneStepKeepsInv(c, steps, n - 1);
    }
    if n < |steps| {
      ApplyKeepsInv(c, After(c, steps, n), steps[n].req, steps[n].env);
    }
  }

  lemma EmptyIsGood(c: Config)
    ensures Inv(c, State(EMPTY, map[]))
  {
    assert forall u :: PrivateOf(EMPTY.genealogies, u) == {};
  }

  lemma OneStepKeepsInv(c: Config, steps: seq<Step>, n: nat)
    requires GoodRun(c.limit, steps) && n < |steps|
    requires Inv(c, After(c, steps, n)) && After(c, steps, n).tables == TablesAfter(c.limit, steps, n)
    requires |TablesAfter(c.limit, steps, n).genealogies| <= n
    ensures Inv(c, After(c, steps, n + 1)) && After(c, steps, n + 1).tables == TablesAfter(c.limit, steps, n + 1)
    ensures |TablesAfter(c.limit, steps, n + 1).genealogies| <= n + 1
  {
    hide Inv, Admissible, Apply, Uncached, GenealogiesAfter;
    ApplyKeepsInv(c, After(c, steps, n), steps[n].req, steps[n].env);
    AtMostOneMore(TablesAfter(c.limit, steps, n).genealogies, EffectAt(c.limit, steps, n));
  }

  // ---------- Cache transparency ----------

  ghost predicate SameButClocks(a: seq<Step>, b: seq<Step>) {
    && |a| == |b|
    && forall i :: 0 <= i < |a| ==> b[i] == a[i].(env := a[i].env.(getAt := b[i].env.getAt, putAt := b[i].env.putAt))
  }

  lemma {:induction false} ClocksDoNotMatter(limit: uint64, a: seq<Step>, b: seq<Step>, n: nat)
    requires SameButClocks(a, b) && n <= |a|
    ensures TablesAfter(limit, a, n) == TablesAfter(limit, b, n)
    ensures n < |a| ==>
              Uncached(TablesAfter(limit, a, n), limit, a[n].req, a[n].env)
              == Uncached(TablesAfter(limit, b, n), limit, b[n].req, b[n].env)
    decreases n
  {
    hide Perform, ResolveFresh, TrimSpace, Owners;
    if n == 0 {
    } else {
      ClocksDoNotMatter(limit, a, b, n - 1);
    }
  }

  /** Two servers with any two TTLs and any cache clocks, given the same requests, hold the same tables
      and give the same replies throughout; and each cached decision, expired or not, is the one the
      present tables give. */
  lemma CacheTransparency(c: Config, ttl: int, steps: seq<Step>, other: seq<Step>, n: nat)
    requires GoodRun(c.limit, steps) && SameButClocks(steps, other) && n <= |steps|
    ensures After(c, steps, n).tables == After(c.(ttl := ttl), other, n).tables
    ensures n < |steps| ==> Reply(c, steps, n) == Reply(c.(ttl := ttl), other, n)
    ensures Coherent(After(c, steps, n).tables, After(c, steps, n).cache)
  {
    forall m | 0 <= m <= |steps|
      ensures TablesAfter(c.limit, steps, m) == TablesAfter(c.limit, other, m)
    {
      ClocksDoNotMatter(c.limit, steps, other, m);
    }
    hide TablesAfter, After, Uncached, Apply;
    assert GoodRun(c.limit, other);
    RunKeepsInv(c, steps, n);
    RunKeepsInv(c.(ttl := ttl), other, n);
    ClocksDoNotMatter(c.limit, steps, other, n);
  }

  // ---------- Quota conservation ----------

  /** In every reachable state each user's counter is the number of live Private genealogies created
      by that user, and a configured limit is not exceeded. */
  lemma QuotaConservation(c: Config, steps: seq<Step>, n: nat, u: string)
    requires GoodRun(c.limit, steps) && n <= |steps|
    ensures var t := After(c, steps, n).tables;
            && UserCount(t, u) == |PrivateOf(t.genealogies, u)|
            && (c.limit != 0 ==> UserCount(t, u) <= c.limit)
  {
    RunKeepsInv(c, steps, n);
  }

  /** No step of a run takes the counter's saturating branch: a decrement finds it positive. */
  lemma CountersNeverSaturate(c: Config, steps: seq<Step>, n: nat)
    requires GoodRun(c.limit, steps) && n < |steps|
    ensures var t := TablesAfter(c.limit, steps, n);
            var change := CountChangeOf(t.genealogies, EffectAt(c.limit, steps, n));
            change.Adjust? ==> 0 <= UserCount(t, change.sub) + change.delta < TWO_64
  {
    hide Uncached, CountersExact, Grounded, WithinLimit, Coherent, Legal, Admissible;
    RunKeepsInv(c, steps, n);
    var t := TablesAfter(c.limit, steps, n);
    HandleIsLegal(t, c.limit, steps[n].req, steps[n].env);
    LegalChangeFits(c, t, EffectAt(c.limit, steps, n));
  }

  lemma LegalChangeFits(c: Config, t: Tables, e: Effect)
    requires CountersExact(t) && Room(c, t) && Legal(t, c.limit, e)
    ensures var change := CountChangeOf(t.genealogies, e);
            change.Adjust? ==> 0 <= UserCount(t, change.sub) + change.delta < TWO_64
  {
    hide PrivateOf, Owners, SlashFree;
    var change := CountChangeOf(t.genealogies, e);
    if change.Adjust? {
      PrivateFitsInTables(t.genealogies, change.sub);
      SomePrivate(t.genealogies, Subject(e), change.sub);
    }
  }

  // ---------- Ownership ----------

  ghost predicate Owned(t: Tables) {
    forall g :: g in t.genealogies ==> Owners(t.members, g) != {}
  }

  /** The effect rewrites the only Owner's row with a lower role. */
  ghost predicate DemotesLastOwner(t: Tables, e: Effect) {
    e.Grant? && e.row.role != Owner && Owners(t.members, e.row.genealogyId) == {e.row.subject}
  }

  lemma SomeoneElse(s: set<string>, x: string)
    requires |s| > 1
    ensures s - {x} != {}
  {
    if s - {x} == {} {
      SubsetIsSmaller(s, {x});
    }
  }

  lemma OwnersAfterRevoke(members: map<Seat, Membership>, gid: string, sub: string, g: string)
    ensures Owners(members - {Seat(gid, sub)}, g) == if g == gid then Owners(members, g) - {sub} else Owners(members, g)
  {
  }

  lemma OwnersAfterPut(members: map<Seat, Membership>, m: Membership, g: string)
    ensures Owners(members[Seat(m.genealogyId, m.subject) := m], g)
            == if g != m.genealogyId then Owners(members, g)
               else if m.role == Owner then Owners(members, g) + {m.subject}
               else Owners(members, g) - {m.subject}
  {
  }

  /** From any state whatever, and whatever decision the handler works with, removing a member and
      leaving never take a genealogy from some Owners to none. */
  lemma RemovalKeepsAnOwner(t: Tables, limit: uint64, req: Request, d: Option<Decision>, env: Env, g: string)
    requires req.Remove? || req.Leave?
    requires Owners(t.members, g) != {}
    ensures Owners(Perform(t, Handle(t, limit, req, d, env).0).members, g) != {}
  {
    hide TrimSpace, Owners, Adjusted;
    var e := Handle(t, limit, req, d, env).0;
    if e.Revoke? {
      OwnersAfterRevoke(t.members, e.gid, e.sub, g);
      if t.members[Seat(e.gid, e.sub)].role == Owner {
        SomeoneElse(Owners(t.members, e.gid), e.sub);
      } else {
        NotAnOwner(t.members, e.gid, e.sub);
      }
    }
  }

  lemma NotAnOwner(members: map<Seat, Membership>, gid: string, sub: string)
    requires Seat(gid, sub) in members && members[Seat(gid, sub)].role != Owner
    ensures sub !in Owners(members, gid)
  {
  }

  /** Exactly one kind of effect leaves a live genealogy without an Owner: a grant that demotes the
      last one. */
  lemma OwnedUnlessDemoted(t: Tables, limit: uint64, e: Effect)
    requires Grounded(t) && Legal(t, limit, e) && Owned(t)
    ensures Owned(Perform(t, e)) <==> !DemotesLastOwner(t, e)
  {
    var t' := Perform(t, e);
    if DemotesLastOwner(t, e) {
      OwnersAfterPut(t.members, e.row, e.row.genealogyId);
      assert e.row.genealogyId in t'.genealogies && Owners(t'.members, e.row.genealogyId) == {};
    } else {
      forall g | g in t'.genealogies ensures Owners(t'.members, g) != {} {
        OwnersOfOne(t, limit, e, g);
      }
    }
  }

  lemma OwnersOfOne(t: Tables, limit: uint64, e: Effect, g: string)
    requires Legal(t, limit, e) && Owned(t) && !DemotesLastOwner(t, e) && g in Perform(t, e).genealogies
    ensures Owners(Perform(t, e).members, g) != {}
  {
    hide Owners, Adjusted, AtQuota, SlashFree, BansAfter;
    var members' := Perform(t, e).members;
    match e
    case Establish(_, owner) => OwnersAfterPut(t.members, owner, g);
    case Grant(m) => OwnersAfterPut(t.members, m, g);
    case Revoke(gid, sub) =>
      OwnersAfterRevoke(t.members, gid, sub, g);
      if t.members[Seat(gid, sub)].role == Owner {
        SomeoneElse(Owners(t.members, gid), sub);
      } else {
        NotAnOwner(t.members, gid, sub);
      }
    case Abolish(gid) => OwnersElsewhere(t.members, gid, g);
    case _ =>
  }

  lemma OwnersElsewhere(members: map<Seat, Membership>, gid: string, g: string)
    requires g != gid
    ensures Owners(map k | k in members && k.gid != gid :: members[k], g) == Owners(members, g)
  {
  }

  ghost predicate OwnedAt(limit: uint64, steps: seq<Step>, n: nat)
    requires n <= |steps|
  {
    Owned(TablesAfter(limit, steps, n))
  }

  ghost predicate DemotedAt(limit: uint64, steps: seq<Step>, i: nat)
    requires i < |steps|
  {
    DemotesLastOwner(TablesAfter(limit, steps, i), EffectAt(limit, steps, i))
  }

  lemma OwnedAtStart(limit: uint64, steps: seq<Step>)
    ensures OwnedAt(limit, steps, 0)
  {
  }

  /** If every genealogy has an Owner, a step of the run keeps it so exactly when it demotes no last one. */
  lemma StepKeepsOwned(c: Config, steps: seq<Step>, n: nat)
    requires GoodRun(c.limit, steps) && n < |steps| && OwnedAt(c.limit, steps, n)
    ensures OwnedAt(c.limit, steps, n + 1) <==> !DemotedAt(c.limit, steps, n)
  {
    hide Perform, Uncached, Legal, Owned, DemotesLastOwner, Apply, Admissible, Grounded, Coherent;
    RunKeepsInv(c, steps, n);
    HandleIsLegal(TablesAfter(c.limit, steps, n), c.limit, steps[n].req, steps[n].env);
    OwnedUnlessDemoted(TablesAfter(c.limit, steps, n), c.limit, EffectAt(c.limit, steps, n));
  }

  /** Every live genealogy has an Owner at every moment of a run exactly when no grant of the run demotes
      a last Owner. */
  lemma {:induction false} OwnedThroughoutIff(c: Config, steps: seq<Step>, n: nat)
    requires GoodRun(c.limit, steps) && n <= |steps|
    ensures (forall m :: 0 <= m <= n ==> OwnedAt(c.limit, steps, m))
            <==> (forall i :: 0 <= i < n ==> !DemotedAt(c.limit, steps, i))
    decreases n
  {
    hide OwnedAt, DemotedAt, GoodRun;
    if n == 0 {
      OwnedAtStart(c.limit, steps);
    } else {
      OwnedThroughoutIff(c, steps, n - 1);
      if OwnedAt(c.limit, steps, n - 1) {
        StepKeepsOwned(c, steps, n - 1);
      }
    }
  }

  /** The condition is needed: a sole Owner may demote itself, and the genealogy is left without one. */
  lemma SoleOwnerMayDemoteItself(t: Tables, limit: uint64, gid: string, sub: string, role: Role, env: Env)
    requires Grounded(t) && gid in t.genealogies && Owners(t.members, gid) == {sub}
    requires role != NoRole && role != Owner && TrimSpace(sub) == sub
    ensures var (e, response) := Uncached(t, limit, Upsert(sub, gid, sub, role), env);
            response == Done && Owners(Perform(t, e).members, gid) == {}
  {
    assert sub in Owners(t.members, gid);
    hide TrimSpace;
    var e := Uncached(t, limit, Upsert(sub, gid, sub, role), env).0;
    OwnersAfterPut(t.members, e.row, gid);
  }

  // ---------- Grant provenance ----------

  function RoleToGrant(role: Role): Role {
    if role == Owner then Owner else Curator
  }

  /** Step `i` wrote the row: at creation, by the creator, or by an actor who then held an explicit
      Curator or Owner row, an Owner row if the granted role is Owner. */
  ghost predicate WrittenAt(limit: uint64, steps: seq<Step>, i: nat, row: Membership)
    requires i < |steps|
  {
    var t, e := TablesAfter(limit, steps, i), EffectAt(limit, steps, i);
    || (e.Establish? && e.owner == row && row.subject == row.grantedBy == e.record.createdBy)
    || (&& e.Grant? && e.row == row
        && Seat(row.genealogyId, row.grantedBy) in t.members
        && t.members[Seat(row.genealogyId, row.grantedBy)].role.AtLeast(RoleToGrant(row.role)))
  }

  ghost predicate Standing(limit: uint64, steps: seq<Step>, from: nat, to: nat, row: Membership)
    requires to <= |steps|
  {
    forall i :: from <= i <= to ==> RowOf(TablesAfter(limit, steps, i), row.genealogyId, row.subject) == Some(row)
  }

  /** A row at time `n` has stood since a step that wrote it, and so, at that step, had the row of the
      actor who granted it: the chain of grants goes back in time to the creation of the genealogy. */
  ghost predicate Traced(limit: uint64, steps: seq<Step>, n: nat, row: Membership)
    requires n <= |steps|
    decreases n, 0
  {
    exists i :: 0 <= i < n && TracedFrom(limit, steps, i, n, row)
  }

  ghost predicate TracedFrom(limit: uint64, steps: seq<Step>, i: nat, n: nat, row: Membership)
    requires i < n <= |steps|
    decreases i, 1
  {
    && WrittenAt(limit, steps, i, row)
    && Standing(limit, steps, i + 1, n, row)
    && (EffectAt(limit, steps, i).Grant? ==>
          Traced(limit, steps, i, TablesAfter(limit, steps, i).members[Seat(row.genealogyId, row.grantedBy)]))
  }

  lemma GrantsComeFromCurators(t: Tables, limit: uint64, req: Request, env: Env)
    requires Grounded(t)
    ensures var e := Uncached(t, limit, req, env).0;
            && (e.Establish? ==> e.owner.subject == e.owner.grantedBy == e.record.createdBy)
            && (e.Grant? ==>
                  && Seat(e.row.genealogyId, e.row.grantedBy) in t.members
                  && t.members[Seat(e.row.genealogyId, e.row.grantedBy)].role.AtLeast(RoleToGrant(e.row.role)))
  {
    hide TrimSpace, ResolveFresh, Owners, SlashFree, AtQuota;
    if req.Upsert? {
      var d := ResolveFresh(t, req.sub, req.gid);
      if d.Some? && d.value.role.AtLeast(Curator) {
        HighRolesAreExplicit(t, req.sub, req.gid);
      }
    }
  }

  /** A row present after an effect was there before it, or the effect wrote it. */
  lemma RowsComeFromWrites(t: Tables, e: Effect, k: Seat)
    requires k in Perform(t, e).members
    ensures || (k in t.members && t.members[k] == Perform(t, e).members[k])
            || (e.Establish? && Perform(t, e).members[k] == e.owner)
            || (e.Grant? && Perform(t, e).members[k] == e.row)
  {
    hide Adjusted, BansAfter, GenealogiesAfter;
  }

  /** How a row present after step `i` came about. */
  lemma RowAfterStep(c: Config, steps: seq<Step>, i: nat, k: Seat)
    requires GoodRun(c.limit, steps) && i < |steps|
    requires k in TablesAfter(c.limit, steps, i + 1).members
    ensures var row := TablesAfter(c.limit, steps, i + 1).members[k];
            && row.genealogyId == k.gid && row.subject == k.sub
            && (RowOf(TablesAfter(c.limit, steps, i), k.gid, k.sub) != Some(row) ==> WrittenAt(c.limit, steps, i, row))
  {
    RunKeepsInv(c, steps, i + 1);
    RunKeepsInv(c, steps, i);
    var t, e := TablesAfter(c.limit, steps, i), EffectAt(c.limit, steps, i);
    assert TablesAfter(c.limit, steps, i + 1) == Perform(t, e);
    GrantsComeFromCurators(t, c.limit, steps[i].req, steps[i].env);
    hide Perform, TablesAfter, EffectAt;
    RowsComeFromWrites(t, e, k);
  }

  /** In every run, every membership row traces back through its grants to a creation. */
  lemma {:induction false} EveryRowIsTraced(c: Config, steps: seq<Step>, n: nat, k: Seat)
    requires GoodRun(c.limit, steps) && n <= |steps|
    requires k in TablesAfter(c.limit, steps, n).members
    ensures Traced(c.limit, steps, n, TablesAfter(c.limit, steps, n).members[k])
    decreases n
  {
    assert n > 0;
    hide TablesAfter, EffectAt, GoodRun;
    var limit, i := c.limit, n - 1;
    var row := TablesAfter(limit, steps, n).members[k];
    RowAfterStep(c, steps, i, k);
    if RowOf(TablesAfter(limit, steps, i), k.gid, k.sub) == Some(row) {
      EveryRowIsTraced(c, steps, i, k);
      ExtendTrace(limit, steps, i, row);
    } else {
      if EffectAt(limit, steps, i).Grant? {
        EveryRowIsTraced(c, steps, i, Seat(row.genealogyId, row.grantedBy));
      }
      assert TracedFrom(limit, steps, i, n, row);
    }
  }

  lemma ExtendTrace(limit: uint64, steps: seq<Step>, n: nat, row: Membership)
    requires n < |steps| && Traced(limit, steps, n, row)
    requires RowOf(TablesAfter(limit, steps, n + 1), row.genealogyId, row.subject) == Some(row)
    ensures Traced(limit, steps, n + 1, row)
  {
    hide TablesAfter, EffectAt;
    var i :| 0 <= i < n && TracedFrom(limit, steps, i, n, row);
    assert TracedFrom(limit, steps, i, n + 1, row);
  }

  // ---------- What a request can reach ----------

  function Addressed(req: Request, env: Env): string {
    if req.Create? then env.freshId else req.gid
  }

  /** A request addressed to one genealogy changes no other genealogy's record, memberships, bans,
      person counter or decisions. */
  lemma RequestIsLocal(t: Tables, limit: uint64, req: Request, env: Env, gid: string, sub: string)
    requires Grounded(t) && Admissible(t, req, env) && gid != Addressed(req, env)
    ensures var t' := Perform(t, Uncached(t, limit, req, env).0);
            SameAbout(t, t', gid) && ResolveFresh(t', sub, gid) == ResolveFresh(t, sub, gid)
  {
    EffectIsAddressed(t, limit, req, env);
    HandleIsLegal(t, limit, req, env);
    hide Uncached, Perform, ResolveFresh, Legal;
    var e := Uncached(t, limit, req, env).0;
    if e.Nothing? {
      NothingChanges(t);
    } else {
      PerformIsLocal(t, limit, e, gid);
      SameDecision(t, Perform(t, e), sub, gid);
    }
  }

  lemma EffectIsAddressed(t: Tables, limit: uint64, req: Request, env: Env)
    requires Grounded(t)
    ensures var e := Uncached(t, limit, req, env).0;
            e.Nothing? || Subject(e) == Addressed(req, env)
  {
    assert forall g :: g in t.genealogies ==> t.genealogies[g].id == g;
    hide TrimSpace, ResolveFresh, Grounded, Owners, SlashFree, AtQuota;
  }

  /** An actor without an explicit Curator or Owner row in an existing genealogy changes nothing about
      it, except that it may take away its own row by leaving. */
  lemma LowActorsChangeNothing(t: Tables, limit: uint64, req: Request, env: Env, gid: string)
    requires Grounded(t) && Admissible(t, req, env) && gid in t.genealogies
    requires RowOf(t, gid, req.sub).Some? ==> !RowOf(t, gid, req.sub).value.role.AtLeast(Curator)
    ensures var t' := Perform(t, Uncached(t, limit, req, env).0);
            || SameAbout(t, t', gid)
            || (req == Leave(req.sub, gid) && t' == DropMember(t, gid, req.sub))
  {
    assert req.Create? ==> gid != env.freshId;
    hide Uncached, Perform, Grounded, Admissible;
    if gid != Addressed(req, env) {
      RequestIsLocal(t, limit, req, env, gid, req.sub);
    } else if req.Leave? {
      LeavingRemovesOwnRow(t, limit, req, env);
    } else {
      LowActorsHaveNoEffect(t, limit, req, env);
      NothingChanges(t);
    }
  }

  lemma LowActorsHaveNoEffect(t: Tables, limit: uint64, req: Request, env: Env)
    requires Grounded(t) && Resolves(req) && !HasRole(t, req.gid, req.sub, Curator)
    ensures Uncached(t, limit, req, env).0 == Nothing
  {
    var d := ResolveFresh(t, req.sub, req.gid);
    if d.Some? && d.value.role.AtLeast(Curator) {
      HighRolesAreExplicit(t, req.sub, req.gid);
    }
    hide TrimSpace, ResolveFresh, Owners, SlashFree, AtQuota, Grounded;
  }

  lemma LeavingRemovesOwnRow(t: Tables, limit: uint64, req: Request, env: Env)
    requires req.Leave?
    ensures var t' := Perform(t, Uncached(t, limit, req, env).0);
            t' == t || t' == DropMember(t, req.gid, req.sub)
  {
    NothingChanges(t);
    PerformOnRows(t, Membership(req.sub, req.gid, NoRole, "", 0), Ban("", "", "", "", 0));
    hide Perform, Owners, ResolveFresh;
  }

  ghost predicate HasRole(t: Tables, gid: string, sub: string, min: Role) {
    RowOf(t, gid, sub).Some? && RowOf(t, gid, sub).value.role.AtLeast(min)
  }

  /** Authority: whatever a request changes in an existing genealogy, its actor then held an explicit
      row that entitles it to that. */
  lemma EffectsNeedAuthority(t: Tables, limit: uint64, req: Request, env: Env)
    requires Grounded(t)
    ensures var e, actor := Uncached(t, limit, req, env).0, req.sub;
            match e
            case Nothing => true
            case Establish(_, owner) => owner.subject == actor
            case Revise(g) => HasRole(t, g.id, actor, Owner)
            case Abolish(gid) => HasRole(t, gid, actor, Owner)
            case Grant(m) => HasRole(t, m.genealogyId, actor, if m.role == Owner then Owner else Curator)
            case Revoke(gid, sub) =>
              || (sub == actor && req.Leave?)
              || HasRole(t, gid, actor, if t.members[Seat(gid, sub)].role == Owner then Owner else Curator)
            case Exclude(b) => HasRole(t, b.genealogyId, actor, Curator)
            case Readmit(gid, _) => HasRole(t, gid, actor, Curator)
  {
    assert forall g :: g in t.genealogies ==> t.genealogies[g].id == g;
    if Resolves(req) {
      var d := ResolveFresh(t, req.sub, req.gid);
      if d.Some? && d.value.role.AtLeast(Curator) {
        HighRolesAreExplicit(t, req.sub, req.gid);
      }
    }
    hide TrimSpace, ResolveFresh, Grounded, Owners, SlashFree, AtQuota;
  }

  /** Completeness: an Owner's request is only ever refused for a malformed field, the quota, the disk,
      or the last Owner. */
  lemma OwnersAreServed(t: Tables, limit: uint64, req: Request, env: Env)
    requires Grounded(t) && !req.Create? && HasRole(t, req.gid, req.sub, Owner)
    ensures var (e, response) := Uncached(t, limit, req, env);
            match req
            case SetVisibility(_, gid, wanted) =>
              wanted.Some? ==>
                || (response == Done && e == Revise(t.genealogies[gid].(visibility := wanted.value)))
                || (&& response == Refused(QuotaExceeded) && wanted.value == Private
                    && AtQuota(t, limit, t.genealogies[gid].createdBy))
            case Delete(_, gid) =>
              if env.diskOk then response == Done && e == Abolish(gid) else response == Refused(DiskError)
            case Upsert(_, gid, target, role) =>
              role != NoRole && TrimSpace(target) != "" ==>
                && response == Done && e.Grant?
                && e.row.role == role && e.row.subject == TrimSpace(target) && e.row.genealogyId == gid
            case Remove(_, gid, target) =>
              || (response == Done && Seat(gid, TrimSpace(target)) in t.members && e == Revoke(gid, TrimSpace(target)))
              || (response == Done && Seat(gid, TrimSpace(target)) !in t.members && e == Nothing)
              || (response == Refused(LastOwner) && Owners(t.members, gid) == {TrimSpace(target)})
            case Leave(sub, gid) =>
              || (response == Done && e == Revoke(gid, sub))
              || (response == Refused(LastOwner) && Owners(t.members, gid) == {sub})
            case BanUser(_, gid, target, _) =>
              target != "" ==> response == Done && e.Exclude? && e.ban.subject == target
            case UnbanUser(_, gid, target) => response == Done && e == Readmit(gid, target)
            case Read(_, gid) => response == Shown(t.genealogies[gid], Owner)
  {
    hide TrimSpace, AtQuota, SlashFree;
    assert req.sub != "" && req.gid in t.genealogies && req.gid != "";
    if req.Remove? || req.Leave? {
      var target := if req.Leave? then req.sub else TrimSpace(req.target);
      if HasRole(t, req.gid, target, Owner) && |Owners(t.members, req.gid)| <= 1 {
        OnlyMember(Owners(t.members, req.gid), target);
      }
    }
    hide Owners, Grounded;
  }

  lemma OnlyMember(s: set<string>, x: string)
    requires x in s && |s| <= 1
    ensures s == {x}
  {
    if y :| y in s && y != x {
      SubsetIsSmaller({x, y}, s);
    }
  }

  // ---------- The same on the flat store ----------

  predicate About(k: Key, gid: string) {
    (k.GenealogyK? || k.MembershipK? || k.ReverseK? || k.BanK? || k.PersonCountK?) && k.gid == gid
  }

  lemma FlatSame(db: map<string, Value>, db': map<string, Value>, t: Tables, t': Tables, gid: string, k: Key)
    requires Consistent(t) && Consistent(t') && Represents(db, t) && Represents(db', t')
    requires SameAbout(t, t', gid) && t'.personCounts == t.personCounts
    requires WellFormed(k) && About(k, gid)
    ensures Flat(k) in db' <==> Flat(k) in db
    ensures Flat(k) in db ==> db'[Flat(k)] == db[Flat(k)]
  {
    hide Flat, Represents, BigEndian;
    LookupIsExact(db, t, k);
    LookupIsExact(db', t', k);
    if k.MembershipK? || k.ReverseK? {
      assert RowOf(t', gid, k.sub) == RowOf(t, gid, k.sub);
    }
  }

  /** Frame on the flat store: a request addressed to one genealogy adds, removes or rewrites no string of
      another genealogy's rows. */
  lemma FlatFrame(db: map<string, Value>, db': map<string, Value>, t: Tables, limit: uint64, req: Request, env: Env,
                  gid: string, k: Key)
    requires Grounded(t) && Admissible(t, req, env) && gid != Addressed(req, env)
    requires Represents(db, t) && Represents(db', Perform(t, Uncached(t, limit, req, env).0))
    requires WellFormed(k) && About(k, gid)
    ensures Flat(k) in db' <==> Flat(k) in db
    ensures Flat(k) in db ==> db'[Flat(k)] == db[Flat(k)]
  {
    var e := Uncached(t, limit, req, env).0;
    var t' := Perform(t, e);
    RequestIsLocal(t, limit, req, env, gid, "");
    HandleIsLegal(t, limit, req, env);
    PerformKeepsGrounded(t, limit, e);
    hide Flat, Represents, Uncached, SameAbout;
    FlatSame(db, db', t, t', gid, k);
  }

  /** No string of either membership index belongs to a genealogy that is not live. */
  lemma DeadGenealogyHasNoRow(db: map<string, Value>, t: Tables, gid: string, s: string, sub: string)
    requires Grounded(t) && Represents(db, t) && SlashFree(gid) && gid !in t.genealogies
    requires s in db
    ensures !(MembersPrefix(gid) <= s) && s != Flat(ReverseK(sub, gid))
  {
    hide Flat;
    var k := ScannedRow(db, t, s);
    MembersScan(gid, k);
    if s == Flat(ReverseK(sub, gid)) {
      FlatIsInjective(k, ReverseK(sub, gid));
    }
  }

  /** A deletion that succeeds leaves no string of either membership index behind for its genealogy, and a
      deletion by an Owner on a working disk succeeds. */
  lemma DeletionLeavesNoRow(db': map<string, Value>, t: Tables, limit: uint64, sub: string, gid: string, env: Env,
                            s: string, member: string)
    requires Grounded(t) && Represents(db', Perform(t, Uncached(t, limit, Delete(sub, gid), env).0))
    requires HasRole(t, gid, sub, Owner) && env.diskOk
    ensures Uncached(t, limit, Delete(sub, gid), env).1 == Done
    ensures s in db' ==> s != Flat(GenealogyK(gid)) && !(MembersPrefix(gid) <= s) && s != Flat(ReverseK(member, gid))
  {
    OwnersAreServed(t, limit, Delete(sub, gid), env);
    HandleIsLegal(t, limit, Delete(sub, gid), env);
    var t' := Perform(t, Abolish(gid));
    PerformKeepsGrounded(t, limit, Abolish(gid));
    assert gid in t.genealogies && gid !in t'.genealogies;
    hide Flat, Represents, Uncached, Perform;
    if s in db' {
      LookupIsExact(db', t', GenealogyK(gid));
      DeadGenealogyHasNoRow(db', t', gid, s, member);
    }
  }

  /** The exact residue of a deletion: of all the strings about the deleted genealogy, its bans and its
      person counter stay, with their values, and nothing else does. */
  lemma DeletionResidue(db: map<string, Value>, db': map<string, Value>, t: Tables, limit: uint64, gid: string, k: Key)
    requires Grounded(t) && gid in t.genealogies
    requires Represents(db, t) && Represents(db', Perform(t, Abolish(gid)))
    requires WellFormed(k) && About(k, gid)
    ensures Flat(k) in db' <==> (k.BanK? || k.PersonCountK?) && Flat(k) in db
    ensures Flat(k) in db' ==> db'[Flat(k)] == db[Flat(k)]
  {
    var t' := Perform(t, Abolish(gid));
    PerformKeepsGrounded(t, limit, Abolish(gid));
    hide Flat, Represents, BigEndian, Adjusted;
    LookupIsExact(db, t, k);
    LookupIsExact(db', t', k);
  }

  /** A deletion clears the genealogy out of the database exactly when it had no ban and no person counter. */
  lemma DeletionIsCompleteIff(db: map<string, Value>, db': map<string, Value>, t: Tables, limit: uint64, gid: string)
    requires Grounded(t) && gid in t.genealogies
    requires Represents(db, t) && Represents(db', Perform(t, Abolish(gid)))
    ensures (forall k :: WellFormed(k) && About(k, gid) ==> Flat(k) !in db')
            <==> gid !in t.personCounts && forall sub :: Seat(gid, sub) !in t.bans
  {
    assert SlashFree(gid) && Consistent(t);
    forall k | WellFormed(k) && About(k, gid)
      ensures Flat(k) in db' <==> (k.BanK? || k.PersonCountK?) && Holds(t, k)
    {
      hide Flat, Represents, Perform, Grounded, Consistent;
      DeletionResidue(db, db', t, limit, gid, k);
      LookupIsExact(db, t, k);
    }
    hide Flat, Represents, Perform, Grounded, Consistent, SlashFree;
    if gid in t.personCounts {
      assert About(PersonCountK(gid), gid) && Holds(t, PersonCountK(gid));
    }
    if sub :| Seat(gid, sub) in t.bans {
      assert About(BanK(gid, sub), gid) && Holds(t, BanK(gid, sub));
    }
  }

  /** A genealogy with one member, who owns it, and one ban. */
  function OneBan(gid: string, owner: string, banned: string): Tables {
    EMPTY.(genealogies := map[gid := Genealogy(gid, "Tree", Public, owner, 1)],
           members := map[Seat(gid, owner) := Membership(owner, gid, Owner, owner, 1)],
           bans := map[Seat(gid, banned) := Ban(banned, gid, "", owner, 1)])
  }

  /** The Owner's deletion is served and the ban is still there. */
  lemma BansOutliveDeletion(limit: uint64, gid: string, owner: string, banned: string, env: Env)
    requires gid != "" && SlashFree(gid) && owner != "" && env.diskOk
    ensures var t := OneBan(gid, owner, banned);
            var (e, response) := Uncached(t, limit, Delete(owner, gid), env);
            && Grounded(t) && response == Done
            && gid !in Perform(t, e).genealogies && Seat(gid, banned) in Perform(t, e).bans
  {
    hide SlashFree;
    assert Grounded(OneBan(gid, owner, banned));
    OwnersAreServed(OneBan(gid, owner, banned), limit, Delete(owner, gid), env);
  }

  // ---------- Who is shown a genealogy ----------

  predicate MaySee(t: Tables, sub: string, gid: string) {
    && gid in t.genealogies
    && (|| Seat(gid, sub) in t.members
        || t.genealogies[gid].visibility == Public
        || (t.genealogies[gid].visibility == Unlisted && sub != ""))
  }

  function RoleShown(t: Tables, sub: string, gid: string): Role {
    if Seat(gid, sub) in t.members then t.members[Seat(gid, sub)].role else if sub == "" then Viewer else Contributor
  }

  /** In every run, whatever has been cached and whatever the clocks read, a request to see a genealogy is
      served exactly when visibility or a row allows it at that moment, and with the role it then gives. */
  lemma ReadsObeyAccessRules(c: Config, steps: seq<Step>, n: nat)
    requires GoodRun(c.limit, steps) && n < |steps| && steps[n].req.Read?
    ensures var t, sub, gid := After(c, steps, n).tables, steps[n].req.sub, steps[n].req.gid;
            Reply(c, steps, n) == if MaySee(t, sub, gid) then Shown(t.genealogies[gid], RoleShown(t, sub, gid))
                                  else Refused(NotAllowed)
  {
    RunKeepsInv(c, steps, n);
    var t, sub, gid := TablesAfter(c.limit, steps, n), steps[n].req.sub, steps[n].req.gid;
    assert Consistent(t) && UncachedReply(c.limit, steps, n) == HandleRead(t, gid, ResolveFresh(t, sub, gid)).1;
    AccessRules(t, sub, gid);
    hide ResolveFresh, TablesAfter, After, Reply, UncachedReply, Inv, Consistent;
  }
}
