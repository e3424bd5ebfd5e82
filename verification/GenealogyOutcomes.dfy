/** What each request must do, said of the tables before and after it and of the reply, and proved of every
    step of every run.  Nothing here is said in terms of the handlers: who may do what is read off the
    membership rows and the visibility, and the quota off the records. */
module GenealogyOutcomes {
  import opened Wrappers
  import opened Records
  import opened Counters
  import opened PlatformTables
  import opened Authz
  import opened Genealogies
  import opened GenealogyRuns

  // ---------- Who may do what ----------

  predicate Owns(t: Tables, gid: string, sub: string) {
    Seat(gid, sub) in t.members && t.members[Seat(gid, sub)].role == Owner
  }

  predicate Manages(t: Tables, gid: string, sub: string) {
    Seat(gid, sub) in t.members && (var role := t.members[Seat(gid, sub)].role; role == Curator || role == Owner)
  }

  ghost predicate OnlyOwner(t: Tables, gid: string, sub: string) {
    Owns(t, gid, sub) && forall other :: Owns(t, gid, other) ==> other == sub
  }

  /** The user has as many live Private genealogies as the limit allows. */
  predicate Full(t: Tables, limit: uint64, u: string) {
    limit != 0 && |PrivateOf(t.genealogies, u)| == limit
  }

  // ---------- Outcomes ----------

  /** A step of the service: the tables before and after, and the reply. */
  datatype Change = Change(t: Tables, t': Tables, reply: Response)

  predicate Refuses(x: Change, reason: Reason) {
    x.reply == Refused(reason) && x.t' == x.t
  }

  /** Done, with these records, memberships and bans; users and person counters are as before. */
  predicate Leaves(x: Change, genealogies: map<string, Genealogy>, members: map<Seat, Membership>,
                   bans: map<Seat, Ban>) {
    && x.reply == Done
    && x.t'.genealogies == genealogies && x.t'.members == members && x.t'.bans == bans
    && x.t'.users == x.t.users && x.t'.personCounts == x.t.personCounts
  }

  ghost predicate Creates(x: Change, limit: uint64, sub: string, name: string, wanted: Option<Visibility>, env: Env) {
    var vis := if wanted.Some? then wanted.value else Private;
    var record := Genealogy(env.freshId, TrimSpace(name), vis, sub, env.now);
    if sub == "" then Refuses(x, AuthenticationRequired)
    else if TrimSpace(name) == "" then Refuses(x, NameRequired)
    else if vis == Private && Full(x.t, limit, sub) then Refuses(x, QuotaExceeded)
    else Leaves(x, x.t.genealogies[env.freshId := record],
                x.t.members[Seat(env.freshId, sub) := Membership(sub, env.freshId, Owner, sub, env.now)], x.t.bans)
  }

  ghost predicate SetsVisibility(x: Change, limit: uint64, sub: string, gid: string, wanted: Option<Visibility>) {
    if !MaySee(x.t, sub, gid) then Refuses(x, NotAllowed)
    else if !Owns(x.t, gid, sub) then Refuses(x, RoleTooLow)
    else if wanted.None? then Refuses(x, VisibilityRequired)
    else
      var g := x.t.genealogies[gid];
      if wanted.value == Private && g.visibility != Private && Full(x.t, limit, g.createdBy)
      then Refuses(x, QuotaExceeded)
      else Leaves(x, x.t.genealogies[gid := g.(visibility := wanted.value)], x.t.members, x.t.bans)
  }

  ghost predicate Deletes(x: Change, sub: string, gid: string, env: Env) {
    if !MaySee(x.t, sub, gid) then Refuses(x, NotAllowed)
    else if !Owns(x.t, gid, sub) then Refuses(x, RoleTooLow)
    else if !env.diskOk then Refuses(x, DiskError)
    else Leaves(x, x.t.genealogies - {gid}, map k | k in x.t.members && k.gid != gid :: x.t.members[k], x.t.bans)
  }

  ghost predicate Upserts(x: Change, sub: string, gid: string, target: string, role: Role, env: Env) {
    if !MaySee(x.t, sub, gid) then Refuses(x, NotAllowed)
    else if !Manages(x.t, gid, sub) then Refuses(x, RoleTooLow)
    else if role == NoRole then Refuses(x, InvalidRole)
    else if role == Owner && !Owns(x.t, gid, sub) then Refuses(x, OwnerOnly)
    else if target == "" then Refuses(x, InvalidRecord)
    else
      var row := Membership(target, gid, role, sub, env.now);
      Leaves(x, x.t.genealogies, x.t.members[Seat(gid, target) := row], x.t.bans)
  }

  ghost predicate Removes(x: Change, sub: string, gid: string, target: string) {
    if !MaySee(x.t, sub, gid) then Refuses(x, NotAllowed)
    else if !Manages(x.t, gid, sub) then Refuses(x, RoleTooLow)
    else if Owns(x.t, gid, target) && !Owns(x.t, gid, sub) then Refuses(x, OwnerOnly)
    else if OnlyOwner(x.t, gid, target) then Refuses(x, LastOwner)
    else Leaves(x, x.t.genealogies, x.t.members - {Seat(gid, target)}, x.t.bans)
  }

  ghost predicate Leaving(x: Change, sub: string, gid: string) {
    if sub == "" then Refuses(x, AuthenticationRequired)
    else if OnlyOwner(x.t, gid, sub) then Refuses(x, LastOwner)
    else Leaves(x, x.t.genealogies, x.t.members - {Seat(gid, sub)}, x.t.bans)
  }

  ghost predicate Bans(x: Change, sub: string, gid: string, target: string, reason: string, env: Env) {
    if !MaySee(x.t, sub, gid) then Refuses(x, NotAllowed)
    else if !Manages(x.t, gid, sub) then Refuses(x, RoleTooLow)
    else if target == "" then Refuses(x, InvalidRecord)
    else Leaves(x, x.t.genealogies, x.t.members, x.t.bans[Seat(gid, target) := Ban(target, gid, reason, sub, env.now)])
  }

  ghost predicate Unbans(x: Change, sub: string, gid: string, target: string) {
    if !MaySee(x.t, sub, gid) then Refuses(x, NotAllowed)
    else if !Manages(x.t, gid, sub) then Refuses(x, RoleTooLow)
    else Leaves(x, x.t.genealogies, x.t.members, x.t.bans - {Seat(gid, target)})
  }

  ghost predicate Reads(x: Change, sub: string, gid: string) {
    if !MaySee(x.t, sub, gid) then Refuses(x, NotAllowed)
    else x.t' == x.t && x.reply == Shown(x.t.genealogies[gid], RoleShown(x.t, sub, gid))
  }

  ghost predicate Outcome(x: Change, limit: uint64, req: Request, env: Env) {
    match req
    case Create(sub, name, wanted) => Creates(x, limit, sub, name, wanted, env)
    case SetVisibility(sub, gid, wanted) => SetsVisibility(x, limit, sub, gid, wanted)
    case Delete(sub, gid) => Deletes(x, sub, gid, env)
    case Upsert(sub, gid, target, role) => Upserts(x, sub, gid, TrimSpace(target), role, env)
    case Remove(sub, gid, target) => Removes(x, sub, gid, TrimSpace(target))
    case Leave(sub, gid) => Leaving(x, sub, gid)
    case BanUser(sub, gid, target, reason) => Bans(x, sub, gid, target, reason, env)
    case UnbanUser(sub, gid, target) => Unbans(x, sub, gid, target)
    case Read(sub, gid) => Reads(x, sub, gid)
  }

  predicate SameResult(x: Change, y: Change) {
    x.reply == y.reply && y.t' == x.t'.(userCounts := y.t'.userCounts)
  }

  /** The outcome leaves no freedom: two changes from the same tables that both meet it have the same reply
      and the same records, memberships, bans, users and person counters. */
  lemma OutcomeIsUnique(x: Change, y: Change, limit: uint64, req: Request, env: Env)
    requires x.t == y.t && Outcome(x, limit, req, env) && Outcome(y, limit, req, env)
    ensures SameResult(x, y)
  {
    assert forall reason :: Refuses(x, reason) && Refuses(y, reason) ==> SameResult(x, y);
    assert forall a, b, c :: Leaves(x, a, b, c) && Leaves(y, a, b, c) ==> SameResult(x, y);
    hide TrimSpace, MaySee, Full, OnlyOwner, Owns, Manages, Refuses, Leaves;
  }

  // ---------- What the handlers' inputs mean ----------

  lemma DecisionMeans(t: Tables, sub: string, gid: string)
    requires Grounded(t)
    ensures var d := ResolveFresh(t, sub, gid);
            && (d.Some? <==> MaySee(t, sub, gid))
            && (d.Some? ==> d.value.role == RoleShown(t, sub, gid))
            && (d.Some? && d.value.role.AtLeast(Curator) <==> Manages(t, gid, sub))
            && (d.Some? && d.value.role.AtLeast(Owner) <==> Owns(t, gid, sub))
  {
    AccessRules(t, sub, gid);
    hide ResolveFresh;
  }

  lemma QuotaMeans(t: Tables, limit: uint64, u: string)
    requires CountersExact(t) && WithinLimit(t, limit)
    ensures AtQuota(t, limit, u) <==> Full(t, limit, u)
  {
  }

  lemma LastOwnerMeans(t: Tables, gid: string, sub: string)
    requires Owns(t, gid, sub)
    ensures |Owners(t.members, gid)| <= 1 <==> OnlyOwner(t, gid, sub)
  {
    var owners := Owners(t.members, gid);
    assert sub in owners;
    assert forall x :: x in owners <==> Owns(t, gid, x);
    hide Owners;
    if |owners| <= 1 {
      OnlyMember(owners, sub);
    } else {
      SomeoneElse(owners, sub);
      var other :| other in owners - {sub};
      assert Owns(t, gid, other);
    }
  }

  // ---------- Every handler has its outcome ----------

  ghost function HandledChange(t: Tables, limit: uint64, req: Request, env: Env): Change {
    var (e, response) := Uncached(t, limit, req, env);
    Change(t, Perform(t, e), response)
  }

  lemma CreationOutcome(t: Tables, limit: uint64, sub: string, name: string, wanted: Option<Visibility>, env: Env)
    requires CountersExact(t) && WithinLimit(t, limit)
    ensures var req := Create(sub, name, wanted);
            Outcome(HandledChange(t, limit, req, env), limit, req, env)
  {
    NothingChanges(t);
    QuotaMeans(t, limit, sub);
    hide TrimSpace, AtQuota, Full, Adjusted, CountersExact, WithinLimit;
  }

  lemma VisibilityOutcome(t: Tables, limit: uint64, sub: string, gid: string, wanted: Option<Visibility>, env: Env)
    requires Grounded(t) && CountersExact(t) && WithinLimit(t, limit)
    ensures var req := SetVisibility(sub, gid, wanted);
            Outcome(HandledChange(t, limit, req, env), limit, req, env)
  {
    NothingChanges(t);
    DecisionMeans(t, sub, gid);
    if gid in t.genealogies {
      assert t.genealogies[gid].id == gid;
      QuotaMeans(t, limit, t.genealogies[gid].createdBy);
    }
    hide ResolveFresh, AtQuota, Full, Adjusted, CountersExact, WithinLimit, Grounded;
  }

  lemma DeletionOutcome(t: Tables, limit: uint64, sub: string, gid: string, env: Env)
    requires Grounded(t)
    ensures var req := Delete(sub, gid);
            Outcome(HandledChange(t, limit, req, env), limit, req, env)
  {
    NothingChanges(t);
    DecisionMeans(t, sub, gid);
    hide ResolveFresh, Adjusted, Grounded;
  }

  lemma UpsertOutcome(t: Tables, limit: uint64, sub: string, gid: string, target: string, role: Role, env: Env)
    requires Grounded(t)
    ensures var req := Upsert(sub, gid, target, role);
            Outcome(HandledChange(t, limit, req, env), limit, req, env)
  {
    NothingChanges(t);
    DecisionMeans(t, sub, gid);
    hide TrimSpace, ResolveFresh, Adjusted, Grounded;
  }

  lemma RemoveRowMeans(t: Tables, gid: string, sub: string)
    ensures var (e, response) := RemoveRow(t, gid, sub);
            var x := Change(t, Perform(t, e), response);
            if OnlyOwner(t, gid, sub) then Refuses(x, LastOwner)
            else Leaves(x, t.genealogies, t.members - {Seat(gid, sub)}, t.bans)
  {
    NothingChanges(t);
    if Owns(t, gid, sub) {
      LastOwnerMeans(t, gid, sub);
    }
    if Seat(gid, sub) !in t.members {
      assert t.members - {Seat(gid, sub)} == t.members;
    }
    hide Owners;
  }

  lemma RemovalOutcome(t: Tables, limit: uint64, sub: string, gid: string, target: string, env: Env)
    requires Grounded(t)
    ensures var req := Remove(sub, gid, target);
            Outcome(HandledChange(t, limit, req, env), limit, req, env)
  {
    NothingChanges(t);
    DecisionMeans(t, sub, gid);
    RemoveRowMeans(t, gid, TrimSpace(target));
    hide TrimSpace, ResolveFresh, Grounded, RemoveRow, OnlyOwner, Perform;
  }

  lemma LeavingOutcome(t: Tables, limit: uint64, sub: string, gid: string, env: Env)
    ensures var req := Leave(sub, gid);
            Outcome(HandledChange(t, limit, req, env), limit, req, env)
  {
    NothingChanges(t);
    RemoveRowMeans(t, gid, sub);
    hide RemoveRow, OnlyOwner, Perform;
  }

  lemma BanOutcome(t: Tables, limit: uint64, sub: string, gid: string, target: string, reason: string, env: Env)
    requires Grounded(t)
    ensures var req := BanUser(sub, gid, target, reason);
            Outcome(HandledChange(t, limit, req, env), limit, req, env)
  {
    NothingChanges(t);
    DecisionMeans(t, sub, gid);
    hide ResolveFresh, Adjusted, Grounded;
  }

  lemma UnbanOutcome(t: Tables, limit: uint64, sub: string, gid: string, target: string, env: Env)
    requires Grounded(t)
    ensures var req := UnbanUser(sub, gid, target);
            Outcome(HandledChange(t, limit, req, env), limit, req, env)
  {
    NothingChanges(t);
    DecisionMeans(t, sub, gid);
    hide ResolveFresh, Adjusted, Grounded;
  }

  lemma ReadOutcome(t: Tables, limit: uint64, sub: string, gid: string, env: Env)
    requires Grounded(t)
    ensures var req := Read(sub, gid);
            Outcome(HandledChange(t, limit, req, env), limit, req, env)
  {
    NothingChanges(t);
    DecisionMeans(t, sub, gid);
    hide ResolveFresh, Adjusted, Grounded;
  }

  lemma HandlersHaveTheirOutcome(t: Tables, limit: uint64, req: Request, env: Env)
    requires Grounded(t) && CountersExact(t) && WithinLimit(t, limit)
    ensures Outcome(HandledChange(t, limit, req, env), limit, req, env)
  {
    hide Outcome, HandledChange, Grounded, CountersExact, WithinLimit;
    match req
    case Create(sub, name, wanted) => CreationOutcome(t, limit, sub, name, wanted, env);
    case SetVisibility(sub, gid, wanted) => VisibilityOutcome(t, limit, sub, gid, wanted, env);
    case Delete(sub, gid) => DeletionOutcome(t, limit, sub, gid, env);
    case Upsert(sub, gid, target, role) => UpsertOutcome(t, limit, sub, gid, target, role, env);
    case Remove(sub, gid, target) => RemovalOutcome(t, limit, sub, gid, target, env);
    case Leave(sub, gid) => LeavingOutcome(t, limit, sub, gid, env);
    case BanUser(sub, gid, target, reason) => BanOutcome(t, limit, sub, gid, target, reason, env);
    case UnbanUser(sub, gid, target) => UnbanOutcome(t, limit, sub, gid, target, env);
    case Read(sub, gid) => ReadOutcome(t, limit, sub, gid, env);
  }

  // ---------- Every step of every run ----------

  ghost function ChangeAt(c: Config, steps: seq<Step>, n: nat): Change
    requires n < |steps|
  {
    Change(After(c, steps, n).tables, After(c, steps, n + 1).tables, Reply(c, steps, n))
  }

  lemma ChangeIsStep(c: Config, steps: seq<Step>, n: nat)
    requires GoodRun(c.limit, steps) && n < |steps|
    ensures ChangeAt(c, steps, n) == HandledChange(After(c, steps, n).tables, c.limit, steps[n].req, steps[n].env)
    ensures var t := After(c, steps, n).tables;
            Grounded(t) && CountersExact(t) && WithinLimit(t, c.limit) && Admissible(t, steps[n].req, steps[n].env)
  {
    hide Grounded, CountersExact, WithinLimit, Coherent, Admissible, Perform, Uncached, Apply;
    RunKeepsInv(c, steps, n);
    RunKeepsInv(c, steps, n + 1);
  }

  /** In every run, with any cache, TTL and clocks, every request has its outcome: it is refused exactly for
      the reasons given, and otherwise does exactly what was asked; and every counter is exact afterwards. */
  lemma EveryStepHasItsOutcome(c: Config, steps: seq<Step>, n: nat)
    requires GoodRun(c.limit, steps) && n < |steps|
    ensures Outcome(ChangeAt(c, steps, n), c.limit, steps[n].req, steps[n].env)
    ensures forall u :: UserCount(ChangeAt(c, steps, n).t', u) == |PrivateOf(ChangeAt(c, steps, n).t'.genealogies, u)|
  {
    ChangeIsStep(c, steps, n);
    RunKeepsInv(c, steps, n + 1);
    hide Outcome, HandledChange, Grounded, WithinLimit, Admissible, Coherent;
    HandlersHaveTheirOutcome(After(c, steps, n).tables, c.limit, steps[n].req, steps[n].env);
  }

  // ---------- What a request does to the cache ----------

  /** The cached decisions that a served request may have made wrong: those of the member concerned, or all
      about the genealogy. */
  predicate Concerned(t: Tables, req: Request, env: Env, k: CacheKey) {
    match req
    case Create(sub, _, _) => k == CacheKey(sub, env.freshId)
    case SetVisibility(_, gid, _) => k.gid == gid
    case Delete(_, gid) => k.gid == gid
    case Upsert(_, gid, target, _) => k == CacheKey(TrimSpace(target), gid)
    case Remove(_, gid, target) => k == CacheKey(TrimSpace(target), gid) && Seat(gid, TrimSpace(target)) in t.members
    case Leave(sub, gid) => k == CacheKey(sub, gid) && Seat(gid, sub) in t.members
    case _ => false
  }

  /** The cache after a request: what it concerned is gone, everything else stays, and the only entry that may
      be new or renewed is the actor's own. */
  ghost predicate CacheAfter(s: State, s': State, req: Request, env: Env, reply: Response, k: CacheKey) {
    var own := Resolves(req) && k == CacheKey(req.sub, req.gid);
    if reply == Done && Concerned(s.tables, req, env, k) then k !in s'.cache
    else if own then k in s.cache ==> k in s'.cache
    else (k in s'.cache <==> k in s.cache) && (k in s.cache ==> s'.cache[k] == s.cache[k])
  }

  lemma ResolveTouchesOwn(t: Tables, cache: Cache, ttl: int, sub: string, gid: string, getAt: int, putAt: int,
                          k: CacheKey)
    ensures var cache' := ResolveCached(t, cache, ttl, sub, gid, getAt, putAt).0;
            && (k in cache ==> k in cache')
            && (k != CacheKey(sub, gid) ==> (k in cache' <==> k in cache) && (k in cache ==> cache'[k] == cache[k]))
  {
    hide ResolveFresh;
  }

  ghost predicate Drops(e: Effect, k: CacheKey) {
    DropOf(e).Some? && Matches(k, DropOf(e).value.sub, DropOf(e).value.gid)
  }

  lemma RowDropsAreConcerns(t: Tables, limit: uint64, req: Request, env: Env, k: CacheKey)
    requires Grounded(t) && (req.Upsert? || req.Remove? || req.Leave?)
    ensures var (e, response) := Uncached(t, limit, req, env);
            Drops(e, k) <==> response == Done && Concerned(t, req, env, k)
  {
    if Resolves(req) {
      DecisionMeans(t, req.sub, req.gid);
    }
    assert forall x :: x in t.members ==> x.sub != "" && x.gid != "" && x.gid in t.genealogies;
    assert "" !in t.genealogies;
    hide TrimSpace, ResolveFresh, Grounded, Owners;
  }

  lemma OtherDropsAreConcerns(t: Tables, limit: uint64, req: Request, env: Env, k: CacheKey)
    requires Grounded(t) && Admissible(t, req, env) && !(req.Upsert? || req.Remove? || req.Leave?)
    ensures var (e, response) := Uncached(t, limit, req, env);
            Drops(e, k) <==> response == Done && Concerned(t, req, env, k)
  {
    assert forall g :: g in t.genealogies ==> g != "" && t.genealogies[g].id == g;
    hide TrimSpace, ResolveFresh, Grounded, SlashFree, AtQuota;
  }

  /** What the handlers drop from the cache is what their requests concern. */
  lemma DropsAreConcerns(t: Tables, limit: uint64, req: Request, env: Env, k: CacheKey)
    requires Grounded(t) && Admissible(t, req, env)
    ensures var (e, response) := Uncached(t, limit, req, env);
            Drops(e, k) <==> response == Done && Concerned(t, req, env, k)
  {
    hide Uncached, Grounded, Admissible, Drops, Concerned;
    if req.Upsert? || req.Remove? || req.Leave? {
      RowDropsAreConcerns(t, limit, req, env, k);
    } else {
      OtherDropsAreConcerns(t, limit, req, env, k);
    }
  }

  lemma ApplyLeavesCache(c: Config, s: State, req: Request, env: Env, k: CacheKey)
    requires Inv(c, s) && Admissible(s.tables, req, env)
    ensures var (s', reply) := Apply(c, s, req, env);
            CacheAfter(s, s', req, env, reply, k)
  {
    hide Handle, Perform, ResolveFresh, ResolveCached, Grounded, CountersExact, WithinLimit, Coherent, Admissible;
    hide Concerned, DropOf, Matches;
    DropsAreConcerns(s.tables, c.limit, req, env, k);
    if Resolves(req) {
      ResolveIsTransparent(s.tables, s.cache, c.ttl, req.sub, req.gid, env.getAt, env.putAt);
      ResolveTouchesOwn(s.tables, s.cache, c.ttl, req.sub, req.gid, env.getAt, env.putAt, k);
    }
  }

  /** In every run, a request drops from the cache what it concerned and nothing else. */
  lemma CacheOutcome(c: Config, steps: seq<Step>, n: nat, k: CacheKey)
    requires GoodRun(c.limit, steps) && n < |steps|
    ensures CacheAfter(After(c, steps, n), After(c, steps, n + 1), steps[n].req, steps[n].env, Reply(c, steps, n), k)
  {
    RunKeepsInv(c, steps, n);
    ChangeIsStep(c, steps, n);
    hide Inv, Admissible, CacheAfter, Apply;
    ApplyLeavesCache(c, After(c, steps, n), steps[n].req, steps[n].env, k);
  }

  // ---------- What is done stays done ----------

  /** Requests addressed elsewhere leave everything about a genealogy alone. */
  lemma {:induction false} Undisturbed(c: Config, steps: seq<Step>, n: nat, m: nat, gid: string)
    requires GoodRun(c.limit, steps) && n <= m <= |steps|
    requires forall i :: n <= i < m ==> Addressed(steps[i].req, steps[i].env) != gid
    ensures SameAbout(After(c, steps, n).tables, After(c, steps, m).tables, gid)
    decreases m
  {
    hide After;
    if m == n {
    } else {
      Undisturbed(c, steps, n, m - 1, gid);
      hide SameAbout;
      ChangeIsStep(c, steps, m - 1);
      hide Uncached, Perform, Grounded, Admissible, CountersExact, WithinLimit, Reply;
      RequestIsLocal(After(c, steps, m - 1).tables, c.limit, steps[m - 1].req, steps[m - 1].env, gid, "");
      SameAboutTwice(After(c, steps, n).tables, After(c, steps, m - 1).tables, After(c, steps, m).tables, gid);
    }
  }

  lemma SameAboutTwice(a: Tables, b: Tables, c: Tables, gid: string)
    requires SameAbout(a, b, gid) && SameAbout(b, c, gid)
    ensures SameAbout(a, c, gid)
  {
  }

  lemma SameAccess(t: Tables, t': Tables, sub: string, gid: string)
    requires SameAbout(t, t', gid)
    ensures MaySee(t', sub, gid) <==> MaySee(t, sub, gid)
    ensures MaySee(t, sub, gid) ==> t'.genealogies[gid] == t.genealogies[gid]
    ensures RoleShown(t', sub, gid) == RoleShown(t, sub, gid)
  {
    assert RowOf(t', gid, sub) == RowOf(t, gid, sub);
  }

  /** Step `m` is `sub` asking to see `gid`, and nothing was asked about `gid` since step `n`. */
  ghost predicate NextRead(c: Config, steps: seq<Step>, n: nat, m: nat, sub: string, gid: string) {
    && GoodRun(c.limit, steps) && n < m < |steps| && steps[m].req == Read(sub, gid)
    && forall i :: n < i < m ==> Addressed(steps[i].req, steps[i].env) != gid
  }

  /** A read is answered from the state that the last request about the genealogy left. */
  lemma ReadSeesLastChange(c: Config, steps: seq<Step>, n: nat, m: nat, sub: string, gid: string)
    requires NextRead(c, steps, n, m, sub, gid)
    ensures var t := After(c, steps, n + 1).tables;
            Reply(c, steps, m) == if MaySee(t, sub, gid) then Shown(t.genealogies[gid], RoleShown(t, sub, gid))
                                  else Refused(NotAllowed)
  {
    hide After, Reply, MaySee, RoleShown, SameAbout, GoodRun;
    Undisturbed(c, steps, n + 1, m, gid);
    ReadsObeyAccessRules(c, steps, m);
    SameAccess(After(c, steps, n + 1).tables, After(c, steps, m).tables, sub, gid);
  }

  /** A visibility change takes hold: afterwards, and until the genealogy is addressed again, someone without
      a row is shown it exactly if the visibility asked for lets them. */
  lemma VisibilityTakesHold(c: Config, steps: seq<Step>, n: nat, m: nat, sub: string, gid: string, wanted: Visibility)
    requires NextRead(c, steps, n, m, sub, gid) && Seat(gid, sub) !in After(c, steps, n).tables.members
    requires steps[n].req.SetVisibility? && steps[n].req.gid == gid && steps[n].req.wanted == Some(wanted)
    requires Reply(c, steps, n) == Done
    ensures Reply(c, steps, m).Shown? <==> wanted == Public || (wanted == Unlisted && sub != "")
    ensures Reply(c, steps, m).Shown? ==> Reply(c, steps, m).genealogy.visibility == wanted
  {
    hide After, Reply, GoodRun;
    EveryStepHasItsOutcome(c, steps, n);
    ReadSeesLastChange(c, steps, n, m, sub, gid);
  }

  /** A removal takes hold: the member removed, or who left, is afterwards shown the genealogy only as far as
      its visibility goes, without any cached decision helping. */
  lemma RemovalTakesHold(c: Config, steps: seq<Step>, n: nat, m: nat, sub: string, gid: string)
    requires NextRead(c, steps, n, m, sub, gid) && Reply(c, steps, n) == Done
    requires || (steps[n].req.Remove? && steps[n].req.gid == gid && TrimSpace(steps[n].req.target) == sub)
             || steps[n].req == Leave(sub, gid)
    ensures var rows := After(c, steps, n).tables.genealogies;
            Reply(c, steps, m).Shown? <==>
              gid in rows && (rows[gid].visibility == Public || (rows[gid].visibility == Unlisted && sub != ""))
    ensures Reply(c, steps, m).Shown? ==> Reply(c, steps, m).role == if sub == "" then Viewer else Contributor
  {
    hide After, Reply, GoodRun, TrimSpace, OnlyOwner;
    EveryStepHasItsOutcome(c, steps, n);
    ReadSeesLastChange(c, steps, n, m, sub, gid);
  }

  /** A grant takes hold: the member is afterwards shown the genealogy with the role granted. */
  lemma GrantTakesHold(c: Config, steps: seq<Step>, n: nat, m: nat, sub: string, gid: string)
    requires NextRead(c, steps, n, m, sub, gid) && Reply(c, steps, n) == Done
    requires steps[n].req.Upsert? && steps[n].req.gid == gid && TrimSpace(steps[n].req.target) == sub
    ensures var rows := After(c, steps, n).tables.genealogies;
            gid in rows && Reply(c, steps, m) == Shown(rows[gid], steps[n].req.role)
  {
    hide After, Reply, GoodRun, TrimSpace;
    EveryStepHasItsOutcome(c, steps, n);
    ReadSeesLastChange(c, steps, n, m, sub, gid);
  }

  /** A deletion takes hold: nobody is shown the genealogy any more. */
  lemma DeletionTakesHold(c: Config, steps: seq<Step>, n: nat, m: nat, sub: string, gid: string)
    requires NextRead(c, steps, n, m, sub, gid) && Reply(c, steps, n) == Done
    requires steps[n].req.Delete? && steps[n].req.gid == gid
    ensures Reply(c, steps, m) == Refused(NotAllowed)
  {
    hide After, Reply, GoodRun;
    EveryStepHasItsOutcome(c, steps, n);
    ReadSeesLastChange(c, steps, n, m, sub, gid);
  }

  // ---------- Round trips ----------

  /** Creating a genealogy and deleting it again is served, on a working disk, and leaves records, memberships,
      bans and every counter as they were. */
  lemma CreateThenDelete(c: Config, steps: seq<Step>, n: nat)
    requires GoodRun(c.limit, steps) && n + 1 < |steps| && steps[n].req.Create? && Reply(c, steps, n) == Done
    requires steps[n + 1].req == Delete(steps[n].req.sub, steps[n].env.freshId) && steps[n + 1].env.diskOk
    ensures var t, t' := After(c, steps, n).tables, After(c, steps, n + 2).tables;
            && Reply(c, steps, n + 1) == Done
            && t'.genealogies == t.genealogies && t'.members == t.members && t'.bans == t.bans
            && forall u :: UserCount(t', u) == UserCount(t, u)
  {
    ChangeIsStep(c, steps, n);
    EveryStepHasItsOutcome(c, steps, n);
    EveryStepHasItsOutcome(c, steps, n + 1);
    RunKeepsInv(c, steps, n);
    var x, y := ChangeAt(c, steps, n), ChangeAt(c, steps, n + 1);
    hide After, Reply, GoodRun, Creates, Deletes, ChangeAt, PrivateOf;
    CreatedThenDeleted(x, y, c.limit, steps[n].req, steps[n].env, steps[n + 1].env);
  }

  lemma CreatedThenDeleted(x: Change, y: Change, limit: uint64, req: Request, env: Env, later: Env)
    requires Grounded(x.t) && req.Create? && Admissible(x.t, req, env) && later.diskOk && x.reply == Done && y.t == x.t'
    requires Creates(x, limit, req.sub, req.name, req.wanted, env) && Deletes(y, req.sub, env.freshId, later)
    ensures y.reply == Done
    ensures y.t'.genealogies == x.t.genealogies && y.t'.members == x.t.members && y.t'.bans == x.t.bans
  {
    assert env.freshId !in x.t.genealogies && forall k :: k in x.t.members ==> k.gid != env.freshId;
    hide Grounded, Admissible, TrimSpace, Full;
    assert Owns(y.t, env.freshId, req.sub) && MaySee(y.t, req.sub, env.freshId);
    AddedThenTaken(x.t.members, y.t.members, env.freshId, req.sub);
    hide MaySee, Owns;
  }

  lemma AddedThenTaken(rows: map<Seat, Membership>, more: map<Seat, Membership>, gid: string, sub: string)
    requires forall k :: k in rows ==> k.gid != gid
    requires Seat(gid, sub) in more && more == rows[Seat(gid, sub) := more[Seat(gid, sub)]]
    ensures (map k | k in more && k.gid != gid :: more[k]) == rows
  {
  }

  /** Lifting a ban undoes it, for whoever manages the genealogy. */
  lemma BanThenUnban(c: Config, steps: seq<Step>, n: nat)
    requires GoodRun(c.limit, steps) && n + 1 < |steps| && steps[n].req.BanUser? && Reply(c, steps, n) == Done
    requires steps[n + 1].req == UnbanUser(steps[n].req.sub, steps[n].req.gid, steps[n].req.target)
    ensures var t, t1, t' := After(c, steps, n).tables, After(c, steps, n + 1).tables, After(c, steps, n + 2).tables;
            var seat := Seat(steps[n].req.gid, steps[n].req.target);
            && seat in t1.bans
            && t1.bans[seat].reason == steps[n].req.reason && t1.bans[seat].bannedBy == steps[n].req.sub
            && Reply(c, steps, n + 1) == Done && t'.bans == t.bans - {seat} && t'.members == t.members
  {
    hide After, Reply, GoodRun;
    EveryStepHasItsOutcome(c, steps, n);
    EveryStepHasItsOutcome(c, steps, n + 1);
  }
}
