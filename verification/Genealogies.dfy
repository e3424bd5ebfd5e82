/** The genealogy handlers: what each one decides, the effect it has on the tables, and which cached
    decisions it invalidates. */
module Genealogies {
  import opened Wrappers
  import opened Records
  import opened Counters
  import opened PlatformTables
  import opened PlatformStore
  import opened Authz

  datatype Request =
    | Create(sub: string, name: string, wanted: Option<Visibility>)
    | SetVisibility(sub: string, gid: string, wanted: Option<Visibility>)
    | Delete(sub: string, gid: string)
    | Upsert(sub: string, gid: string, target: string, role: Role)
    | Remove(sub: string, gid: string, target: string)
    | Leave(sub: string, gid: string)
    | BanUser(sub: string, gid: string, target: string, reason: string)
    | UnbanUser(sub: string, gid: string, target: string)
    | Read(sub: string, gid: string)

  /** What a request meets outside the platform store: the fresh id, the clocks, the disk. */
  datatype Env = Env(freshId: string, now: int, getAt: int, putAt: int, diskOk: bool)

  datatype Reason =
    | AuthenticationRequired | NameRequired | QuotaExceeded | NotAllowed | RoleTooLow | VisibilityRequired
    | RecordMissing | InvalidRole | OwnerOnly | LastOwner | InvalidRecord | DiskError

  datatype Response = Done | Shown(genealogy: Genealogy, role: Role) | Refused(reason: Reason)

  // ---------- Effects ----------

  datatype Effect =
    | Nothing
    | Establish(record: Genealogy, owner: Membership)
    | Revise(record: Genealogy)
    | Abolish(gid: string)
    | Grant(row: Membership)
    | Revoke(gid: string, sub: string)
    | Exclude(ban: Ban)
    | Readmit(gid: string, sub: string)

  function GenealogiesAfter(rows: map<string, Genealogy>, e: Effect): map<string, Genealogy> {
    match e
    case Establish(g, _) => rows[g.id := g]
    case Revise(g) => rows[g.id := g]
    case Abolish(gid) => rows - {gid}
    case _ => rows
  }

  function MembersAfter(rows: map<Seat, Membership>, e: Effect): map<Seat, Membership> {
    match e
    case Establish(_, owner) => rows[Seat(owner.genealogyId, owner.subject) := owner]
    case Abolish(gid) => map k | k in rows && k.gid != gid :: rows[k]
    case Grant(m) => rows[Seat(m.genealogyId, m.subject) := m]
    case Revoke(gid, sub) => rows - {Seat(gid, sub)}
    case _ => rows
  }

  function BansAfter(rows: map<Seat, Ban>, e: Effect): map<Seat, Ban> {
    match e
    case Exclude(b) => rows[Seat(b.genealogyId, b.subject) := b]
    case Readmit(gid, sub) => rows - {Seat(gid, sub)}
    case _ => rows
  }

  datatype CountChange = Steady | Adjust(sub: string, delta: int64)

  /** Which creator's private-genealogy counter an effect adjusts: on the way into or out of Private. */
  function CountChangeOf(rows: map<string, Genealogy>, e: Effect): CountChange {
    match e
    case Establish(g, _) => if g.visibility == Private then Adjust(g.createdBy, 1) else Steady
    case Revise(g) =>
      var wasPrivate := g.id in rows && rows[g.id].visibility == Private;
      if wasPrivate && g.visibility != Private then Adjust(g.createdBy, -1)
      else if !wasPrivate && g.visibility == Private then Adjust(g.createdBy, 1)
      else Steady
    case Abolish(gid) =>
      if gid in rows && rows[gid].visibility == Private then Adjust(rows[gid].createdBy, -1) else Steady
    case _ => Steady
  }

  function Adjusted(t: Tables, change: CountChange): map<string, uint64> {
    match change
    case Steady => t.userCounts
    case Adjust(sub, delta) => t.userCounts[sub := Bump(UserCount(t, sub), delta)]
  }

  /** The tables after an effect, counters included. */
  function Perform(t: Tables, e: Effect): Tables {
    Tables(t.users, GenealogiesAfter(t.genealogies, e), MembersAfter(t.members, e), BansAfter(t.bans, e),
           Adjusted(t, CountChangeOf(t.genealogies, e)), t.personCounts)
  }

  lemma NothingChanges(t: Tables)
    ensures Perform(t, Nothing) == t
  {
  }

  /** Effects on single rows, in terms of the store's row changes. */
  lemma PerformOnRows(t: Tables, m: Membership, b: Ban)
    ensures Perform(t, Grant(m)) == PutMember(t, m)
    ensures Perform(t, Revoke(m.genealogyId, m.subject)) == DropMember(t, m.genealogyId, m.subject)
    ensures Perform(t, Exclude(b)) == PutBanRow(t, b)
    ensures Perform(t, Readmit(b.genealogyId, b.subject)) == DropBanRow(t, b.genealogyId, b.subject)
  {
  }

  function Counted(t: Tables, change: CountChange): Tables {
    match change
    case Steady => t
    case Adjust(sub, delta) => BumpUserCount(t, sub, delta)
  }

  /** Effects on whole genealogies, likewise. */
  lemma PerformOnGenealogies(t: Tables, g: Genealogy, owner: Membership)
    ensures Perform(t, Establish(g, owner))
            == Counted(PutMember(PutGenealogyRow(t, g), owner), CountChangeOf(t.genealogies, Establish(g, owner)))
    ensures Perform(t, Revise(g)) == Counted(PutGenealogyRow(t, g), CountChangeOf(t.genealogies, Revise(g)))
    ensures Perform(t, Abolish(g.id))
            == Counted(DropGenealogyRow(t.(members := MembersAfter(t.members, Abolish(g.id))), g.id),
                       CountChangeOf(t.genealogies, Abolish(g.id)))
  {
    hide Bump;
  }

  /** The pattern of cache entries invalidated after an effect, if any. */
  function DropOf(e: Effect): Option<CacheKey> {
    match e
    case Establish(g, owner) => Some(CacheKey(owner.subject, g.id))
    case Revise(g) => Some(CacheKey("", g.id))
    case Abolish(gid) => Some(CacheKey("", gid))
    case Grant(m) => Some(CacheKey(m.subject, m.genealogyId))
    case Revoke(gid, sub) => Some(CacheKey(sub, gid))
    case _ => None
  }

  // ---------- Handlers ----------

  /** A limit of 0 means no limit. */
  predicate AtQuota(t: Tables, limit: uint64, sub: string) {
    limit != 0 && UserCount(t, sub) >= limit
  }

  function Owners(members: map<Seat, Membership>, gid: string): set<string> {
    set k | k in members && k.gid == gid && members[k].role == Owner :: k.sub
  }

  function Refuse(reason: Reason): (Effect, Response) {
    (Nothing, Refused(reason))
  }

  function HandleCreate(t: Tables, limit: uint64, sub: string, name: string, wanted: Option<Visibility>,
                        env: Env): (Effect, Response) {
    var trimmed := TrimSpace(name);
    var vis := if wanted.Some? then wanted.value else Private;
    if sub == "" then Refuse(AuthenticationRequired)
    else if trimmed == "" then Refuse(NameRequired)
    else if vis == Private && AtQuota(t, limit, sub) then Refuse(QuotaExceeded)
    else (Establish(Genealogy(env.freshId, trimmed, vis, sub, env.now),
                    Stamped(Membership(sub, env.freshId, Owner, sub, env.now), env.now)), Done)
  }

  function HandleSetVisibility(t: Tables, limit: uint64, gid: string, wanted: Option<Visibility>,
                               d: Option<Decision>): (Effect, Response) {
    if d.None? then Refuse(NotAllowed)
    else if !d.value.role.AtLeast(Owner) then Refuse(RoleTooLow)
    else if wanted.None? then Refuse(VisibilityRequired)
    else if gid !in t.genealogies then Refuse(RecordMissing)
    else
      var g := t.genealogies[gid];
      if g.visibility != Private && wanted.value == Private && AtQuota(t, limit, g.createdBy) then Refuse(QuotaExceeded)
      else (Revise(g.(visibility := wanted.value)), Done)
  }

  function HandleDelete(t: Tables, gid: string, d: Option<Decision>, env: Env): (Effect, Response) {
    if d.None? then Refuse(NotAllowed)
    else if !d.value.role.AtLeast(Owner) then Refuse(RoleTooLow)
    else if gid !in t.genealogies then Refuse(RecordMissing)
    else if !env.diskOk then Refuse(DiskError)
    else (Abolish(gid), Done)
  }

  function HandleUpsert(sub: string, gid: string, rawTarget: string, role: Role, d: Option<Decision>,
                        env: Env): (Effect, Response) {
    var target := TrimSpace(rawTarget);
    if d.None? then Refuse(NotAllowed)
    else if !d.value.role.AtLeast(Curator) then Refuse(RoleTooLow)
    else if role == NoRole then Refuse(InvalidRole)
    else if role == Owner && !d.value.role.AtLeast(Owner) then Refuse(OwnerOnly)
    else if target == "" then Refuse(InvalidRecord)
    else (Grant(Stamped(Membership(target, gid, role, sub, env.now), env.now)), Done)
  }

  /** The guarded removal shared by RemoveMember and LeaveGenealogy. */
  function RemoveRow(t: Tables, gid: string, sub: string): (Effect, Response) {
    if Seat(gid, sub) !in t.members then (Nothing, Done)
    else if t.members[Seat(gid, sub)].role == Owner && |Owners(t.members, gid)| <= 1 then Refuse(LastOwner)
    else (Revoke(gid, sub), Done)
  }

  predicate IsOwner(t: Tables, gid: string, sub: string) {
    RowOf(t, gid, sub).Some? && RowOf(t, gid, sub).value.role == Owner
  }

  /** Removal by an actor with the given role: only an Owner may remove an Owner. */
  function RemoveAs(t: Tables, gid: string, target: string, role: Role): (Effect, Response) {
    if IsOwner(t, gid, target) && !role.AtLeast(Owner) then Refuse(OwnerOnly) else RemoveRow(t, gid, target)
  }

  function HandleRemove(t: Tables, gid: string, rawTarget: string, d: Option<Decision>): (Effect, Response) {
    if d.None? then Refuse(NotAllowed)
    else if !d.value.role.AtLeast(Curator) then Refuse(RoleTooLow)
    else RemoveAs(t, gid, TrimSpace(rawTarget), d.value.role)
  }

  function HandleLeave(t: Tables, sub: string, gid: string): (Effect, Response) {
    if sub == "" then Refuse(AuthenticationRequired) else RemoveRow(t, gid, sub)
  }

  function HandleBan(sub: string, gid: string, target: string, reason: string, d: Option<Decision>,
                     env: Env): (Effect, Response) {
    if d.None? then Refuse(NotAllowed)
    else if !d.value.role.AtLeast(Curator) then Refuse(RoleTooLow)
    else if target == "" then Refuse(InvalidRecord)
    else (Exclude(StampedBan(Ban(target, gid, reason, sub, env.now), env.now)), Done)
  }

  function HandleUnban(gid: string, target: string, d: Option<Decision>): (Effect, Response) {
    if d.None? then Refuse(NotAllowed)
    else if !d.value.role.AtLeast(Curator) then Refuse(RoleTooLow)
    else (Readmit(gid, target), Done)
  }

  function HandleRead(t: Tables, gid: string, d: Option<Decision>): (Effect, Response) {
    if d.None? then Refuse(NotAllowed)
    else if gid !in t.genealogies then Refuse(RecordMissing)
    else (Nothing, Shown(t.genealogies[gid], d.value.role))
  }

  function Handle(t: Tables, limit: uint64, req: Request, d: Option<Decision>, env: Env): (Effect, Response) {
    match req
    case Create(sub, name, wanted) => HandleCreate(t, limit, sub, name, wanted, env)
    case SetVisibility(_, gid, wanted) => HandleSetVisibility(t, limit, gid, wanted, d)
    case Delete(_, gid) => HandleDelete(t, gid, d, env)
    case Upsert(sub, gid, target, role) => HandleUpsert(sub, gid, target, role, d, env)
    case Remove(_, gid, target) => HandleRemove(t, gid, target, d)
    case Leave(sub, gid) => HandleLeave(t, sub, gid)
    case BanUser(sub, gid, target, reason) => HandleBan(sub, gid, target, reason, d, env)
    case UnbanUser(_, gid, target) => HandleUnban(gid, target, d)
    case Read(_, gid) => HandleRead(t, gid, d)
  }

  predicate Resolves(req: Request) {
    !req.Create? && !req.Leave?
  }

  // ---------- The service: tables and cache together ----------

  datatype Config = Config(limit: uint64, ttl: int)

  datatype State = State(tables: Tables, cache: Cache)

  function ApplyDrop(cache: Cache, drop: Option<CacheKey>): Cache {
    if drop.None? then cache else Invalidated(cache, drop.value.sub, drop.value.gid)
  }

  /** Resolve through the cache (where the handler does), decide, perform, invalidate. */
  function Apply(c: Config, s: State, req: Request, env: Env): (State, Response) {
    var (cache, d) :=
      if Resolves(req) then ResolveCached(s.tables, s.cache, c.ttl, req.sub, req.gid, env.getAt, env.putAt)
      else (s.cache, None);
    var (e, response) := Handle(s.tables, c.limit, req, d, env);
    (State(Perform(s.tables, e), ApplyDrop(cache, DropOf(e))), response)
  }

  /** The same request on a server without a cache. */
  function Uncached(t: Tables, limit: uint64, req: Request, env: Env): (Effect, Response) {
    Handle(t, limit, req, if Resolves(req) then ResolveFresh(t, req.sub, req.gid) else None, env)
  }

  /** What the model asks of its surroundings: a new genealogy gets an unused, non-empty id without a
      slash, and the id in a request to leave has no slash. */
  predicate Admissible(t: Tables, req: Request, env: Env) {
    && (req.Create? ==> env.freshId != "" && SlashFree(env.freshId) && env.freshId !in t.genealogies)
    && (req.Leave? ==> SlashFree(req.gid))
  }

  // ---------- The invariant ----------

  predicate IsPrivateOf(g: Genealogy, u: string) {
    g.visibility == Private && g.createdBy == u
  }

  function PrivateOf(rows: map<string, Genealogy>, u: string): set<string> {
    set g | g in rows && IsPrivateOf(rows[g], u)
  }

  ghost predicate IdsSlashFree(rows: map<string, Genealogy>) {
    forall g :: g in rows ==> SlashFree(g)
  }

  ghost predicate SeatsLive(rows: map<string, Genealogy>, members: map<Seat, Membership>) {
    forall k :: k in members ==> k.gid in rows
  }

  ghost predicate Grounded(t: Tables) {
    Consistent(t) && IdsSlashFree(t.genealogies) && SeatsLive(t.genealogies, t.members)
  }

  /** Every user's counter is the number of live Private genealogies that user created. */
  ghost predicate CountersExact(t: Tables) {
    forall u :: UserCount(t, u) == |PrivateOf(t.genealogies, u)|
  }

  ghost predicate WithinLimit(t: Tables, limit: uint64) {
    limit != 0 ==> forall u :: |PrivateOf(t.genealogies, u)| <= limit
  }

  ghost predicate Inv(c: Config, s: State) {
    && Grounded(s.tables)
    && CountersExact(s.tables)
    && WithinLimit(s.tables, c.limit)
    && Coherent(s.tables, s.cache)
  }

  /** Room for one more genealogy in a 64-bit count; automatic when a limit is set. */
  predicate Room(c: Config, t: Tables) {
    c.limit != 0 || |t.genealogies| < TWO_64 - 1
  }

  /** What the handlers' checks establish about the effects they let through. */
  ghost predicate Legal(t: Tables, limit: uint64, e: Effect) {
    match e
    case Nothing => true
    case Establish(g, owner) =>
      && g.id != "" && SlashFree(g.id) && g.id !in t.genealogies && g.createdBy != ""
      && owner.genealogyId == g.id && owner.subject == g.createdBy && owner.role == Owner
      && (g.visibility == Private ==> !AtQuota(t, limit, g.createdBy))
    case Revise(g) =>
      && g.id in t.genealogies && g == t.genealogies[g.id].(visibility := g.visibility)
      && (g.visibility == Private && t.genealogies[g.id].visibility != Private ==> !AtQuota(t, limit, g.createdBy))
    case Abolish(gid) => gid in t.genealogies
    case Grant(m) => m.genealogyId in t.genealogies && m.subject != "" && m.role != NoRole
    case Revoke(gid, sub) =>
      && Seat(gid, sub) in t.members
      && (t.members[Seat(gid, sub)].role == Owner ==> |Owners(t.members, gid)| > 1)
    case Exclude(b) => b.genealogyId in t.genealogies
    case Readmit(gid, _) => gid in t.genealogies
  }

  lemma HandleIsLegal(t: Tables, limit: uint64, req: Request, env: Env)
    requires Grounded(t) && Admissible(t, req, env)
    ensures Legal(t, limit, Uncached(t, limit, req, env).0)
  {
    assert forall g :: g in t.genealogies ==> t.genealogies[g].id == g;
    hide TrimSpace, Grounded, Owners, AtQuota, SlashFree;
  }

  // ---------- Preservation, clause by clause ----------

  lemma PerformKeepsGrounded(t: Tables, limit: uint64, e: Effect)
    requires Grounded(t) && Legal(t, limit, e)
    ensures Grounded(Perform(t, e))
  {
    hide Adjusted, AtQuota, Owners, SlashFree;
    var rows, members := GenealogiesAfter(t.genealogies, e), MembersAfter(t.members, e);
    assert GenealogiesOk(rows) && IdsSlashFree(rows);
    assert MembersOk(members) && SeatsLive(rows, members) by {
      hide BansOk, GenealogiesOk;
    }
    assert BansOk(BansAfter(t.bans, e));
    hide GenealogiesOk, MembersOk, BansOk, IdsSlashFree, SeatsLive;
  }

  lemma CountOfOne(delta: int64, cur: uint64)
    ensures delta == 1 && cur < TWO_64 - 1 ==> Bump(cur, delta) == cur + 1
    ensures delta == -1 && cur > 0 ==> Bump(cur, delta) == cur - 1
  {
    BumpSaturates(cur, delta);
  }

  /** A user's counter and the number of that user's private genealogies move together. */
  ghost predicate CountMoves(t: Tables, t': Tables, u: string, step: int) {
    && |PrivateOf(t'.genealogies, u)| == |PrivateOf(t.genealogies, u)| + step
    && UserCount(t', u) == UserCount(t, u) + step
  }

  lemma PrivateFitsInTables(rows: map<string, Genealogy>, u: string)
    ensures |PrivateOf(rows, u)| <= |rows|
  {
    SubsetIsSmaller(PrivateOf(rows, u), rows.Keys);
  }

  lemma PrivateAfterPut(rows: map<string, Genealogy>, g: Genealogy, u: string)
    ensures |PrivateOf(rows[g.id := g], u)|
            == |PrivateOf(rows, u)| - One(g.id in rows && IsPrivateOf(rows[g.id], u)) + One(IsPrivateOf(g, u))
  {
    hide IsPrivateOf;
    var rest := PrivateOf(rows, u) - {g.id};
    assert PrivateOf(rows, u) == if g.id in PrivateOf(rows, u) then rest + {g.id} else rest;
    assert PrivateOf(rows[g.id := g], u) == if IsPrivateOf(g, u) then rest + {g.id} else rest;
  }

  lemma PrivateAfterDrop(rows: map<string, Genealogy>, gid: string, u: string)
    ensures |PrivateOf(rows - {gid}, u)| == |PrivateOf(rows, u)| - One(gid in rows && IsPrivateOf(rows[gid], u))
  {
    hide IsPrivateOf;
    var rest := PrivateOf(rows, u) - {gid};
    assert PrivateOf(rows, u) == if gid in PrivateOf(rows, u) then rest + {gid} else rest;
    assert PrivateOf(rows - {gid}, u) == rest;
  }

  lemma SomePrivate(rows: map<string, Genealogy>, gid: string, u: string)
    ensures gid in rows && IsPrivateOf(rows[gid], u) ==> |PrivateOf(rows, u)| > 0
  {
    if gid in rows && IsPrivateOf(rows[gid], u) {
      assert gid in PrivateOf(rows, u);
    }
  }

  lemma AdjustedCount(t: Tables, change: CountChange, t': Tables, u: string)
    requires t'.userCounts == Adjusted(t, change)
    ensures var n := UserCount(t, u);
            UserCount(t', u) == if change.Adjust? && u == change.sub then Bump(n, change.delta) else n
  {
    hide Bump;
  }

  /** Every effect moves a user's counter and the number of that user's private genealogies by the
      same amount: nothing, one down, or one up from below the limit.  In particular no decrement
      finds the counter at zero, so the saturating branch is never taken. */
  lemma PerformMovesCounts(c: Config, t: Tables, e: Effect, u: string)
    requires CountersExact(t) && Room(c, t) && Legal(t, c.limit, e)
    ensures var t' := Perform(t, e);
            || CountMoves(t, t', u, 0)
            || (CountMoves(t, t', u, -1) && UserCount(t, u) > 0)
            || (CountMoves(t, t', u, 1) && !AtQuota(t, c.limit, u))
  {
    hide Bump, Adjusted, PrivateOf, Owners, SlashFree, MembersAfter, BansAfter;
    AdjustedCount(t, CountChangeOf(t.genealogies, e), Perform(t, e), u);
    PrivateFitsInTables(t.genealogies, u);
    CountOfOne(1, UserCount(t, u));
    CountOfOne(-1, UserCount(t, u));
    SomePrivate(t.genealogies, Subject(e), u);
    match e
    case Establish(g, _) => PrivateAfterPut(t.genealogies, g, u);
    case Revise(g) => PrivateAfterPut(t.genealogies, g, u);
    case Abolish(gid) => PrivateAfterDrop(t.genealogies, gid, u);
    case _ =>
  }

  lemma PerformKeepsCounters(c: Config, t: Tables, e: Effect)
    requires CountersExact(t) && WithinLimit(t, c.limit) && Room(c, t) && Legal(t, c.limit, e)
    ensures CountersExact(Perform(t, e)) && WithinLimit(Perform(t, e), c.limit)
  {
    hide Perform, PrivateOf, Legal;
    var t' := Perform(t, e);
    forall u
      ensures UserCount(t', u) == |PrivateOf(t'.genealogies, u)|
      ensures c.limit != 0 ==> |PrivateOf(t'.genealogies, u)| <= c.limit
    {
      PerformMovesCounts(c, t, e, u);
    }
  }

  // ---------- Frame: what one effect cannot reach ----------

  /** The two versions of the tables hold the same about one genealogy. */
  ghost predicate SameAbout(t: Tables, t': Tables, gid: string) {
    && (gid in t'.genealogies <==> gid in t.genealogies)
    && (gid in t.genealogies ==> t'.genealogies[gid] == t.genealogies[gid])
    && (forall sub :: RowOf(t', gid, sub) == RowOf(t, gid, sub))
    && (forall sub :: Seat(gid, sub) in t'.bans <==> Seat(gid, sub) in t.bans)
    && (forall sub :: Seat(gid, sub) in t.bans ==> t'.bans[Seat(gid, sub)] == t.bans[Seat(gid, sub)])
    && PersonCount(t', gid) == PersonCount(t, gid)
  }

  function Subject(e: Effect): string {
    match e
    case Nothing => ""
    case Establish(g, _) => g.id
    case Revise(g) => g.id
    case Abolish(gid) => gid
    case Grant(m) => m.genealogyId
    case Revoke(gid, _) => gid
    case Exclude(b) => b.genealogyId
    case Readmit(gid, _) => gid
  }

  lemma PerformIsLocal(t: Tables, limit: uint64, e: Effect, gid: string)
    requires Legal(t, limit, e) && gid != Subject(e)
    ensures SameAbout(t, Perform(t, e), gid)
  {
    hide Adjusted, AtQuota, Owners, SlashFree;
  }

  // ---------- Cache coherence ----------

  /** A decision is read off one genealogy record and one membership row. */
  lemma SameDecision(t: Tables, t': Tables, sub: string, gid: string)
    requires gid in t.genealogies <==> gid in t'.genealogies
    requires gid in t.genealogies ==> t'.genealogies[gid] == t.genealogies[gid]
    requires RowOf(t', gid, sub) == RowOf(t, gid, sub)
    ensures ResolveFresh(t', sub, gid) == ResolveFresh(t, sub, gid)
  {
  }

  /** An effect only changes decisions that it invalidates, or decisions nobody could have cached. */
  lemma PerformInvalidatesItsChanges(t: Tables, limit: uint64, e: Effect, k: CacheKey)
    requires Legal(t, limit, e)
    ensures || ResolveFresh(Perform(t, e), k.sub, k.gid) == ResolveFresh(t, k.sub, k.gid)
            || ResolveFresh(t, k.sub, k.gid).None?
            || (DropOf(e).Some? && Matches(k, DropOf(e).value.sub, DropOf(e).value.gid))
  {
    assert e.Establish? && k.gid == e.record.id ==> ResolveFresh(t, k.sub, k.gid).None?;
    hide Adjusted, BansAfter, ResolveFresh, SlashFree, Owners, AtQuota;
    var dropped := DropOf(e).Some? && Matches(k, DropOf(e).value.sub, DropOf(e).value.gid);
    if !(e.Establish? && k.gid == e.record.id) && !dropped {
      SameDecision(t, Perform(t, e), k.sub, k.gid);
    }
  }

  /** Handlers keep every cached decision equal to what the new tables give. */
  lemma PerformKeepsCoherence(t: Tables, limit: uint64, e: Effect, cache: Cache)
    requires Legal(t, limit, e) && Coherent(t, cache)
    ensures Coherent(Perform(t, e), ApplyDrop(cache, DropOf(e)))
  {
    hide Perform, ResolveFresh, Legal;
    forall k: CacheKey
      ensures || ResolveFresh(Perform(t, e), k.sub, k.gid) == ResolveFresh(t, k.sub, k.gid)
              || ResolveFresh(t, k.sub, k.gid).None?
              || (DropOf(e).Some? && Matches(k, DropOf(e).value.sub, DropOf(e).value.gid))
    {
      PerformInvalidatesItsChanges(t, limit, e, k);
    }
    if DropOf(e).Some? {
      InvalidationKeepsCoherence(t, Perform(t, e), cache, DropOf(e).value.sub, DropOf(e).value.gid);
    }
  }

  /** One request of any kind keeps the invariant, and does to the tables and answers to the caller
      exactly what it would without a cache. */
  lemma ApplyKeepsInv(c: Config, s: State, req: Request, env: Env)
    requires Inv(c, s) && Admissible(s.tables, req, env) && Room(c, s.tables)
    ensures Inv(c, Apply(c, s, req, env).0)
    ensures var (e, response) := Uncached(s.tables, c.limit, req, env);
            Apply(c, s, req, env).0.tables == Perform(s.tables, e) && Apply(c, s, req, env).1 == response
  {
    hide Handle, Perform, ResolveFresh, ResolveCached, Grounded, CountersExact, WithinLimit, Coherent, Admissible,
         Legal;
    var t := s.tables;
    var e := Uncached(t, c.limit, req, env).0;
    HandleIsLegal(t, c.limit, req, env);
    if Resolves(req) {
      ResolveIsTransparent(t, s.cache, c.ttl, req.sub, req.gid, env.getAt, env.putAt);
      PerformKeepsCoherence(t, c.limit, e, ResolveCached(t, s.cache, c.ttl, req.sub, req.gid, env.getAt, env.putAt).0);
    } else {
      PerformKeepsCoherence(t, c.limit, e, s.cache);
    }
    PerformKeepsGrounded(t, c.limit, e);
    PerformKeepsCounters(c, t, e);
  }
}
