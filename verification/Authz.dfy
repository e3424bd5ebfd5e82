/** Authorization: the decision for one (subject, genealogy) pair, and the TTL cache in front of it. */
module Authz {
  import opened Wrappers
  import opened Records
  import opened PlatformTables
  import opened PlatformStore

  datatype Decision = Decision(gid: string, role: Role, implicit: bool)

  /** The role a genealogy's visibility gives to callers without a membership row. */
  function ImplicitRole(v: Visibility, authenticated: bool): Role {
    match v
    case Public => if authenticated then Contributor else Viewer
    case Unlisted => if authenticated then Contributor else NoRole
    case Private => NoRole
  }

  /** An explicit row wins; else visibility decides; no role means not allowed. */
  function Decide(g: Genealogy, sub: string, row: Option<Membership>): Option<Decision> {
    if sub != "" && row.Some? then Some(Decision(g.id, row.value.role, false))
    else
      var role := ImplicitRole(g.visibility, sub != "");
      if role == NoRole then None else Some(Decision(g.id, role, true))
  }

  function RowOf(t: Tables, gid: string, sub: string): Option<Membership> {
    if Seat(gid, sub) in t.members then Some(t.members[Seat(gid, sub)]) else None
  }

  /** The decision computed from the present tables, without the cache; None is "not allowed", which
      also stands for a genealogy that does not exist. */
  function ResolveFresh(t: Tables, sub: string, gid: string): Option<Decision> {
    if gid == "" || gid !in t.genealogies then None
    else Decide(t.genealogies[gid], sub, RowOf(t, gid, sub))
  }

  // ---------- The cache ----------

  datatype CacheKey = CacheKey(sub: string, gid: string)

  datatype CacheEntry = CacheEntry(decision: Decision, expires: int)

  type Cache = map<CacheKey, CacheEntry>

  function CacheGet(cache: Cache, k: CacheKey, now: int): Option<Decision> {
    if k in cache && now <= cache[k].expires then Some(cache[k].decision) else None
  }

  /** The cache and the answer after one Resolve whose clock reads `getAt`, and `putAt` if it stores. */
  function ResolveCached(t: Tables, cache: Cache, ttl: int, sub: string, gid: string, getAt: int,
                         putAt: int): (Cache, Option<Decision>) {
    var k := CacheKey(sub, gid);
    if gid == "" then (cache, None)
    else if CacheGet(cache, k, getAt).Some? then (cache, CacheGet(cache, k, getAt))
    else
      var d := ResolveFresh(t, sub, gid);
      (if d.Some? then cache[k := CacheEntry(d.value, putAt + ttl)] else cache, d)
  }

  /** Invalidate's pattern: the empty string is a wildcard. */
  predicate Matches(k: CacheKey, sub: string, gid: string) {
    (sub == "" || k.sub == sub) && (gid == "" || k.gid == gid)
  }

  function Invalidated(cache: Cache, sub: string, gid: string): Cache {
    map k | k in cache && !Matches(k, sub, gid) :: cache[k]
  }

  /** Every cached decision, expired or not, is the one the present tables give. */
  ghost predicate Coherent(t: Tables, cache: Cache) {
    forall k :: k in cache ==> ResolveFresh(t, k.sub, k.gid) == Some(cache[k].decision)
  }

  /** One Resolve, from any cache: an entry is used exactly until it expires; otherwise the tables decide, and
      a decision, but never a refusal, is kept for one TTL from when it is stored. */
  ghost predicate Resolved(t: Tables, cache: Cache, cache': Cache, ttl: int, k: CacheKey, getAt: int, putAt: int,
                           d: Option<Decision>) {
    var usable := k.gid != "" && k in cache && getAt <= cache[k].expires;
    && (usable ==> d == Some(cache[k].decision) && cache' == cache)
    && (!usable ==> d == ResolveFresh(t, k.sub, k.gid))
    && (!usable && d.Some? ==> cache' == cache[k := CacheEntry(d.value, putAt + ttl)])
    && (d.None? ==> cache' == cache)
  }

  lemma ResolveMeans(t: Tables, cache: Cache, ttl: int, sub: string, gid: string, getAt: int, putAt: int)
    ensures var (cache', d) := ResolveCached(t, cache, ttl, sub, gid, getAt, putAt);
            Resolved(t, cache, cache', ttl, CacheKey(sub, gid), getAt, putAt, d)
  {
  }

  /** From any cache, coherent or not, a Resolve after the entry's expiry gives the decision of the present
      tables. */
  lemma ExpiryIsRespected(t: Tables, cache: Cache, ttl: int, sub: string, gid: string, getAt: int, putAt: int)
    requires CacheKey(sub, gid) in cache ==> cache[CacheKey(sub, gid)].expires < getAt
    ensures ResolveCached(t, cache, ttl, sub, gid, getAt, putAt).1 == ResolveFresh(t, sub, gid)
  {
    ResolveMeans(t, cache, ttl, sub, gid, getAt, putAt);
  }

  /** On a coherent cache the cached and the fresh decision are the same, whatever the clock reads,
      and resolving keeps the cache coherent. */
  lemma ResolveIsTransparent(t: Tables, cache: Cache, ttl: int, sub: string, gid: string, getAt: int, putAt: int)
    requires Coherent(t, cache)
    ensures var (cache', d) := ResolveCached(t, cache, ttl, sub, gid, getAt, putAt);
            d == ResolveFresh(t, sub, gid) && Coherent(t, cache')
  {
  }

  /** A change of tables is safe for the cache if every decision it alters is invalidated with it. */
  lemma InvalidationKeepsCoherence(t: Tables, t': Tables, cache: Cache, sub: string, gid: string)
    requires Coherent(t, cache)
    requires forall k: CacheKey :: ResolveFresh(t, k.sub, k.gid) != ResolveFresh(t', k.sub, k.gid) ==>
               ResolveFresh(t, k.sub, k.gid).None? || Matches(k, sub, gid)
    ensures Coherent(t', Invalidated(cache, sub, gid))
  {
    hide ResolveFresh;
  }

  /** A role of Curator or more can only come from an explicit row. */
  lemma HighRolesAreExplicit(t: Tables, sub: string, gid: string)
    requires Consistent(t)
    requires ResolveFresh(t, sub, gid).Some? && ResolveFresh(t, sub, gid).value.role.AtLeast(Curator)
    ensures sub != "" && gid in t.genealogies && Seat(gid, sub) in t.members
    ensures t.members[Seat(gid, sub)].role == ResolveFresh(t, sub, gid).value.role
  {
  }

  /** Who gets in, and as what: members by their row; without a row, anyone may view a Public genealogy,
      signed-in callers contribute to Public and Unlisted ones, and nobody gets into a Private one. */
  lemma AccessRules(t: Tables, sub: string, gid: string)
    requires Consistent(t)
    ensures var d := ResolveFresh(t, sub, gid);
            var vis := if gid in t.genealogies then t.genealogies[gid].visibility else Private;
            && (d.Some? ==> d.value.gid == gid && d.value.role != NoRole)
            && (gid in t.genealogies && Seat(gid, sub) in t.members ==>
                  d == Some(Decision(gid, t.members[Seat(gid, sub)].role, false)))
            && (Seat(gid, sub) !in t.members ==>
                  && (d.Some? <==> gid in t.genealogies && (vis == Public || (vis == Unlisted && sub != "")))
                  && (d.Some? ==> d.value.implicit && d.value.role == if sub != "" then Contributor else Viewer))
  {
  }

  const DEFAULT_TTL: int := 5

  class Resolver {
    const platform: Store
    const ttl: int
    var cache: Cache

    /** A TTL of 0 selects the default; it does not disable the cache. */
    constructor (platform: Store, ttl: int)
      ensures this.platform == platform && cache == map[]
      ensures this.ttl == (if ttl == 0 then 5 else ttl)
    {
      this.platform := platform;
      this.ttl := if ttl == 0 then DEFAULT_TTL else ttl;
      cache := map[];
    }

    method Resolve(sub: string, gid: string, getAt: int, putAt: int) returns (d: Option<Decision>)
      requires platform.Valid()
      requires gid in platform.tables.genealogies ==> SlashFree(gid)
      modifies this
      ensures (cache, d) == ResolveCached(platform.tables, old(cache), ttl, sub, gid, getAt, putAt)
      ensures Resolved(platform.tables, old(cache), cache, ttl, CacheKey(sub, gid), getAt, putAt, d)
    {
      ResolveMeans(platform.tables, cache, ttl, sub, gid, getAt, putAt);
      if gid == "" {
        return None;
      }
      var k := CacheKey(sub, gid);
      if k in cache && getAt <= cache[k].expires {
        return Some(cache[k].decision);
      }
      var g := platform.GetGenealogy(gid);
      if g.Err? {
        return None;
      }
      var row: Option<Membership> := None;
      if sub != "" {
        var m := platform.GetMembership(gid, sub);
        if m.Ok? {
          row := Some(m.value);
        }
      }
      d := Decide(g.value, sub, row);
      if d.Some? {
        cache := cache[k := CacheEntry(d.value, putAt + ttl)];
      }
    }

    method Invalidate(sub: string, gid: string)
      modifies this
      ensures cache == Invalidated(old(cache), sub, gid)
      ensures forall k :: k in cache <==>
                k in old(cache) && !((sub == "" || k.sub == sub) && (gid == "" || k.gid == gid))
      ensures forall k :: k in cache ==> cache[k] == old(cache)[k]
    {
      var pending := cache.Keys;
      while pending != {}
        invariant pending <= old(cache).Keys
        invariant cache == map k | k in old(cache) && (k in pending || !Matches(k, sub, gid)) :: old(cache)[k]
        decreases |pending|
      {
        var k :| k in pending;
        if (sub == "" || k.sub == sub) && (gid == "" || k.gid == gid) {
          cache := cache - {k};
        }
        pending := pending - {k};
      }
    }
  }
}
