/** The genealogy handlers as they run: step by step over the flat store and the decision cache. */
module GenealogyService {
  import opened Wrappers
  import opened Records
  import opened Keys
  import opened Counters
  import opened PlatformTables
  import opened PlatformStore
  import opened Authz
  import opened Genealogies
  import opened SlashedIds
  import TenantCore

  // ---------- What a listing contains ----------

  datatype Listed = Listed(genealogy: Genealogy, role: Role)

  /** The caller's membership scan meets a row of this genealogy. */
  ghost predicate NearMember(t: Tables, sub: string, gid: string, role: Role) {
    sub != "" && exists k :: k in t.members && k.gid == gid && SameOrBelow(sub, k.sub) && t.members[k].role == role
  }

  function PublicRole(sub: string): Role {
    if sub != "" then Contributor else Viewer
  }

  ghost predicate Justified(t: Tables, sub: string, item: Listed) {
    var g := item.genealogy;
    && g.id in t.genealogies && t.genealogies[g.id] == g
    && (|| NearMember(t, sub, g.id, item.role)
        || (g.visibility == Public && item.role == PublicRole(sub) && forall r :: !NearMember(t, sub, g.id, r)))
  }

  ghost predicate Lists(out: seq<Listed>, gid: string) {
    exists i :: 0 <= i < |out| && out[i].genealogy.id == gid
  }

  ghost predicate OncePerGenealogy(out: seq<Listed>) {
    forall i, j :: 0 <= i < j < |out| ==> out[i].genealogy.id != out[j].genealogy.id
  }

  /** What the caller is promised: Public genealogies and those with an explicit row of the caller. */
  ghost predicate VisibleTo(t: Tables, sub: string, gid: string) {
    gid in t.genealogies && (t.genealogies[gid].visibility == Public || (sub != "" && Seat(gid, sub) in t.members))
  }

  /** What a listing delivers, for every state and caller. */
  ghost predicate ListingOf(t: Tables, sub: string, out: seq<Listed>) {
    && OncePerGenealogy(out)
    && (forall i :: 0 <= i < |out| ==> Justified(t, sub, out[i]))
    && (forall g :: Lists(out, g) <==>
          g in t.genealogies && (t.genealogies[g].visibility == Public || exists r :: NearMember(t, sub, g, r)))
  }

  /** No member subject extends the caller's by a slash. */
  ghost predicate NobodyBelow(t: Tables, sub: string) {
    forall k :: k in t.members && SameOrBelow(sub, k.sub) ==> k.sub == sub
  }

  /** With nobody below the caller, the listing is exactly what the caller may see, and each role shown
      is the one Resolve gives. */
  lemma ListingAgreesWithResolve(t: Tables, sub: string, out: seq<Listed>, g: string)
    requires Consistent(t) && ListingOf(t, sub, out) && NobodyBelow(t, sub)
    ensures Lists(out, g) <==> VisibleTo(t, sub, g)
    ensures RolesRight(t, sub, out)
  {
    if VisibleTo(t, sub, g) && sub != "" && Seat(g, sub) in t.members {
      assert NearMember(t, sub, g, t.members[Seat(g, sub)].role);
    }
    forall k | Meets(t, sub, k) ensures RoleIsRight(t, sub, Listed(t.genealogies[k.gid], t.members[k].role)) {
      assert k == Seat(k.gid, sub);
    }
    forall i | 0 <= i < |out| ensures RoleIsRight(t, sub, out[i]) {
      JustifiedIsRight(t, sub, out[i]);
    }
  }

  /** The listing is the promised set exactly when every genealogy with a member below the caller is
      visible to the caller anyway. */
  lemma ListingIsExactIff(t: Tables, sub: string, out: seq<Listed>)
    requires Consistent(t) && ListingOf(t, sub, out)
    ensures (forall g :: Lists(out, g) <==> VisibleTo(t, sub, g))
            <==> (forall k :: Meets(t, sub, k) ==> VisibleTo(t, sub, k.gid))
  {
    forall g | VisibleTo(t, sub, g) ensures Lists(out, g) {
      if t.genealogies[g].visibility != Public {
        assert NearMember(t, sub, g, t.members[Seat(g, sub)].role);
      }
    }
    forall k | Meets(t, sub, k) ensures Lists(out, k.gid) {
      assert NearMember(t, sub, k.gid, t.members[k].role);
    }
  }

  /** The role shown is the one Resolve gives the caller. */
  ghost predicate RoleIsRight(t: Tables, sub: string, item: Listed) {
    var d := ResolveFresh(t, sub, item.genealogy.id);
    d.Some? && d.value.role == item.role
  }

  ghost predicate RolesRight(t: Tables, sub: string, out: seq<Listed>) {
    forall i :: 0 <= i < |out| ==> RoleIsRight(t, sub, out[i])
  }

  /** The caller's scan meets this row of a live genealogy. */
  predicate Meets(t: Tables, sub: string, k: Seat) {
    sub != "" && k in t.members && SameOrBelow(sub, k.sub) && k.gid in t.genealogies
  }

  /** Every row met has the role that Resolve gives the caller there. */
  ghost predicate MetRowsAgree(t: Tables, sub: string) {
    forall k :: Meets(t, sub, k) ==> RoleIsRight(t, sub, Listed(t.genealogies[k.gid], t.members[k].role))
  }

  lemma OwnRowIsNear(t: Tables, sub: string, gid: string)
    requires sub != "" && Seat(gid, sub) in t.members
    ensures NearMember(t, sub, gid, t.members[Seat(gid, sub)].role)
  {
  }

  lemma JustifiedIsRight(t: Tables, sub: string, item: Listed)
    requires Consistent(t) && MetRowsAgree(t, sub) && Justified(t, sub, item)
    ensures RoleIsRight(t, sub, item)
  {
    var gid := item.genealogy.id;
    if NearMember(t, sub, gid, item.role) {
      var k :| k in t.members && k.gid == gid && SameOrBelow(sub, k.sub) && t.members[k].role == item.role;
      assert Meets(t, sub, k);
    } else if sub != "" && Seat(gid, sub) in t.members {
      OwnRowIsNear(t, sub, gid);
    }
  }

  /** Some role is justified for every genealogy that a listing must contain. */
  lemma SomeItem(t: Tables, sub: string, g: string) returns (item: Listed)
    requires Consistent(t) && g in t.genealogies
    requires t.genealogies[g].visibility == Public || exists r :: NearMember(t, sub, g, r)
    ensures item.genealogy.id == g && Justified(t, sub, item)
  {
    hide NearMember;
    if r :| NearMember(t, sub, g, r) {
      item := Listed(t.genealogies[g], r);
    } else {
      item := Listed(t.genealogies[g], PublicRole(sub));
    }
  }

  ghost predicate Due(t: Tables, sub: string, g: string) {
    g in t.genealogies && (t.genealogies[g].visibility == Public || exists r :: NearMember(t, sub, g, r))
  }

  /** Any beginning of a listing can be completed. */
  lemma {:induction false} CompleteListing(t: Tables, sub: string, out: seq<Listed>, seen: set<string>,
                                           left: set<string>)
    returns (full: seq<Listed>)
    requires Consistent(t) && ListedSoFar(t, sub, out, seen)
    requires forall g :: Due(t, sub, g) ==> g in seen || g in left
    ensures ListingOf(t, sub, full) && out <= full
    decreases left
  {
    hide NearMember, Justified, Lists, OncePerGenealogy, Consistent;
    if left == {} {
      full := out;
      assert forall g, r :: g in t.genealogies && NearMember(t, sub, g, r) ==> Due(t, sub, g);
      assert forall g :: g in t.genealogies && t.genealogies[g].visibility == Public ==> Due(t, sub, g);
      ListingComplete(t, sub, out, seen);
    } else {
      var g :| g in left;
      if Due(t, sub, g) && g !in seen {
        var item := SomeItem(t, sub, g);
        AddListed(t, sub, out, item);
        full := CompleteListing(t, sub, out + [item], seen + {g}, left - {g});
      } else {
        full := CompleteListing(t, sub, out, seen, left - {g});
      }
    }
  }

  lemma ListingWith(t: Tables, sub: string, k: Seat) returns (out: seq<Listed>)
    requires Consistent(t) && Meets(t, sub, k)
    ensures ListingOf(t, sub, out) && |out| > 0 && out[0] == Listed(t.genealogies[k.gid], t.members[k].role)
  {
    var item := Listed(t.genealogies[k.gid], t.members[k].role);
    assert NearMember(t, sub, k.gid, t.members[k].role);
    hide NearMember;
    assert ListedSoFar(t, sub, [item], {k.gid}) by {
      forall g ensures g in {k.gid} <==> Lists([item], g) {
        assert [item][0] == item;
      }
    }
    out := CompleteListing(t, sub, [item], {k.gid}, t.genealogies.Keys);
  }

  /** Every listing the code may produce shows the right roles exactly when every row met by the caller's
      scan of a live genealogy has the role that Resolve gives the caller there. */
  lemma RolesAreRightIff(t: Tables, sub: string)
    requires Consistent(t)
    ensures (forall out :: ListingOf(t, sub, out) ==> RolesRight(t, sub, out)) <==> MetRowsAgree(t, sub)
  {
    if MetRowsAgree(t, sub) {
      forall out | ListingOf(t, sub, out) ensures RolesRight(t, sub, out) {
        forall i | 0 <= i < |out| ensures RoleIsRight(t, sub, out[i]) {
          JustifiedIsRight(t, sub, out[i]);
        }
      }
    } else {
      var k :| Meets(t, sub, k) && !RoleIsRight(t, sub, Listed(t.genealogies[k.gid], t.members[k].role));
      var out := ListingWith(t, sub, k);
      assert !RoleIsRight(t, sub, out[0]);
    }
  }

  /** One genealogy with one member. */
  function OneMember(vis: Visibility, gid: string, member: string, role: Role): Tables {
    EMPTY.(genealogies := map[gid := Genealogy(gid, "Tree", vis, member, 1)],
           members := map[Seat(gid, member) := Membership(member, gid, role, member, 1)])
  }

  /** A caller is listed a Private genealogy of a member below it, and cannot open it. */
  lemma ListingShowsTooMuch(gid: string, sub: string, more: string, out: seq<Listed>)
    requires gid != "" && SlashFree(gid) && sub != ""
    requires ListingOf(OneMember(Private, gid, sub + "/" + more, Owner), sub, out)
    ensures var t := OneMember(Private, gid, sub + "/" + more, Owner);
            Consistent(t) && Lists(out, gid) && !VisibleTo(t, sub, gid) && ResolveFresh(t, sub, gid) == None
  {
    var t, k := OneMember(Private, gid, sub + "/" + more, Owner), Seat(gid, sub + "/" + more);
    assert k.sub[|sub|] == '/' && k.sub != sub;
    assert SameOrBelow(sub, k.sub) && k in t.members;
    assert NearMember(t, sub, gid, Owner);
  }

  /** A caller is shown the role of a member below it on a Public genealogy, where the listed set is exact. */
  lemma ListingShowsWrongRole(gid: string, sub: string, more: string, out: seq<Listed>)
    requires gid != "" && SlashFree(gid) && sub != ""
    requires ListingOf(OneMember(Public, gid, sub + "/" + more, Owner), sub, out)
    ensures var t := OneMember(Public, gid, sub + "/" + more, Owner);
            && (forall g :: Lists(out, g) <==> VisibleTo(t, sub, g))
            && |out| > 0 && out[0].role == Owner && ResolveFresh(t, sub, gid) == Some(Decision(gid, Contributor, true))
  {
    var t, k := OneMember(Public, gid, sub + "/" + more, Owner), Seat(gid, sub + "/" + more);
    assert k.sub[|sub|] == '/' && k.sub != sub;
    assert SameOrBelow(sub, k.sub) && k in t.members;
    assert NearMember(t, sub, gid, Owner);
    assert Lists(out, gid);
    assert Justified(t, sub, out[0]);
  }

  /** On an Unlisted genealogy of a Contributor below it, the caller is shown the right role in a listing that
      contains too much: the two conditions are independent. */
  lemma ListingShowsTooMuchRightly(gid: string, sub: string, more: string, out: seq<Listed>)
    requires gid != "" && SlashFree(gid) && sub != ""
    requires ListingOf(OneMember(Unlisted, gid, sub + "/" + more, Contributor), sub, out)
    ensures var t := OneMember(Unlisted, gid, sub + "/" + more, Contributor);
            MetRowsAgree(t, sub) && RolesRight(t, sub, out) && Lists(out, gid) && !VisibleTo(t, sub, gid)
  {
    var t, k := OneMember(Unlisted, gid, sub + "/" + more, Contributor), Seat(gid, sub + "/" + more);
    assert k.sub[|sub|] == '/' && k.sub != sub;
    assert SameOrBelow(sub, k.sub) && k in t.members;
    assert NearMember(t, sub, gid, Contributor);
    assert Consistent(t) && MetRowsAgree(t, sub);
    RolesAreRightIff(t, sub);
  }

  /** The labels of the Owner rows among the first `n`. */
  ghost function OwnerLabels(rows: seq<Membership>, labels: seq<string>, n: nat): set<string>
    requires n <= |rows| == |labels|
  {
    set i | 0 <= i < n && rows[i].role == Owner :: labels[i]
  }

  lemma OneMoreOwner(rows: seq<Membership>, labels: seq<string>, n: nat)
    requires n < |rows| == |labels| && forall i, j :: 0 <= i < j < |labels| ==> labels[i] != labels[j]
    ensures |OwnerLabels(rows, labels, n + 1)| == |OwnerLabels(rows, labels, n)| + One(rows[n].role == Owner)
  {
    var before, after := OwnerLabels(rows, labels, n), OwnerLabels(rows, labels, n + 1);
    assert labels[n] !in before;
    forall x ensures x in after <==> x in before || (rows[n].role == Owner && x == labels[n]) {
      if x in after {
        var i :| 0 <= i < n + 1 && rows[i].role == Owner && labels[i] == x;
        assert i < n ==> x in before;
      }
    }
    assert after == if rows[n].role == Owner then before + {labels[n]} else before;
  }

  ghost function Subjects(rows: seq<Membership>): seq<string> {
    seq(|rows|, i requires 0 <= i < |rows| => rows[i].subject)
  }

  lemma OwnersBySubject(t: Tables, gid: string, rows: seq<Membership>)
    requires Consistent(t) && Enumerates(rows, MembersOf(t, gid))
    ensures OwnerLabels(rows, Subjects(rows), |rows|) == Owners(t.members, gid)
    ensures forall i, j :: 0 <= i < j < |rows| ==> Subjects(rows)[i] != Subjects(rows)[j]
  {
    forall i | 0 <= i < |rows|
      ensures Seat(gid, rows[i].subject) in t.members && t.members[Seat(gid, rows[i].subject)] == rows[i]
    {
      assert rows[i] in rows;
    }
    forall sub | sub in Owners(t.members, gid) ensures sub in OwnerLabels(rows, Subjects(rows), |rows|) {
      var m := t.members[Seat(gid, sub)];
      assert m in MembersOf(t, gid);
      var i :| 0 <= i < |rows| && rows[i] == m;
      assert Subjects(rows)[i] == sub;
    }
  }

  lemma OwnersByString(db: map<string, Value>, gid: string, rows: seq<Membership>, keys: seq<string>)
    requires |keys| == |rows| && Enumerates(keys, set s | s in db && MembersPrefix(gid) <= s)
    requires forall i :: 0 <= i < |rows| ==> MembershipAt(db, keys[i]) == Some(rows[i])
    ensures OwnerLabels(rows, keys, |rows|) == OwnerStrings(db, gid)
  {
    forall i | 0 <= i < |keys| ensures keys[i] in db && MembersPrefix(gid) <= keys[i] {
      assert keys[i] in keys;
    }
    forall s | s in OwnerStrings(db, gid) ensures s in OwnerLabels(rows, keys, |rows|) {
      assert s in keys;
    }
  }

  lemma NothingHappens(t: Tables)
    ensures Perform(t, Nothing) == t
    ensures forall cache :: ApplyDrop(cache, DropOf(Nothing)) == cache
  {
    NothingChanges(t);
  }

  lemma LiveIds(c: Config, s: State, gid: string)
    requires Inv(c, s)
    ensures gid in s.tables.genealogies ==> SlashFree(gid) && s.tables.genealogies[gid].id == gid
  {
  }

  class Service {
    const store: Store
    const authz: Resolver
    const tenants: TenantCore.Manager
    const limit: uint64

    constructor (store: Store, authz: Resolver, tenants: TenantCore.Manager, limit: uint64)
      ensures this.store == store && this.authz == authz && this.tenants == tenants && this.limit == limit
    {
      this.store := store;
      this.authz := authz;
      this.tenants := tenants;
      this.limit := limit;
    }

    ghost function Conf(): Config {
      Config(limit, authz.ttl)
    }

    ghost function View(): State
      reads store, authz
    {
      State(store.tables, authz.cache)
    }

    ghost predicate Valid()
      reads store, authz
    {
      authz.platform == store && store.Valid() && Inv(Conf(), View())
    }

    ghost predicate Ready(req: Request, env: Env)
      reads store, authz
    {
      Valid() && Admissible(store.tables, req, env) && Room(Conf(), store.tables)
    }

    // ---------- Helpers ----------

    method CheckPrivateQuota(sub: string) returns (exceeded: bool)
      requires store.Valid()
      ensures exceeded <==> limit != 0 && UserCount(store.tables, sub) >= limit
    {
      if limit == 0 {
        return false;
      }
      var cur := store.GetUserCount(sub);
      return cur.value >= limit;
    }

    method CountOwners(gid: string) returns (n: nat)
      requires store.Valid()
      ensures n == |OwnerStrings(store.db, gid)|
      ensures SlashFree(gid) ==> n == |Owners(store.tables.members, gid)|
    {
      hide Owners, Represents, Consistent, OwnerStrings, SlashFree;
      var rows, keys := store.IterateMembers(gid);
      ghost var subs := Subjects(rows);
      OwnersByString(store.db, gid, rows, keys);
      if SlashFree(gid) {
        OwnersBySubject(store.tables, gid, rows);
      }
      n := 0;
      assert OwnerLabels(rows, keys, 0) == {} && OwnerLabels(rows, subs, 0) == {};
      hide OwnerLabels;
      for i := 0 to |rows|
        invariant n == |OwnerLabels(rows, keys, i)|
        invariant SlashFree(gid) ==> n == |OwnerLabels(rows, subs, i)|
      {
        OneMoreOwner(rows, keys, i);
        if SlashFree(gid) {
          OneMoreOwner(rows, subs, i);
        }
        if rows[i].role == Owner {
          n := n + 1;
        }
      }
    }

    /** The guard shared by removing and leaving. */
    method IsLastOwner(gid: string, m: Membership) returns (last: bool)
      requires store.Valid()
      ensures last <==> m.role == Owner && |OwnerStrings(store.db, gid)| <= 1
      ensures SlashFree(gid) ==> (last <==> m.role == Owner && |Owners(store.tables.members, gid)| <= 1)
    {
      hide Owners, OwnerStrings, Represents, Consistent, SlashFree;
      if m.role != Owner {
        return false;
      }
      var owners := CountOwners(gid);
      return owners <= 1;
    }

    /** The authorization step of a handler: the decision it works with is the uncached one. */
    method Authorize(sub: string, gid: string, env: Env) returns (d: Option<Decision>)
      requires Valid()
      modifies authz
      ensures Valid()
      ensures (authz.cache, d)
              == ResolveCached(store.tables, old(authz.cache), authz.ttl, sub, gid, env.getAt, env.putAt)
      ensures d == ResolveFresh(store.tables, sub, gid)
    {
      ResolveIsTransparent(store.tables, authz.cache, authz.ttl, sub, gid, env.getAt, env.putAt);
      d := authz.Resolve(sub, gid, env.getAt, env.putAt);
    }

    // ---------- The writing half of the handlers ----------

    method WriteNew(g: Genealogy, now: int)
      requires store.Valid() && g.id != "" && SlashFree(g.id) && g.createdBy != "" && g.createdAt == now
      modifies store, authz
      ensures store.Valid()
      ensures var e := Establish(g, Stamped(Membership(g.createdBy, g.id, Owner, g.createdBy, now), now));
              store.tables == Perform(old(store.tables), e) && authz.cache == ApplyDrop(old(authz.cache), DropOf(e))
    {
      hide Bump, Represents, Consistent, Invalidated, SlashFree, Perform;
      var owner := Membership(g.createdBy, g.id, Owner, g.createdBy, now);
      PerformOnGenealogies(store.tables, g, Stamped(owner, now));
      var put := store.PutGenealogy(g);
      var member := store.PutMembership(owner, now);
      if g.visibility == Private {
        var n := store.IncUserCount(g.createdBy, 1);
      }
      authz.Invalidate(g.createdBy, g.id);
    }

    /** Writes the record with its new visibility and moves the counter on a transition. */
    method WriteVisibility(prev: Visibility, g: Genealogy)
      requires store.Valid() && g.id != "" && g.id in store.tables.genealogies
      requires prev == store.tables.genealogies[g.id].visibility
      modifies store, authz
      ensures store.Valid()
      ensures store.tables == Perform(old(store.tables), Revise(g))
      ensures authz.cache == ApplyDrop(old(authz.cache), DropOf(Revise(g)))
    {
      hide Bump, Represents, Consistent, Invalidated, Perform;
      PerformOnGenealogies(store.tables, g, Membership("", "", NoRole, "", 0));
      var put := store.PutGenealogy(g);
      if prev == Private && g.visibility != Private {
        var n := store.IncUserCount(g.createdBy, -1);
      } else if prev != Private && g.visibility == Private {
        var n := store.IncUserCount(g.createdBy, 1);
      }
      authz.Invalidate("", g.id);
    }

    /** Memberships first, then the record, then the counter. */
    method EraseGenealogy(g: Genealogy)
      requires store.Valid() && SlashFree(g.id)
      requires g.id in store.tables.genealogies && store.tables.genealogies[g.id] == g
      modifies store, authz
      ensures store.Valid()
      ensures store.tables == Perform(old(store.tables), Abolish(g.id))
      ensures authz.cache == ApplyDrop(old(authz.cache), DropOf(Abolish(g.id)))
    {
      hide Bump, Represents, Consistent, Invalidated, Perform, MembersAfter, SlashFree;
      PerformOnGenealogies(store.tables, g, Membership("", "", NoRole, "", 0));
      DropAllMembers(g.id);
      store.DeleteGenealogy(g.id);
      if g.visibility == Private {
        var n := store.IncUserCount(g.createdBy, -1);
      }
      authz.Invalidate("", g.id);
    }

    method WriteMember(m: Membership, now: int) returns (ok: bool)
      requires store.Valid() && SlashFree(m.genealogyId) && m.genealogyId != "" && m.role != NoRole
      modifies store, authz
      ensures store.Valid() && (ok <==> m.subject != "")
      ensures !ok ==> store.tables == old(store.tables) && authz.cache == old(authz.cache)
      ensures ok ==> store.tables == Perform(old(store.tables), Grant(Stamped(m, now)))
      ensures ok ==> authz.cache == ApplyDrop(old(authz.cache), DropOf(Grant(Stamped(m, now))))
    {
      hide Represents, Consistent, Invalidated, Perform, SlashFree, Flat;
      PerformOnRows(store.tables, Stamped(m, now), Records.Ban("", "", "", "", 0));
      var put := store.PutMembership(m, now);
      if put.Err? {
        return false;
      }
      authz.Invalidate(m.subject, m.genealogyId);
      return true;
    }

    method EraseMember(gid: string, sub: string)
      requires store.Valid()
      modifies store, authz
      ensures store.db == old(store.db) - {Flat(MembershipK(gid, sub))} - {Flat(ReverseK(sub, gid))}
      ensures SlashFree(gid) ==> store.Valid() && store.tables == Perform(old(store.tables), Revoke(gid, sub))
      ensures authz.cache == ApplyDrop(old(authz.cache), DropOf(Revoke(gid, sub)))
    {
      hide Represents, Consistent, Invalidated, Perform, SlashFree, Flat;
      PerformOnRows(store.tables, Membership(sub, gid, NoRole, "", 0), Records.Ban("", "", "", "", 0));
      store.DeleteMembership(gid, sub);
      authz.Invalidate(sub, gid);
    }

    // ---------- Handlers ----------

    method CreateGenealogy(sub: string, name: string, wanted: Option<Visibility>, env: Env) returns (r: Response)
      requires Ready(Create(sub, name, wanted), env)
      modifies store, authz
      ensures Valid() && (View(), r) == Apply(Conf(), old(View()), Create(sub, name, wanted), env)
    {
      hide TrimSpace, Bump, Represents, Inv, Coherent, Consistent, ResolveFresh, ResolveCached;
      hide Perform, DropOf, ApplyDrop, Invalidated, SlashFree;
      NothingHappens(store.tables);
      ApplyKeepsInv(Conf(), View(), Create(sub, name, wanted), env);
      if sub == "" {
        return Refused(AuthenticationRequired);
      }
      var trimmed := TrimSpace(name);
      if trimmed == "" {
        return Refused(NameRequired);
      }
      var vis := if wanted.Some? then wanted.value else Private;
      if vis == Private {
        var exceeded := CheckPrivateQuota(sub);
        if exceeded {
          return Refused(QuotaExceeded);
        }
      }
      var gid := env.freshId;
      WriteNew(Genealogy(gid, trimmed, vis, sub, env.now), env.now);
      return Done;
    }

    method UpdateVisibility(sub: string, gid: string, wanted: Option<Visibility>, env: Env) returns (r: Response)
      requires Ready(SetVisibility(sub, gid, wanted), env)
      modifies store, authz
      ensures Valid() && (View(), r) == Apply(Conf(), old(View()), SetVisibility(sub, gid, wanted), env)
    {
      LiveIds(Conf(), View(), gid);
      hide Bump, Represents, Inv, Coherent, Consistent, ResolveFresh, ResolveCached;
      hide Perform, DropOf, ApplyDrop, Invalidated, SlashFree;
      NothingHappens(store.tables);
      ApplyKeepsInv(Conf(), View(), SetVisibility(sub, gid, wanted), env);
      var d := Authorize(sub, gid, env);
      if d.None? {
        return Refused(NotAllowed);
      }
      if !d.value.role.AtLeast(Owner) {
        return Refused(RoleTooLow);
      }
      if wanted.None? {
        return Refused(VisibilityRequired);
      }
      var found := store.GetGenealogy(gid);
      if found.Err? {
        return Refused(RecordMissing);
      }
      var prev, vis := found.value.visibility, wanted.value;
      var g := found.value.(visibility := vis);
      if prev != Private && vis == Private {
        var exceeded := CheckPrivateQuota(g.createdBy);
        if exceeded {
          return Refused(QuotaExceeded);
        }
      }
      WriteVisibility(prev, g);
      return Done;
    }

    /** Collects the members of a genealogy, then deletes their rows one by one. */
    method DropAllMembers(gid: string)
      requires store.Valid() && SlashFree(gid)
      modifies store
      ensures store.Valid()
      ensures store.tables == old(store.tables).(members := MembersAfter(old(store.tables).members, Abolish(gid)))
    {
      hide Represents, Consistent, Enumerates;
      var mems := [];
      var rows, keys := store.IterateMembers(gid);
      for i := 0 to |rows|
        invariant |mems| == i && forall j :: 0 <= j < i ==> mems[j] == rows[j].subject
      {
        mems := mems + [rows[i].subject];
      }
      SubjectsCoverMembers(store.tables, gid, rows, mems);
      for i := 0 to |mems|
        invariant store.Valid()
        invariant store.tables == old(store.tables).(members := store.tables.members)
        invariant store.tables.members
                  == map k | k in old(store.tables).members && !(k.gid == gid && k.sub in mems[..i])
                       :: old(store.tables).members[k]
      {
        store.DeleteMembership(gid, mems[i]);
        assert mems[..i + 1] == mems[..i] + [mems[i]];
      }
      assert mems[..|mems|] == mems;
    }

    /** The open handle goes first, and is gone even if the directory then cannot be removed. */
    method DeleteGenealogy(sub: string, gid: string, env: Env) returns (r: Response)
      requires Ready(Delete(sub, gid), env) && tenants.Valid()
      modifies store, authz, tenants
      ensures Valid() && (View(), r) == Apply(Conf(), old(View()), Delete(sub, gid), env)
      ensures tenants.Valid()
      ensures var dropped := r == Done || r == Refused(DiskError);
              && (dropped ==> TenantCore.Dropped(old(tenants.State()), tenants.State(), gid))
              && (!dropped ==> tenants.State() == old(tenants.State()))
    {
      LiveIds(Conf(), View(), gid);
      hide Bump, Represents, Inv, Coherent, Consistent, ResolveFresh, ResolveCached;
      hide Perform, DropOf, ApplyDrop, Invalidated, SlashFree;
      NothingHappens(store.tables);
      ApplyKeepsInv(Conf(), View(), Delete(sub, gid), env);
      var d := Authorize(sub, gid, env);
      if d.None? {
        return Refused(NotAllowed);
      }
      if !d.value.role.AtLeast(Owner) {
        return Refused(RoleTooLow);
      }
      var found := store.GetGenealogy(gid);
      if found.Err? {
        return Refused(RecordMissing);
      }
      var g := found.value;
      tenants.DropId(gid);
      if !env.diskOk {
        return Refused(DiskError);
      }
      EraseGenealogy(g);
      return Done;
    }

    method UpsertMembership(sub: string, gid: string, rawTarget: string, role: Role, env: Env) returns (r: Response)
      requires Ready(Upsert(sub, gid, rawTarget, role), env)
      modifies store, authz
      ensures Valid() && (View(), r) == Apply(Conf(), old(View()), Upsert(sub, gid, rawTarget, role), env)
    {
      LiveIds(Conf(), View(), gid);
      hide TrimSpace, Represents, Inv, Coherent, Consistent, ResolveFresh, ResolveCached;
      hide Perform, DropOf, ApplyDrop, Invalidated, SlashFree;
      NothingHappens(store.tables);
      ApplyKeepsInv(Conf(), View(), Upsert(sub, gid, rawTarget, role), env);
      var d := Authorize(sub, gid, env);
      if d.None? {
        return Refused(NotAllowed);
      }
      if !d.value.role.AtLeast(Curator) {
        return Refused(RoleTooLow);
      }
      var target := TrimSpace(rawTarget);
      if role == NoRole {
        return Refused(InvalidRole);
      }
      if role == Owner && !d.value.role.AtLeast(Owner) {
        return Refused(OwnerOnly);
      }
      var m := Membership(target, gid, role, sub, env.now);
      var put := WriteMember(m, env.now);
      if !put {
        return Refused(InvalidRecord);
      }
      return Done;
    }

    method RemoveMember(sub: string, gid: string, rawTarget: string, env: Env) returns (r: Response)
      requires Ready(Remove(sub, gid, rawTarget), env)
      modifies store, authz
      ensures Valid() && (View(), r) == Apply(Conf(), old(View()), Remove(sub, gid, rawTarget), env)
    {
      LiveIds(Conf(), View(), gid);
      hide TrimSpace, Owners, Represents, Inv, Coherent, Consistent, ResolveFresh, ResolveCached;
      hide RemoveAs, Perform, DropOf, ApplyDrop, Invalidated, SlashFree;
      NothingHappens(store.tables);
      ApplyKeepsInv(Conf(), View(), Remove(sub, gid, rawTarget), env);
      var d := Authorize(sub, gid, env);
      if d.None? {
        return Refused(NotAllowed);
      }
      if !d.value.role.AtLeast(Curator) {
        return Refused(RoleTooLow);
      }
      r := RemoveTarget(gid, TrimSpace(rawTarget), d.value.role);
    }

    /** RemoveMember once the actor is known to be at least a Curator. */
    method RemoveTarget(gid: string, target: string, role: Role) returns (r: Response)
      requires store.Valid() && SlashFree(gid)
      modifies store, authz
      ensures store.Valid()
      ensures var (e, response) := RemoveAs(old(store.tables), gid, target, role);
              && r == response && store.tables == Perform(old(store.tables), e)
              && authz.cache == ApplyDrop(old(authz.cache), DropOf(e))
    {
      hide Owners, Represents, Consistent, OwnerStrings, MembershipAt, Flat;
      hide Perform, DropOf, ApplyDrop, SlashFree;
      NothingHappens(store.tables);
      var existing := store.GetMembership(gid, target);
      if existing.Err? {
        return Done;
      }
      if existing.value.role == Owner && !role.AtLeast(Owner) {
        return Refused(OwnerOnly);
      }
      var last := IsLastOwner(gid, existing.value);
      if last {
        return Refused(LastOwner);
      }
      EraseMember(gid, target);
      return Done;
    }

    /** The only handler that consults neither the genealogy nor the resolver: what it does for an id with a
        slash is stated on the strings. */
    method LeaveGenealogy(sub: string, gid: string, env: Env) returns (r: Response)
      requires Valid() && Room(Conf(), store.tables)
      modifies store, authz
      ensures (store.db, r) == LeaveOnStrings(old(store.db), sub, gid)
      ensures SlashFree(gid) ==> Valid() && (View(), r) == Apply(Conf(), old(View()), Leave(sub, gid), env)
    {
      hide Owners, OwnerStrings, Flat, Represents, Inv, Coherent, Consistent, ResolveFresh, ResolveCached, SlashFree;
      hide Perform, DropOf, ApplyDrop, Invalidated, SlashFree;
      NothingHappens(store.tables);
      if SlashFree(gid) {
        ApplyKeepsInv(Conf(), View(), Leave(sub, gid), env);
      }
      if sub == "" {
        return Refused(AuthenticationRequired);
      }
      var existing := store.GetMembership(gid, sub);
      if existing.Err? {
        return Done;
      }
      var last := IsLastOwner(gid, existing.value);
      if last {
        return Refused(LastOwner);
      }
      EraseMember(gid, sub);
      return Done;
    }

    method Ban(sub: string, gid: string, target: string, reason: string, env: Env) returns (r: Response)
      requires Ready(BanUser(sub, gid, target, reason), env)
      modifies store, authz
      ensures Valid() && (View(), r) == Apply(Conf(), old(View()), BanUser(sub, gid, target, reason), env)
    {
      LiveIds(Conf(), View(), gid);
      hide Represents, Inv, Coherent, Consistent, ResolveFresh, ResolveCached;
      hide Perform, DropOf, ApplyDrop, Invalidated, SlashFree;
      NothingHappens(store.tables);
      ApplyKeepsInv(Conf(), View(), BanUser(sub, gid, target, reason), env);
      var d := Authorize(sub, gid, env);
      if d.None? {
        return Refused(NotAllowed);
      }
      if !d.value.role.AtLeast(Curator) {
        return Refused(RoleTooLow);
      }
      var b := Records.Ban(target, gid, reason, sub, env.now);
      PerformOnRows(store.tables, Membership("", "", NoRole, "", 0), StampedBan(b, env.now));
      var put := store.PutBan(b, env.now);
      if put.Err? {
        return Refused(InvalidRecord);
      }
      return Done;
    }

    method Unban(sub: string, gid: string, target: string, env: Env) returns (r: Response)
      requires Ready(UnbanUser(sub, gid, target), env)
      modifies store, authz
      ensures Valid() && (View(), r) == Apply(Conf(), old(View()), UnbanUser(sub, gid, target), env)
    {
      LiveIds(Conf(), View(), gid);
      hide Represents, Inv, Coherent, Consistent, ResolveFresh, ResolveCached;
      hide Perform, DropOf, ApplyDrop, Invalidated, SlashFree;
      NothingHappens(store.tables);
      ApplyKeepsInv(Conf(), View(), UnbanUser(sub, gid, target), env);
      var d := Authorize(sub, gid, env);
      if d.None? {
        return Refused(NotAllowed);
      }
      if !d.value.role.AtLeast(Curator) {
        return Refused(RoleTooLow);
      }
      PerformOnRows(store.tables, Membership("", "", NoRole, "", 0), Records.Ban(target, gid, "", "", 0));
      store.DeleteBan(gid, target);
      return Done;
    }

    method GetGenealogy(sub: string, gid: string, env: Env) returns (r: Response)
      requires Ready(Read(sub, gid), env)
      modifies authz
      ensures Valid() && (View(), r) == Apply(Conf(), old(View()), Read(sub, gid), env)
    {
      LiveIds(Conf(), View(), gid);
      hide Represents, Inv, Coherent, Consistent, ResolveFresh, ResolveCached;
      hide Perform, DropOf, ApplyDrop, Invalidated, SlashFree;
      NothingHappens(store.tables);
      ApplyKeepsInv(Conf(), View(), Read(sub, gid), env);
      var d := Authorize(sub, gid, env);
      if d.None? {
        return Refused(NotAllowed);
      }
      var g := store.GetGenealogy(gid);
      if g.Err? {
        return Refused(RecordMissing);
      }
      return Shown(g.value, d.value.role);
    }

    /** Accept for one proposal with nothing running beside it.  `opens` says whether the tenant's store can
        be opened, `proposal` whether the proposal is found there and, if so, whether it creates a person, and
        `engineAccepts` is the governance engine's answer. */
    method Accept(sub: string, gid: string, env: Env, personLimit: uint64, opens: bool, proposal: Option<bool>,
                  engineAccepts: bool) returns (accepted: bool)
      requires Valid()
      modifies store, authz
      ensures Valid()
      ensures var t, row := old(store.tables), RowOf(old(store.tables), gid, sub);
              accepted <==>
                && row.Some? && row.value.role.AtLeast(Curator) && opens && proposal.Some? && engineAccepts
                && !(proposal.value && personLimit != 0 && PersonCount(t, gid) >= personLimit)
      ensures !(accepted && proposal.value) ==> store.tables == old(store.tables)
      ensures accepted && proposal.value ==>
                var counts, n := old(store.tables).personCounts, PersonCount(old(store.tables), gid);
                store.tables == old(store.tables).(personCounts := counts[gid := if n + 1 < TWO_64 then n + 1 else 0])
    {
      CuratorsHaveRows(store.tables, sub, gid);
      hide ResolveFresh, ResolveCached, Inv, Bump, Represents, Consistent;
      if gid == "" {
        return false;
      }
      var d := Authorize(sub, gid, env);
      if d.None? || !d.value.role.AtLeast(Curator) || !opens || proposal.None? {
        return false;
      }
      if proposal.value && personLimit != 0 {
        var cur := store.GetPersonCount(gid);
        if cur.value >= personLimit {
          return false;
        }
      }
      if !engineAccepts {
        return false;
      }
      if proposal.value {
        PersonCountIsApart(Conf(), View(), gid);
        BumpByOne(PersonCount(store.tables, gid));
        var n := store.IncPersonCount(gid, 1);
      }
      return true;
    }

    /** The genealogies met by the caller's membership scan; dangling rows are skipped. */
    method ListMemberships(sub: string) returns (out: seq<Listed>, seen: set<string>)
      requires store.Valid() && sub != ""
      ensures ListedSoFar(store.tables, sub, out, seen)
      ensures forall g, r :: g in store.tables.genealogies && NearMember(store.tables, sub, g, r) ==> g in seen
    {
      hide Represents, Enumerates, NearMember;
      var t := store.tables;
      out, seen := [], {};
      var near := store.IterateForUser(sub);
      for i := 0 to |near|
        invariant ListedSoFar(t, sub, out, seen)
        invariant forall k :: 0 <= k < i && near[k].genealogyId in t.genealogies ==> near[k].genealogyId in seen
      {
        var m := near[i];
        NearRow(t, sub, near, i);
        var g := store.GetGenealogy(m.genealogyId);
        if g.Ok? && g.value.id !in seen {
          seen := seen + {g.value.id};
          AddListed(t, sub, out, Listed(g.value, m.role));
          out := out + [Listed(g.value, m.role)];
        }
      }
      SeenNear(t, sub, near, seen);
    }

    /** Memberships first, then the Public ones not yet seen. */
    method ListGenealogies(sub: string) returns (out: seq<Listed>)
      requires store.Valid()
      ensures ListingOf(store.tables, sub, out)
    {
      var t := store.tables;
      assert sub == "" ==> forall g, r :: !NearMember(t, sub, g, r);
      hide Represents, NearMember;
      var seen: set<string> := {};
      out := [];
      if sub != "" {
        out, seen := ListMemberships(sub);
      }
      var all := store.IterateGenealogies();
      for i := 0 to |all|
        invariant ListedSoFar(t, sub, out, seen)
        invariant forall g, r :: g in t.genealogies && NearMember(t, sub, g, r) ==> g in seen
        invariant forall k :: 0 <= k < i && all[k].visibility == Public ==> all[k].id in seen
      {
        var g := all[i];
        assert g in all;
        if g.visibility == Public {
          if g.id !in seen {
            seen := seen + {g.id};
            AddListed(t, sub, out, Listed(g, PublicRole(sub)));
            out := out + [Listed(g, PublicRole(sub))];
          }
        }
      }
      SeenPublic(t, all, seen);
      ListingComplete(t, sub, out, seen);
    }
  }

  lemma CuratorsHaveRows(t: Tables, sub: string, gid: string)
    requires Grounded(t)
    ensures var d, row := ResolveFresh(t, sub, gid), RowOf(t, gid, sub);
            d.Some? && d.value.role.AtLeast(Curator) <==> gid != "" && row.Some? && row.value.role.AtLeast(Curator)
    ensures RowOf(t, gid, sub).Some? ==> gid != ""
  {
    AccessRules(t, sub, gid);
  }

  /** A person counter has no part in the invariant. */
  lemma PersonCountIsApart(c: Config, s: State, gid: string)
    requires Inv(c, s)
    ensures Inv(c, s.(tables := BumpPersonCount(s.tables, gid, 1)))
  {
    var t, t' := s.tables, BumpPersonCount(s.tables, gid, 1);
    assert forall k: CacheKey :: ResolveFresh(t', k.sub, k.gid) == ResolveFresh(t, k.sub, k.gid);
    assert forall u :: UserCount(t', u) == UserCount(t, u);
  }

  lemma SeenPublic(t: Tables, all: seq<Genealogy>, seen: set<string>)
    requires Consistent(t) && Enumerates(all, AllGenealogies(t))
    requires forall k :: 0 <= k < |all| && all[k].visibility == Public ==> all[k].id in seen
    ensures forall g :: g in t.genealogies && t.genealogies[g].visibility == Public ==> g in seen
  {
    forall g | g in t.genealogies && t.genealogies[g].visibility == Public ensures g in seen {
      assert t.genealogies[g] in AllGenealogies(t);
      var k :| 0 <= k < |all| && all[k] == t.genealogies[g];
    }
  }

  lemma ListingComplete(t: Tables, sub: string, out: seq<Listed>, seen: set<string>)
    requires ListedSoFar(t, sub, out, seen)
    requires forall g, r :: g in t.genealogies && NearMember(t, sub, g, r) ==> g in seen
    requires forall g :: g in t.genealogies && t.genealogies[g].visibility == Public ==> g in seen
    ensures ListingOf(t, sub, out)
  {
    hide NearMember;
    forall g | Lists(out, g)
      ensures g in t.genealogies && (t.genealogies[g].visibility == Public || exists r :: NearMember(t, sub, g, r))
    {
      var i :| 0 <= i < |out| && out[i].genealogy.id == g;
      assert Justified(t, sub, out[i]);
    }
  }

  lemma SubjectsCoverMembers(t: Tables, gid: string, rows: seq<Membership>, subs: seq<string>)
    requires Consistent(t) && Enumerates(rows, MembersOf(t, gid))
    requires |subs| == |rows| && forall i :: 0 <= i < |rows| ==> subs[i] == rows[i].subject
    ensures forall k :: k in t.members && k.gid == gid ==> k.sub in subs
  {
    forall k | k in t.members && k.gid == gid ensures k.sub in subs {
      var m := t.members[k];
      assert m in MembersOf(t, gid);
      var i :| 0 <= i < |rows| && rows[i] == m;
      assert subs[i] == k.sub;
    }
  }

  // ---------- Bookkeeping of the listing loops ----------

  ghost predicate ListedSoFar(t: Tables, sub: string, out: seq<Listed>, seen: set<string>) {
    && OncePerGenealogy(out)
    && (forall i :: 0 <= i < |out| ==> Justified(t, sub, out[i]))
    && (forall g :: g in seen <==> Lists(out, g))
  }

  lemma AddListed(t: Tables, sub: string, out: seq<Listed>, item: Listed)
    requires !Lists(out, item.genealogy.id)
    ensures forall g :: Lists(out + [item], g) <==> Lists(out, g) || g == item.genealogy.id
    ensures OncePerGenealogy(out) ==> OncePerGenealogy(out + [item])
  {
    var more := out + [item];
    assert more[|out|] == item;
    forall g | Lists(out, g) ensures Lists(more, g) {
      var i :| 0 <= i < |out| && out[i].genealogy.id == g;
      assert more[i] == out[i];
    }
    assert forall i :: 0 <= i < |out| ==> more[i] == out[i] && Lists(out, out[i].genealogy.id);
  }

  lemma NearRow(t: Tables, sub: string, near: seq<Membership>, i: nat)
    requires Consistent(t) && sub != "" && Enumerates(near, MembershipsNear(t, sub)) && i < |near|
    ensures NearMember(t, sub, near[i].genealogyId, near[i].role)
  {
    assert near[i] in near;
  }

  lemma SeenNear(t: Tables, sub: string, near: seq<Membership>, seen: set<string>)
    requires Consistent(t) && Enumerates(near, MembershipsNear(t, sub))
    requires forall k :: 0 <= k < |near| && near[k].genealogyId in t.genealogies ==> near[k].genealogyId in seen
    ensures forall g, r :: g in t.genealogies && NearMember(t, sub, g, r) ==> g in seen
  {
    forall g, r | g in t.genealogies && NearMember(t, sub, g, r) ensures g in seen {
      var k :| k in t.members && k.gid == g && SameOrBelow(sub, k.sub) && t.members[k].role == r;
      assert t.members[k] in MembershipsNear(t, sub);
      var i :| 0 <= i < |near| && near[i] == t.members[k];
    }
  }
}
