/** The platform data as independent typed tables, and what it means for one flat string-keyed
    database to hold them. */
module PlatformTables {
  import opened Wrappers
  import opened Records
  import opened Keys
  import opened Counters

  datatype Value =
    | UserV(user: User)
    | GenealogyV(genealogy: Genealogy)
    | MembershipV(membership: Membership)
    | BanV(ban: Ban)
    | CounterV(bytes: seq<byte>)

  datatype Tables = Tables(
    users: map<string, User>,
    genealogies: map<string, Genealogy>,
    members: map<Seat, Membership>,
    bans: map<Seat, Ban>,
    userCounts: map<string, uint64>,
    personCounts: map<string, uint64>)

  const EMPTY: Tables := Tables(map[], map[], map[], map[], map[], map[])

  function UserCount(t: Tables, sub: string): uint64 {
    if sub in t.userCounts then t.userCounts[sub] else 0
  }

  function PersonCount(t: Tables, gid: string): uint64 {
    if gid in t.personCounts then t.personCounts[gid] else 0
  }

  ghost predicate GenealogiesOk(rows: map<string, Genealogy>) {
    forall g :: g in rows ==> g != "" && rows[g].id == g
  }

  ghost predicate MembersOk(rows: map<Seat, Membership>) {
    forall k :: k in rows ==>
      && k.gid != "" && k.sub != "" && SlashFree(k.gid)
      && rows[k].genealogyId == k.gid && rows[k].subject == k.sub && rows[k].role != NoRole
  }

  ghost predicate BansOk(rows: map<Seat, Ban>) {
    forall k :: k in rows ==> SlashFree(k.gid)
  }

  /** Each row names its own key, and ids that stand next to a subject have no slash. */
  ghost predicate Consistent(t: Tables) {
    GenealogiesOk(t.genealogies) && MembersOk(t.members) && BansOk(t.bans)
  }

  // ---------- Row changes ----------

  function PutGenealogyRow(t: Tables, g: Genealogy): Tables {
    t.(genealogies := t.genealogies[g.id := g])
  }

  function DropGenealogyRow(t: Tables, gid: string): Tables {
    t.(genealogies := t.genealogies - {gid})
  }

  function PutMember(t: Tables, m: Membership): Tables {
    t.(members := t.members[Seat(m.genealogyId, m.subject) := m])
  }

  function DropMember(t: Tables, gid: string, sub: string): Tables {
    t.(members := t.members - {Seat(gid, sub)})
  }

  function PutBanRow(t: Tables, b: Ban): Tables {
    t.(bans := t.bans[Seat(b.genealogyId, b.subject) := b])
  }

  function DropBanRow(t: Tables, gid: string, sub: string): Tables {
    t.(bans := t.bans - {Seat(gid, sub)})
  }

  function BumpUserCount(t: Tables, sub: string, delta: int64): Tables {
    t.(userCounts := t.userCounts[sub := Bump(UserCount(t, sub), delta)])
  }

  function BumpPersonCount(t: Tables, gid: string, delta: int64): Tables {
    t.(personCounts := t.personCounts[gid := Bump(PersonCount(t, gid), delta)])
  }

  // ---------- The flat form ----------

  predicate Holds(t: Tables, k: Key) {
    match k
    case UserK(sub) => sub in t.users
    case GenealogyK(gid) => gid in t.genealogies
    case MembershipK(gid, sub) => Seat(gid, sub) in t.members
    case ReverseK(sub, gid) => Seat(gid, sub) in t.members
    case BanK(gid, sub) => Seat(gid, sub) in t.bans
    case UserCountK(sub) => sub in t.userCounts
    case PersonCountK(gid) => gid in t.personCounts
  }

  function ValueOf(t: Tables, k: Key): Value
    requires Holds(t, k)
  {
    match k
    case UserK(sub) => UserV(t.users[sub])
    case GenealogyK(gid) => GenealogyV(t.genealogies[gid])
    case MembershipK(gid, sub) => MembershipV(t.members[Seat(gid, sub)])
    case ReverseK(sub, gid) => MembershipV(t.members[Seat(gid, sub)])
    case BanK(gid, sub) => BanV(t.bans[Seat(gid, sub)])
    case UserCountK(sub) => CounterV(BigEndian(8, t.userCounts[sub]))
    case PersonCountK(gid) => CounterV(BigEndian(8, t.personCounts[gid]))
  }

  /** The flat database holds exactly the rows of the tables. */
  ghost predicate Represents(db: map<string, Value>, t: Tables) {
    && (forall k :: Holds(t, k) ==> Flat(k) in db && db[Flat(k)] == ValueOf(t, k))
    && (forall s :: s in db ==> exists k :: Holds(t, k) && Flat(k) == s)
  }

  lemma HeldKeysAreWellFormed(t: Tables, k: Key)
    requires Consistent(t) && Holds(t, k)
    ensures WellFormed(k)
  {
  }

  /** A well-formed key is found in the flat database exactly when its row is in its table. */
  lemma LookupIsExact(db: map<string, Value>, t: Tables, k: Key)
    requires Consistent(t) && Represents(db, t) && WellFormed(k)
    ensures Flat(k) in db <==> Holds(t, k)
    ensures Holds(t, k) ==> db[Flat(k)] == ValueOf(t, k)
  {
    if Flat(k) in db {
      var k' :| Holds(t, k') && Flat(k') == Flat(k);
      HeldKeysAreWellFormed(t, k');
      FlatIsInjective(k, k');
    }
  }

  /** The membership stored under a string, if there is one. */
  function MembershipAt(db: map<string, Value>, key: string): Option<Membership> {
    if key in db && db[key].MembershipV? then Some(db[key].membership) else None
  }

  /** Whatever the ids contain, a string of the forward index holds a membership. */
  lemma ForwardHoldsMemberships(db: map<string, Value>, t: Tables, s: string)
    requires Consistent(t) && Represents(db, t) && s in db && "m/" <= s
    ensures db[s].MembershipV?
    ensures exists k :: k in t.members && Flat(MembershipK(k.gid, k.sub)) == s && db[s].membership == t.members[k]
  {
    var k :| Holds(t, k) && Flat(k) == s;
    Tagged(k);
    assert s[1] == '/';
    assert k.MembershipK? && Seat(k.gid, k.sub) in t.members;
  }

  ghost predicate SameOutside(t: Tables, t': Tables, touched: set<Key>) {
    forall k :: k !in touched ==> (Holds(t', k) <==> Holds(t, k)) && (Holds(t, k) ==> ValueOf(t', k) == ValueOf(t, k))
  }

  ghost function SeatKeys(gid: string, sub: string): set<Key> {
    {MembershipK(gid, sub), ReverseK(sub, gid)}
  }

  lemma MemberRowPut(t: Tables, m: Membership)
    requires Consistent(t)
    ensures SameOutside(t, PutMember(t, m), SeatKeys(m.genealogyId, m.subject))
    ensures m.genealogyId != "" && m.subject != "" && SlashFree(m.genealogyId) && m.role != NoRole ==>
              Consistent(PutMember(t, m))
  {
    hide SlashFree, BigEndian;
  }

  lemma MemberRowDrop(t: Tables, gid: string, sub: string)
    requires Consistent(t)
    ensures SameOutside(t, DropMember(t, gid, sub), SeatKeys(gid, sub)) && Consistent(DropMember(t, gid, sub))
  {
    hide SlashFree, BigEndian;
  }

  lemma BanRowChanges(t: Tables, b: Ban)
    requires Consistent(t)
    ensures var touched := {BanK(b.genealogyId, b.subject)};
            && SameOutside(t, PutBanRow(t, b), touched)
            && SameOutside(t, DropBanRow(t, b.genealogyId, b.subject), touched)
    ensures Consistent(DropBanRow(t, b.genealogyId, b.subject))
    ensures SlashFree(b.genealogyId) ==> Consistent(PutBanRow(t, b))
  {
  }

  lemma GenealogyRowChanges(t: Tables, g: Genealogy)
    requires Consistent(t)
    ensures var touched := {GenealogyK(g.id)};
            && SameOutside(t, PutGenealogyRow(t, g), touched) && SameOutside(t, DropGenealogyRow(t, g.id), touched)
    ensures Consistent(DropGenealogyRow(t, g.id))
    ensures g.id != "" ==> Consistent(PutGenealogyRow(t, g))
  {
  }

  lemma CounterRowsChange(t: Tables, name: string, delta: int64)
    requires Consistent(t)
    ensures SameOutside(t, BumpUserCount(t, name, delta), {UserCountK(name)})
    ensures SameOutside(t, BumpPersonCount(t, name, delta), {PersonCountK(name)})
    ensures Consistent(BumpUserCount(t, name, delta)) && Consistent(BumpPersonCount(t, name, delta))
  {
    hide Bump, BigEndian;
  }

  /** Writing or deleting the strings of some rows is writing or deleting those rows and no others. */
  lemma UpdateRows(db: map<string, Value>, db': map<string, Value>, t: Tables, t': Tables, touched: set<Key>)
    requires Consistent(t) && Consistent(t') && Represents(db, t)
    requires SameOutside(t, t', touched)
    requires forall k :: k in touched ==> WellFormed(k) && (Flat(k) in db' <==> Holds(t', k))
                                          && (Holds(t', k) ==> db'[Flat(k)] == ValueOf(t', k))
    requires forall s :: (forall k :: k in touched ==> Flat(k) != s) ==>
                           (s in db' <==> s in db) && (s in db ==> db'[s] == db[s])
    ensures Represents(db', t')
  {
    forall k | Holds(t', k)
      ensures Flat(k) in db' && db'[Flat(k)] == ValueOf(t', k)
    {
      if k !in touched {
        HeldKeysAreWellFormed(t, k);
        forall k' | k' in touched ensures Flat(k') != Flat(k) {
          if Flat(k') == Flat(k) {
            FlatIsInjective(k', k);
          }
        }
      }
    }
    forall s | s in db'
      ensures exists k :: Holds(t', k) && Flat(k) == s
    {
      if k :| k in touched && Flat(k) == s {
        assert Holds(t', k);
      } else {
        assert s in db;
        var k :| Holds(t, k) && Flat(k) == s;
        assert Holds(t', k);
      }
    }
  }

  lemma WriteRow(db: map<string, Value>, t: Tables, t': Tables, k: Key)
    requires Consistent(t) && Consistent(t') && Represents(db, t)
    requires SameOutside(t, t', {k}) && WellFormed(k) && Holds(t', k)
    ensures Represents(db[Flat(k) := ValueOf(t', k)], t')
  {
    hide Flat;
    UpdateRows(db, db[Flat(k) := ValueOf(t', k)], t, t', {k});
  }

  lemma WriteTwoRows(db: map<string, Value>, t: Tables, t': Tables, k: Key, k': Key)
    requires Consistent(t) && Consistent(t') && Represents(db, t)
    requires SameOutside(t, t', {k, k'}) && WellFormed(k) && WellFormed(k') && Holds(t', k) && Holds(t', k')
    requires ValueOf(t', k) == ValueOf(t', k')
    ensures Represents(db[Flat(k) := ValueOf(t', k)][Flat(k') := ValueOf(t', k)], t')
  {
    hide Flat;
    UpdateRows(db, db[Flat(k) := ValueOf(t', k)][Flat(k') := ValueOf(t', k)], t, t', {k, k'});
  }

  lemma EraseRow(db: map<string, Value>, t: Tables, t': Tables, k: Key)
    requires Consistent(t) && Consistent(t') && Represents(db, t)
    requires SameOutside(t, t', {k}) && WellFormed(k) && !Holds(t', k)
    ensures Represents(db - {Flat(k)}, t')
  {
    hide Flat;
    UpdateRows(db, db - {Flat(k)}, t, t', {k});
  }

  lemma EraseTwoRows(db: map<string, Value>, t: Tables, t': Tables, k: Key, k': Key)
    requires Consistent(t) && Consistent(t') && Represents(db, t)
    requires SameOutside(t, t', {k, k'}) && WellFormed(k) && WellFormed(k') && !Holds(t', k) && !Holds(t', k')
    ensures Represents(db - {Flat(k)} - {Flat(k')}, t')
  {
    hide Flat;
    UpdateRows(db, db - {Flat(k)} - {Flat(k')}, t, t', {k, k'});
  }

  /** The two membership indexes hold the same rows. */
  lemma IndexesAgree(db: map<string, Value>, t: Tables, gid: string, sub: string)
    requires Consistent(t) && Represents(db, t) && SlashFree(gid)
    ensures Flat(MembershipK(gid, sub)) in db <==> Flat(ReverseK(sub, gid)) in db
    ensures Flat(MembershipK(gid, sub)) in db ==> db[Flat(MembershipK(gid, sub))] == db[Flat(ReverseK(sub, gid))]
  {
    LookupIsExact(db, t, MembershipK(gid, sub));
    LookupIsExact(db, t, ReverseK(sub, gid));
  }

  // ---------- What scans yield ----------

  ghost function MembersOf(t: Tables, gid: string): set<Membership> {
    set k | k in t.members && k.gid == gid :: t.members[k]
  }

  ghost function MembershipsNear(t: Tables, sub: string): set<Membership> {
    set k | k in t.members && SameOrBelow(sub, k.sub) :: t.members[k]
  }

  ghost function AllGenealogies(t: Tables): set<Genealogy> {
    set g | g in t.genealogies :: t.genealogies[g]
  }

  /** What a complete scan of a prefix delivers: the matching strings, each once, with their values. */
  ghost predicate ScanOf(db: map<string, Value>, prefix: string, keys: seq<string>, values: seq<Value>) {
    && |keys| == |values|
    && (forall i, j :: 0 <= i < j < |keys| ==> keys[i] != keys[j])
    && (forall s :: s in keys <==> s in db && prefix <= s)
    && (forall i :: 0 <= i < |keys| ==> keys[i] in db && values[i] == db[keys[i]])
  }

  lemma ScannedRow(db: map<string, Value>, t: Tables, s: string) returns (k: Key)
    requires Consistent(t) && Represents(db, t) && s in db
    ensures Holds(t, k) && WellFormed(k) && Flat(k) == s && db[s] == ValueOf(t, k)
  {
    k :| Holds(t, k) && Flat(k) == s;
    HeldKeysAreWellFormed(t, k);
  }

  /** If the scanned strings are those of the rows of `members`, one string per row, then the scan
      lists those rows once each. */
  lemma ScanLists<T(!new)>(db: map<string, Value>, prefix: string, keys: seq<string>, values: seq<Value>,
                           rows: seq<T>, members: set<T>, keyOf: T -> Key, wrap: T -> Value)
    requires ScanOf(db, prefix, keys, values) && |rows| == |values|
    requires forall i :: 0 <= i < |rows| ==>
               values[i] == wrap(rows[i]) && rows[i] in members && keys[i] == Flat(keyOf(rows[i]))
    requires forall x :: x in members ==> Flat(keyOf(x)) in keys && db[Flat(keyOf(x))] == wrap(x)
    requires forall x, y :: wrap(x) == wrap(y) ==> x == y
    ensures Enumerates(rows, members)
  {
    forall x | x in members ensures x in rows {
      var i :| 0 <= i < |keys| && keys[i] == Flat(keyOf(x));
      assert wrap(rows[i]) == wrap(x);
    }
    forall i, j | 0 <= i < j < |rows| ensures rows[i] != rows[j] {
      assert keys[i] != keys[j];
    }
  }

  ghost function MembershipRows(values: seq<Value>): seq<Membership>
    requires forall v :: v in values ==> v.MembershipV?
  {
    seq(|values|, i requires 0 <= i < |values| => values[i].membership)
  }

  ghost function GenealogyRows(values: seq<Value>): seq<Genealogy>
    requires forall v :: v in values ==> v.GenealogyV?
  {
    seq(|values|, i requires 0 <= i < |values| => values[i].genealogy)
  }

  function MembershipKeyOf(m: Membership): Key {
    MembershipK(m.genealogyId, m.subject)
  }

  function ReverseKeyOf(m: Membership): Key {
    ReverseK(m.subject, m.genealogyId)
  }

  /** A genealogy scan yields exactly its rows, once each. */
  lemma ScanMembers(db: map<string, Value>, t: Tables, gid: string, keys: seq<string>, values: seq<Value>)
    requires Consistent(t) && Represents(db, t) && SlashFree(gid)
    requires ScanOf(db, MembersPrefix(gid), keys, values)
    ensures forall v :: v in values ==> v.MembershipV?
    ensures Enumerates(MembershipRows(values), MembersOf(t, gid))
  {
    forall i | 0 <= i < |keys|
      ensures values[i].MembershipV? && values[i].membership in MembersOf(t, gid)
      ensures keys[i] == Flat(MembershipKeyOf(values[i].membership))
    {
      assert keys[i] in keys;
      var k := ScannedRow(db, t, keys[i]);
      MembersScan(gid, k);
    }
    forall m | m in MembersOf(t, gid)
      ensures Flat(MembershipKeyOf(m)) in keys && db[Flat(MembershipKeyOf(m))] == MembershipV(m)
    {
      var k := MembershipKeyOf(m);
      assert Holds(t, k);
      MembersScan(gid, k);
    }
    ScanLists(db, MembersPrefix(gid), keys, values, MembershipRows(values), MembersOf(t, gid),
              MembershipKeyOf, m => MembershipV(m));
  }

  /** A user scan yields exactly the rows of subjects equal to the user or extending it by a slash. */
  lemma ScanUser(db: map<string, Value>, t: Tables, sub: string, keys: seq<string>, values: seq<Value>)
    requires Consistent(t) && Represents(db, t)
    requires ScanOf(db, UserPrefix(sub), keys, values)
    ensures forall v :: v in values ==> v.MembershipV?
    ensures Enumerates(MembershipRows(values), MembershipsNear(t, sub))
  {
    forall i | 0 <= i < |keys|
      ensures values[i].MembershipV? && values[i].membership in MembershipsNear(t, sub)
      ensures keys[i] == Flat(ReverseKeyOf(values[i].membership))
    {
      assert keys[i] in keys;
      var k := ScannedRow(db, t, keys[i]);
      UserScan(sub, k);
      assert Seat(k.gid, k.sub) in t.members;
    }
    forall m | m in MembershipsNear(t, sub)
      ensures Flat(ReverseKeyOf(m)) in keys && db[Flat(ReverseKeyOf(m))] == MembershipV(m)
    {
      var k := ReverseKeyOf(m);
      assert Holds(t, k);
      UserScan(sub, k);
    }
    ScanLists(db, UserPrefix(sub), keys, values, MembershipRows(values), MembershipsNear(t, sub),
              ReverseKeyOf, m => MembershipV(m));
  }

  lemma ScanGenealogies(db: map<string, Value>, t: Tables, keys: seq<string>, values: seq<Value>)
    requires Consistent(t) && Represents(db, t)
    requires ScanOf(db, GenealogiesPrefix(), keys, values)
    ensures forall v :: v in values ==> v.GenealogyV?
    ensures Enumerates(GenealogyRows(values), AllGenealogies(t))
  {
    forall i | 0 <= i < |keys|
      ensures values[i].GenealogyV? && values[i].genealogy in AllGenealogies(t)
      ensures keys[i] == Flat(GenealogyK(values[i].genealogy.id))
    {
      assert keys[i] in keys;
      var k := ScannedRow(db, t, keys[i]);
      GenealogiesScan(k);
    }
    forall g | g in AllGenealogies(t)
      ensures Flat(GenealogyK(g.id)) in keys && db[Flat(GenealogyK(g.id))] == GenealogyV(g)
    {
      var k := GenealogyK(g.id);
      assert Holds(t, k);
      GenealogiesScan(k);
    }
    ScanLists(db, GenealogiesPrefix(), keys, values, GenealogyRows(values), AllGenealogies(t),
              (g: Genealogy) => GenealogyK(g.id), g => GenealogyV(g));
  }
}
