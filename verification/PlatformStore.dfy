/** The platform database: one flat string-keyed map, changed by small transactions.

    `tables` is what the map means; every method says how it changes the tables and keeps the map
    representing them. */
module PlatformStore {
  import opened Wrappers
  import opened Records
  import opened Keys
  import opened Counters
  import opened PlatformTables

  datatype StoreError = NotFound | Invalid(message: string) | Corrupt

  /** Fills in the grant time when the caller left it out. */
  function Stamped(m: Membership, now: int): Membership {
    if m.grantedAt == 0 then m.(grantedAt := now) else m
  }

  function StampedBan(b: Ban, now: int): Ban {
    if b.bannedAt == 0 then b.(bannedAt := now) else b
  }

  class Store {
    var db: map<string, Value>
    ghost var tables: Tables

    ghost predicate Valid()
      reads this
    {
      Consistent(tables) && Represents(db, tables)
    }

    constructor ()
      ensures Valid() && tables == EMPTY && db == map[]
    {
      db := map[];
      tables := EMPTY;
    }

    /** Opens a database that holds the rows written before. */
    constructor Reopen(db: map<string, Value>, ghost tables: Tables)
      requires Consistent(tables) && Represents(db, tables)
      ensures Valid() && this.db == db && this.tables == tables
    {
      this.db := db;
      this.tables := tables;
    }

    // ---------- Genealogies ----------

    method PutGenealogy(g: Genealogy) returns (r: Result<(), StoreError>)
      requires Valid()
      modifies this
      ensures Valid()
      ensures r.Ok? <==> g.id != ""
      ensures tables == if r.Ok? then PutGenealogyRow(old(tables), g) else old(tables)
    {
      hide Flat, Represents, Consistent, SameOutside;
      if g.id == "" {
        return Err(Invalid("genealogy.ID required"));
      }
      var k := GenealogyK(g.id);
      db := db[Flat(k) := GenealogyV(g)];
      GenealogyRowChanges(tables, g);
      tables := PutGenealogyRow(tables, g);
      WriteRow(old(db), old(tables), tables, k);
      return Ok(());
    }

    method GetGenealogy(id: string) returns (r: Result<Genealogy, StoreError>)
      requires Valid()
      ensures r == if id in tables.genealogies then Ok(tables.genealogies[id]) else Err(NotFound)
    {
      LookupIsExact(db, tables, GenealogyK(id));
      var k := Flat(GenealogyK(id));
      if k !in db {
        return Err(NotFound);
      }
      return Ok(db[k].genealogy);
    }

    method DeleteGenealogy(id: string)
      requires Valid()
      modifies this
      ensures Valid()
      ensures tables == DropGenealogyRow(old(tables), id)
    {
      hide Flat, Represents, Consistent, SameOutside;
      var k := GenealogyK(id);
      db := db - {Flat(k)};
      GenealogyRowChanges(tables, Genealogy(id, "", Private, "", 0));
      tables := DropGenealogyRow(tables, id);
      EraseRow(old(db), old(tables), tables, k);
    }

    // ---------- Memberships ----------

    /** Writes the forward and the reverse row in one transaction.  With a slash in the genealogy id the
        strings may be those of other rows, and the tables are no longer independent. */
    method PutMembership(m: Membership, now: int) returns (r: Result<(), StoreError>)
      requires Valid()
      modifies this
      ensures r.Ok? <==> m.subject != "" && m.genealogyId != "" && m.role != NoRole
      ensures r.Err? ==> db == old(db) && tables == old(tables)
      ensures r.Ok? ==>
                var row := MembershipV(if m.grantedAt == 0 then m.(grantedAt := now) else m);
                db == old(db)[Flat(MembershipK(m.genealogyId, m.subject)) := row]
                             [Flat(ReverseK(m.subject, m.genealogyId)) := row]
      ensures r.Ok? && SlashFree(m.genealogyId) ==> tables == PutMember(old(tables), Stamped(m, now))
      ensures r.Err? || SlashFree(m.genealogyId) ==> Valid()
    {
      hide Flat, Represents, Consistent, SameOutside;
      if m.subject == "" || m.genealogyId == "" {
        return Err(Invalid("membership requires Subject and GenealogyID"));
      }
      if m.role == NoRole {
        return Err(Invalid("membership.Role invalid"));
      }
      var row := Stamped(m, now);
      var k, reverse := MembershipK(m.genealogyId, m.subject), ReverseK(m.subject, m.genealogyId);
      db := db[Flat(k) := MembershipV(row)];
      db := db[Flat(reverse) := MembershipV(row)];
      if SlashFree(m.genealogyId) {
        MemberRowPut(tables, row);
        WriteTwoRows(old(db), old(tables), PutMember(tables, row), k, reverse);
      }
      tables := PutMember(tables, row);
      return Ok(());
    }

    method GetMembership(gid: string, sub: string) returns (r: Result<Membership, StoreError>)
      requires Valid()
      ensures var found := MembershipAt(db, Flat(MembershipK(gid, sub)));
              r == if found.Some? then Ok(found.value) else Err(NotFound)
      ensures SlashFree(gid) ==>
                r == if Seat(gid, sub) in tables.members then Ok(tables.members[Seat(gid, sub)]) else Err(NotFound)
    {
      var k := Flat(MembershipK(gid, sub));
      if SlashFree(gid) {
        LookupIsExact(db, tables, MembershipK(gid, sub));
      }
      if k !in db {
        return Err(NotFound);
      }
      ForwardHoldsMemberships(db, tables, k);
      return Ok(db[k].membership);
    }

    /** Removes both rows in one transaction. */
    method DeleteMembership(gid: string, sub: string)
      requires Valid()
      modifies this
      ensures db == old(db) - {Flat(MembershipK(gid, sub))} - {Flat(ReverseK(sub, gid))}
      ensures SlashFree(gid) ==> Valid() && tables == DropMember(old(tables), gid, sub)
    {
      hide Flat, Represents, Consistent, SameOutside;
      var k, reverse := MembershipK(gid, sub), ReverseK(sub, gid);
      db := db - {Flat(k)};
      db := db - {Flat(reverse)};
      if SlashFree(gid) {
        MemberRowDrop(tables, gid, sub);
        EraseTwoRows(old(db), old(tables), DropMember(tables, gid, sub), k, reverse);
      }
      tables := DropMember(tables, gid, sub);
    }

    // ---------- Bans ----------

    method PutBan(b: Ban, now: int) returns (r: Result<(), StoreError>)
      requires Valid()
      modifies this
      ensures r.Ok? <==> b.subject != "" && b.genealogyId != ""
      ensures r.Err? ==> db == old(db) && tables == old(tables)
      ensures r.Ok? ==>
                var row := BanV(if b.bannedAt == 0 then b.(bannedAt := now) else b);
                db == old(db)[Flat(BanK(b.genealogyId, b.subject)) := row]
      ensures r.Ok? && SlashFree(b.genealogyId) ==> tables == PutBanRow(old(tables), StampedBan(b, now))
      ensures r.Err? || SlashFree(b.genealogyId) ==> Valid()
    {
      hide Flat, Represents, Consistent, SameOutside;
      if b.subject == "" || b.genealogyId == "" {
        return Err(Invalid("ban requires Subject and GenealogyID"));
      }
      var row := StampedBan(b, now);
      var k := BanK(b.genealogyId, b.subject);
      db := db[Flat(k) := BanV(row)];
      if SlashFree(b.genealogyId) {
        BanRowChanges(tables, row);
        WriteRow(old(db), old(tables), PutBanRow(tables, row), k);
      }
      tables := PutBanRow(tables, row);
      return Ok(());
    }

    method IsBanned(gid: string, sub: string) returns (banned: bool)
      requires Valid()
      ensures banned <==> Flat(BanK(gid, sub)) in db
      ensures SlashFree(gid) ==> (banned <==> Seat(gid, sub) in tables.bans)
    {
      if SlashFree(gid) {
        LookupIsExact(db, tables, BanK(gid, sub));
      }
      return Flat(BanK(gid, sub)) in db;
    }

    method DeleteBan(gid: string, sub: string)
      requires Valid()
      modifies this
      ensures db == old(db) - {Flat(BanK(gid, sub))}
      ensures SlashFree(gid) ==> Valid() && tables == DropBanRow(old(tables), gid, sub)
    {
      hide Flat, Represents, Consistent, SameOutside;
      var k := BanK(gid, sub);
      db := db - {Flat(k)};
      if SlashFree(gid) {
        BanRowChanges(tables, Ban(sub, gid, "", "", 0));
        EraseRow(old(db), old(tables), DropBanRow(tables, gid, sub), k);
      }
      tables := DropBanRow(tables, gid, sub);
    }

    // ---------- Counters ----------

    method ReadCounterAt(key: string) returns (r: Result<uint64, StoreError>)
      ensures key !in db ==> r == Ok(0)
      ensures key in db && db[key].CounterV? && |db[key].bytes| == 8 ==> r == Ok(FromBigEndian(db[key].bytes))
      ensures key in db && !(db[key].CounterV? && |db[key].bytes| == 8) ==> r == Err(Corrupt)
    {
      if key !in db {
        return Ok(0);
      }
      if !db[key].CounterV? || |db[key].bytes| != 8 {
        return Err(Corrupt);
      }
      CounterBytesRoundTrip(0, db[key].bytes);
      return Ok(FromBigEndian(db[key].bytes));
    }

    method GetUserCount(sub: string) returns (r: Result<uint64, StoreError>)
      requires Valid()
      ensures r == Ok(UserCount(tables, sub))
    {
      LookupIsExact(db, tables, UserCountK(sub));
      CounterBytesRoundTrip(UserCount(tables, sub), []);
      r := ReadCounterAt(Flat(UserCountK(sub)));
    }

    method GetPersonCount(gid: string) returns (r: Result<uint64, StoreError>)
      requires Valid()
      ensures r == Ok(PersonCount(tables, gid))
    {
      LookupIsExact(db, tables, PersonCountK(gid));
      CounterBytesRoundTrip(PersonCount(tables, gid), []);
      r := ReadCounterAt(Flat(PersonCountK(gid)));
    }

    /** The read-modify-write shared by all counters, in wrapping 64-bit arithmetic; a value that is not
        a counter is reported and left alone. */
    method IncCounterAt(key: string, delta: int64) returns (r: Result<uint64, StoreError>)
      modifies this`db
      ensures r.Err? <==> key in old(db) && !(old(db)[key].CounterV? && |old(db)[key].bytes| == 8)
      ensures r.Err? ==> r.error == Corrupt && db == old(db)
      ensures r.Ok? ==>
                var cur := if key in old(db) then FromBigEndian(old(db)[key].bytes) else 0;
                && cur < TWO_64
                && r == Ok(Bump(cur, delta))
                && db == old(db)[key := CounterV(BigEndian(8, Bump(cur, delta)))]
    {
      if key in db && db[key].CounterV? {
        CounterBytesRoundTrip(0, db[key].bytes);
      }
      r := ReadCounterAt(key);
      if r.Err? {
        return;
      }
      var cur := r.value;
      if delta < 0 && ToUint64(ToInt64(-(delta as int))) > cur {
        cur := 0;
      } else {
        cur := ToUint64(ToInt64(ToInt64(cur) + delta));
      }
      var buf := new byte[8];
      PutUint64(buf, cur);
      db := db[key := CounterV(buf[..])];
      return Ok(cur);
    }

    method IncUserCount(sub: string, delta: int64) returns (r: Result<uint64, StoreError>)
      requires Valid()
      modifies this
      ensures Valid()
      ensures tables == BumpUserCount(old(tables), sub, delta)
      ensures var n := Bump(UserCount(old(tables), sub), delta);
              tables == old(tables).(userCounts := old(tables).userCounts[sub := n])
      ensures r == Ok(Bump(UserCount(old(tables), sub), delta))
    {
      hide Flat, Represents, Consistent, SameOutside, BigEndian, FromBigEndian, Bump;
      var k := UserCountK(sub);
      LookupIsExact(db, tables, k);
      CounterBytesRoundTrip(UserCount(tables, sub), []);
      r := IncCounterAt(Flat(k), delta);
      CounterRowsChange(tables, sub, delta);
      tables := BumpUserCount(tables, sub, delta);
      WriteRow(old(db), old(tables), tables, k);
    }

    method IncPersonCount(gid: string, delta: int64) returns (r: Result<uint64, StoreError>)
      requires Valid()
      modifies this
      ensures Valid()
      ensures tables == BumpPersonCount(old(tables), gid, delta)
      ensures var n := Bump(PersonCount(old(tables), gid), delta);
              tables == old(tables).(personCounts := old(tables).personCounts[gid := n])
      ensures r == Ok(Bump(PersonCount(old(tables), gid), delta))
    {
      hide Flat, Represents, Consistent, SameOutside, BigEndian, FromBigEndian, Bump;
      var k := PersonCountK(gid);
      LookupIsExact(db, tables, k);
      CounterBytesRoundTrip(PersonCount(tables, gid), []);
      r := IncCounterAt(Flat(k), delta);
      CounterRowsChange(tables, gid, delta);
      tables := BumpPersonCount(tables, gid, delta);
      WriteRow(old(db), old(tables), tables, k);
    }

    // ---------- Scans ----------

    /** Visits the strings under a prefix, in any order, until the callback says stop. */
    method ScanPrefix(prefix: string, more: Value -> bool) returns (keys: seq<string>, values: seq<Value>)
      ensures |keys| == |values|
      ensures forall i, j :: 0 <= i < j < |keys| ==> keys[i] != keys[j]
      ensures forall i :: 0 <= i < |keys| ==> keys[i] in db && prefix <= keys[i] && values[i] == db[keys[i]]
      ensures forall i :: 0 <= i < |keys| - 1 ==> more(values[i])
      ensures || (forall s :: s in db && prefix <= s ==> s in keys)
              || (|keys| > 0 && !more(values[|keys| - 1]))
    {
      keys, values := [], [];
      var pending := set s | s in db && prefix <= s;
      while pending != {}
        invariant |keys| == |values|
        invariant forall i, j :: 0 <= i < j < |keys| ==> keys[i] != keys[j]
        invariant forall i :: 0 <= i < |keys| ==>
                    && keys[i] in db && prefix <= keys[i] && keys[i] !in pending
                    && values[i] == db[keys[i]] && more(values[i])
        invariant forall s :: s in pending ==> s in db && prefix <= s
        invariant forall s :: s in db && prefix <= s ==> s in keys || s in pending
        decreases |pending|
      {
        var s :| s in pending;
        pending := pending - {s};
        keys, values := keys + [s], values + [db[s]];
        if !more(db[s]) {
          return;
        }
      }
    }

    /** Every row under the genealogy's prefix, with the string it is stored under. */
    method IterateMembers(gid: string) returns (rows: seq<Membership>, ghost keys: seq<string>)
      requires Valid()
      ensures |keys| == |rows| && Enumerates(keys, set s | s in db && MembersPrefix(gid) <= s)
      ensures forall i :: 0 <= i < |rows| ==> MembershipAt(db, keys[i]) == Some(rows[i])
      ensures SlashFree(gid) ==> Enumerates(rows, MembersOf(tables, gid))
    {
      hide Represents, Consistent, Flat;
      var found, values := ScanPrefix(MembersPrefix(gid), _ => true);
      keys := found;
      forall i | 0 <= i < |values| ensures values[i].MembershipV? {
        ForwardHoldsMemberships(db, tables, keys[i]);
      }
      rows := [];
      for i := 0 to |values|
        invariant rows == MembershipRows(values)[..i]
      {
        assert values[i] in values;
        rows := rows + [values[i].membership];
      }
      assert rows == MembershipRows(values);
      if SlashFree(gid) {
        ScanMembers(db, tables, gid, keys, values);
      }
    }

    method IterateForUser(sub: string) returns (rows: seq<Membership>)
      requires Valid()
      ensures Enumerates(rows, MembershipsNear(tables, sub))
    {
      hide Represents, Consistent, Enumerates, Flat;
      var keys, values := ScanPrefix(UserPrefix(sub), _ => true);
      ScanUser(db, tables, sub, keys, values);
      rows := [];
      for i := 0 to |values|
        invariant rows == MembershipRows(values)[..i]
      {
        assert values[i] in values;
        rows := rows + [values[i].membership];
      }
      assert rows == MembershipRows(values);
    }

    method IterateGenealogies() returns (rows: seq<Genealogy>)
      requires Valid()
      ensures Enumerates(rows, AllGenealogies(tables))
    {
      hide Represents, Consistent, Enumerates, Flat;
      var keys, values := ScanPrefix(GenealogiesPrefix(), _ => true);
      ScanGenealogies(db, tables, keys, values);
      rows := [];
      for i := 0 to |values|
        invariant rows == GenealogyRows(values)[..i]
      {
        assert values[i] in values;
        rows := rows + [values[i].genealogy];
      }
      assert rows == GenealogyRows(values);
    }
  }
}
