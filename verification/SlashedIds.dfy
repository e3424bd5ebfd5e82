/** What leaving does when the id in the request contains a slash.  No genealogy has such an id, but the
    handler looks up the caller's membership before anything else, and there the key string may be that of
    another member's row. */
module SlashedIds {
  import opened Wrappers
  import opened Records
  import opened Keys
  import opened PlatformTables
  import opened Genealogies

  /** The strings that a count of Owners under `gid` meets. */
  function OwnerStrings(db: map<string, Value>, gid: string): set<string> {
    set s | s in db && MembersPrefix(gid) <= s && MembershipAt(db, s).Some? && MembershipAt(db, s).value.role == Owner
  }

  /** LeaveGenealogy on the flat database, for any id whatever. */
  function LeaveOnStrings(db: map<string, Value>, sub: string, gid: string): (map<string, Value>, Response) {
    var found := MembershipAt(db, Flat(MembershipK(gid, sub)));
    if sub == "" then (db, Refused(AuthenticationRequired))
    else if found.None? then (db, Done)
    else if found.value.role == Owner && |OwnerStrings(db, gid)| <= 1 then (db, Refused(LastOwner))
    else (db - {Flat(MembershipK(gid, sub))} - {Flat(ReverseK(sub, gid))}, Done)
  }

  /** The forward row of another seat is gone; its reverse row is still there unless the caller's own
      reverse key happens to be the same string. */
  ghost predicate Torn(db: map<string, Value>, k: Seat, sub: string, gid: string) {
    && k.gid + "/" + k.sub == gid + "/" + sub && k.gid != gid && k.sub != sub
    && Flat(MembershipK(k.gid, k.sub)) !in db
    && (Flat(ReverseK(k.sub, k.gid)) in db <==> k.sub + "/" + k.gid != sub + "/" + gid)
  }

  lemma ForwardString(a: string, x: string, b: string, y: string)
    ensures Flat(MembershipK(a, x)) == Flat(MembershipK(b, y)) <==> a + "/" + x == b + "/" + y
  {
    assert "m/" + a + "/" + x == "m/" + (a + "/" + x) && "m/" + b + "/" + y == "m/" + (b + "/" + y);
    if "m/" + (a + "/" + x) == "m/" + (b + "/" + y) {
      DropPrefix("m/", a + "/" + x, b + "/" + y);
    }
  }

  lemma ReverseString(a: string, x: string, b: string, y: string)
    ensures Flat(ReverseK(x, a)) == Flat(ReverseK(y, b)) <==> x + "/" + a == y + "/" + b
  {
    assert "mr/" + x + "/" + a == "mr/" + (x + "/" + a) && "mr/" + y + "/" + b == "mr/" + (y + "/" + b);
    if "mr/" + (x + "/" + a) == "mr/" + (y + "/" + b) {
      DropPrefix("mr/", x + "/" + a, y + "/" + b);
    }
  }

  /** A slash-free id before the slash is a proper part of a slashed one, so the subjects differ too. */
  lemma AnotherSubject(k: Seat, sub: string, gid: string)
    requires k.gid + "/" + k.sub == gid + "/" + sub && SlashFree(k.gid) && !SlashFree(gid)
    ensures k.gid != gid && k.sub != sub
  {
    var s := gid + "/" + sub;
    assert forall i :: 0 <= i < |gid| ==> s[i] == gid[i];
    assert forall i :: 0 <= i < |k.gid| ==> s[i] == k.gid[i];
    assert |s| == |k.gid| + 1 + |k.sub|;
  }

  lemma DifferentIndexes(k: Seat, sub: string, gid: string)
    ensures Flat(MembershipK(k.gid, k.sub)) != Flat(ReverseK(sub, gid))
    ensures Flat(ReverseK(k.sub, k.gid)) != Flat(MembershipK(gid, sub))
  {
    Tagged(MembershipK(k.gid, k.sub));
    Tagged(ReverseK(sub, gid));
    Tagged(ReverseK(k.sub, k.gid));
    Tagged(MembershipK(gid, sub));
  }

  /** For an id without a slash, leaving is the table operation: whoever has a row and is not refused loses
      exactly that row, in both indexes, and nobody else is touched. */
  lemma PlainLeaveErasesOwnRow(db: map<string, Value>, t: Tables, sub: string, gid: string)
    requires Consistent(t) && Represents(db, t) && SlashFree(gid)
    ensures var (db', response) := LeaveOnStrings(db, sub, gid);
            && (sub == "" ==> response == Refused(AuthenticationRequired))
            && (response != Done ==> db' == db)
            && (response == Done ==> Represents(db', DropMember(t, gid, sub)))
            && (response == Refused(LastOwner) ==>
                  Seat(gid, sub) in t.members && t.members[Seat(gid, sub)].role == Owner)
  {
    var k, reverse := MembershipK(gid, sub), ReverseK(sub, gid);
    LookupIsExact(db, t, k);
    MemberRowDrop(t, gid, sub);
    var (db', response) := LeaveOnStrings(db, sub, gid);
    hide Flat, Represents, Consistent, SameOutside, OwnerStrings;
    if response == Done {
      if Seat(gid, sub) in t.members {
        EraseTwoRows(db, t, DropMember(t, gid, sub), k, reverse);
      } else {
        assert DropMember(t, gid, sub) == t;
      }
    }
  }

  /** Whose row a forward string really is. */
  lemma RowBehind(db: map<string, Value>, t: Tables, sub: string, gid: string) returns (k: Seat)
    requires Consistent(t) && Represents(db, t) && Flat(MembershipK(gid, sub)) in db
    ensures k in t.members && SlashFree(k.gid) && k.gid + "/" + k.sub == gid + "/" + sub
    ensures Flat(ReverseK(k.sub, k.gid)) in db
  {
    var s := Flat(MembershipK(gid, sub));
    assert s == "m/" + (gid + "/" + sub);
    ForwardHoldsMemberships(db, t, s);
    k :| k in t.members && Flat(MembershipK(k.gid, k.sub)) == s;
    ForwardString(k.gid, k.sub, gid, sub);
    assert Holds(t, ReverseK(k.sub, k.gid));
    hide Flat;
  }

  lemma TearsRow(db: map<string, Value>, k: Seat, sub: string, gid: string)
    requires SlashFree(k.gid) && !SlashFree(gid) && k.gid + "/" + k.sub == gid + "/" + sub
    requires Flat(ReverseK(k.sub, k.gid)) in db
    ensures Torn(db - {Flat(MembershipK(gid, sub))} - {Flat(ReverseK(sub, gid))}, k, sub, gid)
  {
    ForwardString(k.gid, k.sub, gid, sub);
    ReverseString(k.gid, k.sub, gid, sub);
    AnotherSubject(k, sub, gid);
    DifferentIndexes(k, sub, gid);
    hide Flat, SlashFree;
  }

  /** From every state: a request to leave with a slash in its id changes nothing, or takes away the row of
      another member of another genealogy, which is then in one index and, as a rule, still in the other. */
  lemma SlashedLeaveHitsAnother(db: map<string, Value>, t: Tables, sub: string, gid: string)
    requires Consistent(t) && Represents(db, t) && !SlashFree(gid)
    ensures var (db', response) := LeaveOnStrings(db, sub, gid);
            || db' == db
            || (response == Done && exists k :: k in t.members && Torn(db', k, sub, gid))
  {
    hide Flat, Consistent, Represents, Torn, SlashFree;
    var db' := LeaveOnStrings(db, sub, gid).0;
    if db' != db {
      var k := RowBehind(db, t, sub, gid);
      TearsRow(db, k, sub, gid);
    }
  }

  /** It does happen: whoever is signed in as `sub` removes the member "x/sub" of any genealogy `g`, unless
      that member is an Owner, by leaving "g/x". */
  lemma SlashedLeaveTears(db: map<string, Value>, t: Tables, g: string, x: string, sub: string)
    requires Consistent(t) && Represents(db, t) && sub != ""
    requires Seat(g, x + "/" + sub) in t.members && t.members[Seat(g, x + "/" + sub)].role != Owner
    ensures var (db', response) := LeaveOnStrings(db, sub, g + "/" + x);
            && response == Done
            && Flat(MembershipK(g, x + "/" + sub)) in db && Flat(MembershipK(g, x + "/" + sub)) !in db'
            && Flat(ReverseK(x + "/" + sub, g)) in db
            && (Flat(ReverseK(x + "/" + sub, g)) in db' <==> (x + "/" + sub) + "/" + g != sub + "/" + (g + "/" + x))
  {
    var k, gid := Seat(g, x + "/" + sub), g + "/" + x;
    assert g + "/" + (x + "/" + sub) == gid + "/" + sub;
    ForwardString(g, x + "/" + sub, gid, sub);
    ReverseString(g, x + "/" + sub, gid, sub);
    DifferentIndexes(k, sub, gid);
    assert Holds(t, MembershipK(k.gid, k.sub)) && Holds(t, ReverseK(k.sub, k.gid));
    hide Flat;
  }
}
