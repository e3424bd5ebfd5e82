/** The flat key space of the platform database.

    Every row of every table has a structured key; `Flat` is the string under which it is stored.
    Subjects are "issuer|sub" with an issuer URL and so usually contain slashes; genealogy ids are
    UUIDs and contain none. */
module Keys {
  import opened Records

  datatype Key =
    | UserK(sub: string)
    | GenealogyK(gid: string)
    | MembershipK(gid: string, sub: string)
    | ReverseK(sub: string, gid: string)
    | BanK(gid: string, sub: string)
    | UserCountK(sub: string)
    | PersonCountK(gid: string)

  function Flat(k: Key): string {
    match k
    case UserK(sub) => "u/" + sub
    case GenealogyK(gid) => "g/" + gid
    case MembershipK(gid, sub) => "m/" + gid + "/" + sub
    case ReverseK(sub, gid) => "mr/" + sub + "/" + gid
    case BanK(gid, sub) => "b/" + gid + "/" + sub
    case UserCountK(sub) => "c/u/" + sub
    case PersonCountK(gid) => "c/g/" + gid + "/persons"
  }

  /** The layout of the key space, by example. */
  lemma KeyLayout()
    ensures Flat(UserK("iss|s")) == "u/iss|s" && Flat(GenealogyK("g1")) == "g/g1"
    ensures Flat(MembershipK("g1", "iss|s")) == "m/g1/iss|s" && Flat(ReverseK("iss|s", "g1")) == "mr/iss|s/g1"
    ensures Flat(BanK("g1", "iss|s")) == "b/g1/iss|s"
    ensures Flat(UserCountK("iss|s")) == "c/u/iss|s" && Flat(PersonCountK("g1")) == "c/g/g1/persons"
  {
  }

  /** Keys whose genealogy id, where it stands next to a subject, has no slash. */
  predicate WellFormed(k: Key) {
    k.MembershipK? || k.ReverseK? || k.BanK? ==> SlashFree(k.gid)
  }

  // ---------- Splitting at a slash ----------

  lemma SplitAtFirstSlash(a: string, x: string, a': string, x': string)
    requires SlashFree(a) && SlashFree(a')
    requires a + "/" + x == a' + "/" + x'
    ensures a == a' && x == x'
  {
    var s := a + "/" + x;
    assert s[|a|] == '/' && s[|a'|] == '/';
    assert forall i :: 0 <= i < |a| ==> s[i] == a[i];
    assert forall i :: 0 <= i < |a'| ==> s[i] == a'[i];
    assert |a| == |a'|;
    assert a == s[..|a|] && x == s[|a| + 1..];
  }

  lemma SplitAtLastSlash(x: string, a: string, x': string, a': string)
    requires SlashFree(a) && SlashFree(a')
    requires x + "/" + a == x' + "/" + a'
    ensures x == x' && a == a'
  {
    var s := x + "/" + a;
    assert s[|x|] == '/' && s[|x'|] == '/';
    assert forall i :: |x| < i < |s| ==> s[i] == a[i - |x| - 1];
    assert forall i :: |x'| < i < |s| ==> s[i] == a'[i - |x'| - 1];
    assert |x| == |x'|;
    assert x == s[..|x|] && a == s[|x| + 1..];
  }

  lemma DropPrefix(p: string, s: string, s': string)
    requires p + s == p + s'
    ensures s == s'
  {
    assert s == (p + s)[|p|..] && s' == (p + s')[|p|..];
  }

  lemma Tagged(k: Key)
    ensures var s := Flat(k);
            && |s| >= 2
            && (k.UserK? <==> s[0] == 'u') && (k.GenealogyK? <==> s[0] == 'g') && (k.BanK? <==> s[0] == 'b')
            && (k.MembershipK? <==> s[0] == 'm' && s[1] == '/') && (k.ReverseK? <==> s[0] == 'm' && s[1] == 'r')
            && (k.UserCountK? <==> |s| >= 3 && s[0] == 'c' && s[2] == 'u')
            && (k.PersonCountK? <==> |s| >= 3 && s[0] == 'c' && s[2] == 'g')
  {
    var s := Flat(k);
    assert k.MembershipK? ==> s[1] == '/';
    assert k.ReverseK? ==> s[1] == 'r';
    assert k.UserCountK? ==> s[2] == 'u';
    assert k.PersonCountK? ==> s[2] == 'g';
  }

  lemma SameTable(k: Key, k': Key)
    requires Flat(k) == Flat(k')
    ensures k.UserK? == k'.UserK? && k.GenealogyK? == k'.GenealogyK?
    ensures k.MembershipK? == k'.MembershipK? && k.ReverseK? == k'.ReverseK?
    ensures k.BanK? == k'.BanK? && k.UserCountK? == k'.UserCountK? && k.PersonCountK? == k'.PersonCountK?
  {
    Tagged(k);
    Tagged(k');
  }

  /** Distinct rows, of the same table or of different tables, never share a string. */
  lemma FlatIsInjective(k: Key, k': Key)
    requires WellFormed(k) && WellFormed(k')
    requires Flat(k) == Flat(k')
    ensures k == k'
  {
    SameTable(k, k');
    match k
    case UserK(sub) => DropPrefix("u/", sub, k'.sub);
    case GenealogyK(gid) => DropPrefix("g/", gid, k'.gid);
    case MembershipK(gid, sub) =>
      assert Flat(k) == "m/" + (gid + "/" + sub) && Flat(k') == "m/" + (k'.gid + "/" + k'.sub);
      DropPrefix("m/", gid + "/" + sub, k'.gid + "/" + k'.sub);
      SplitAtFirstSlash(gid, sub, k'.gid, k'.sub);
    case ReverseK(sub, gid) =>
      assert Flat(k) == "mr/" + (sub + "/" + gid) && Flat(k') == "mr/" + (k'.sub + "/" + k'.gid);
      DropPrefix("mr/", sub + "/" + gid, k'.sub + "/" + k'.gid);
      SplitAtLastSlash(sub, gid, k'.sub, k'.gid);
    case BanK(gid, sub) =>
      assert Flat(k) == "b/" + (gid + "/" + sub) && Flat(k') == "b/" + (k'.gid + "/" + k'.sub);
      DropPrefix("b/", gid + "/" + sub, k'.gid + "/" + k'.sub);
      SplitAtFirstSlash(gid, sub, k'.gid, k'.sub);
    case UserCountK(sub) => DropPrefix("c/u/", sub, k'.sub);
    case PersonCountK(gid) =>
      assert Flat(k) == "c/g/" + (gid + "/persons") && Flat(k') == "c/g/" + (k'.gid + "/persons");
      DropPrefix("c/g/", gid + "/persons", k'.gid + "/persons");
      assert gid == (gid + "/persons")[..|gid|] && k'.gid == (k'.gid + "/persons")[..|k'.gid|];
  }

  /** Without the slash-free condition two different rows collide. */
  lemma SlashedIdsCollide()
    ensures Flat(MembershipK("a/b", "c")) == Flat(MembershipK("a", "b/c"))
    ensures MembershipK("a/b", "c") != MembershipK("a", "b/c")
  {
    assert "m/" + "a/b" + "/" + "c" == "m/a/b/c" == "m/" + "a" + "/" + "b/c";
  }

  // ---------- Prefix scans ----------

  function GenealogiesPrefix(): string {
    "g/"
  }

  function MembersPrefix(gid: string): string {
    "m/" + gid + "/"
  }

  function UserPrefix(sub: string): string {
    "mr/" + sub + "/"
  }

  /** The subject is `sub` or extends it by a slash: the rows a scan for `sub` meets. */
  predicate SameOrBelow(sub: string, other: string) {
    other == sub || sub + "/" <= other
  }

  lemma PrefixMeans(p: string, s: string)
    ensures p <= s <==> |p| <= |s| && s == p + s[|p|..]
  {
  }

  lemma GenealogiesScan(k: Key)
    ensures GenealogiesPrefix() <= Flat(k) <==> k.GenealogyK?
  {
    Tagged(k);
  }

  /** A scan for one genealogy meets exactly its own membership rows. */
  lemma MembersScan(gid: string, k: Key)
    requires SlashFree(gid) && WellFormed(k)
    ensures MembersPrefix(gid) <= Flat(k) <==> k.MembershipK? && k.gid == gid
  {
    var s, p := Flat(k), MembersPrefix(gid);
    PrefixMeans(p, s);
    if p <= s {
      assert s[0] == 'm' && s[1] == '/';
      var rest := s[|p|..];
      assert s == "m/" + (gid + "/" + rest);
      Tagged(k);
      assert s == "m/" + (k.gid + "/" + k.sub);
      DropPrefix("m/", gid + "/" + rest, k.gid + "/" + k.sub);
      SplitAtFirstSlash(gid, rest, k.gid, k.sub);
    }
    if k.MembershipK? && k.gid == gid {
      assert s == p + k.sub;
    }
  }

  /** With no slash in the last part, a prefix that ends at a slash ends at or before the last one. */
  lemma PrefixBeforeLastSlash(sub: string, rest: string, x: string, g: string)
    requires SlashFree(g) && x + "/" + g == sub + "/" + rest
    ensures SameOrBelow(sub, x)
  {
    var s := x + "/" + g;
    assert s[|sub|] == '/';
    assert forall i :: |x| < i < |s| ==> s[i] == g[i - |x| - 1];
    assert |sub| <= |x|;
    if |sub| == |x| {
      assert x == s[..|x|] && sub == s[..|sub|];
    } else {
      assert x[..|sub| + 1] == s[..|sub| + 1] && sub + "/" == s[..|sub| + 1];
    }
  }

  lemma UserScanFinds(sub: string, k: Key)
    requires k.ReverseK? && SameOrBelow(sub, k.sub)
    ensures UserPrefix(sub) <= Flat(k)
  {
    if k.sub == sub {
      assert Flat(k) == UserPrefix(sub) + k.gid;
    } else {
      var more := k.sub[|sub| + 1..];
      assert k.sub == sub + "/" + more;
      assert Flat(k) == UserPrefix(sub) + (more + "/" + k.gid);
    }
  }

  /** A scan for one user meets exactly the rows of subjects equal to that user or extending it by
      a slash. */
  lemma UserScan(sub: string, k: Key)
    requires WellFormed(k)
    ensures UserPrefix(sub) <= Flat(k) <==> k.ReverseK? && SameOrBelow(sub, k.sub)
  {
    var s, p := Flat(k), UserPrefix(sub);
    if p <= s {
      assert s[0] == 'm' && s[1] == 'r';
      Tagged(k);
      var rest := s[|p|..];
      assert s == "mr/" + (sub + "/" + rest) && s == "mr/" + (k.sub + "/" + k.gid);
      DropPrefix("mr/", sub + "/" + rest, k.sub + "/" + k.gid);
      PrefixBeforeLastSlash(sub, rest, k.sub, k.gid);
    }
    if k.ReverseK? && SameOrBelow(sub, k.sub) {
      UserScanFinds(sub, k);
    }
  }
}
