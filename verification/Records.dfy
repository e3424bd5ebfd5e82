/** The platform's record types. */
module Records {
  datatype Visibility = Private | Unlisted | Public

  /** Roles, least privileged first; `NoRole` is the absence of a role and is never stored. */
  datatype Role = NoRole | Viewer | Contributor | Curator | Owner {
    function Rank(): nat {
      match this
      case NoRole => 0
      case Viewer => 1
      case Contributor => 2
      case Curator => 3
      case Owner => 4
    }

    predicate AtLeast(min: Role) {
      Rank() >= min.Rank()
    }
  }

  datatype User = User(subject: string, email: string, createdAt: int, suspended: bool)

  datatype Genealogy = Genealogy(id: string, name: string, visibility: Visibility, createdBy: string, createdAt: int)

  datatype Membership = Membership(subject: string, genealogyId: string, role: Role, grantedBy: string, grantedAt: int)

  datatype Ban = Ban(subject: string, genealogyId: string, reason: string, bannedBy: string, bannedAt: int)

  /** Names one (genealogy, subject) pair, in that order. */
  datatype Seat = Seat(gid: string, sub: string)

  predicate SlashFree(s: string) {
    '/' !in s
  }

  /** The sequence lists the members of the set, each once. */
  ghost predicate Enumerates<T(!new)>(items: seq<T>, members: set<T>) {
    && (forall i, j :: 0 <= i < j < |items| ==> items[i] != items[j])
    && (forall x :: x in items <==> x in members)
  }

  // ---------- strings.TrimSpace ----------

  predicate IsSpace(c: char) {
    var n := c as int;
    || 0x09 <= n <= 0x0D || n == 0x20 || n == 0x85 || n == 0xA0 || n == 0x1680
    || 0x2000 <= n <= 0x200A || n == 0x2028 || n == 0x2029 || n == 0x202F || n == 0x205F || n == 0x3000
  }

  function TrimLeft(s: string): string {
    if s != [] && IsSpace(s[0]) then TrimLeft(s[1..]) else s
  }

  function TrimRight(s: string): string {
    if s != [] && IsSpace(s[|s| - 1]) then TrimRight(s[..|s| - 1]) else s
  }

  function TrimSpace(s: string): string {
    TrimRight(TrimLeft(s))
  }

  ghost predicate AllSpace(s: string) {
    forall i :: 0 <= i < |s| ==> IsSpace(s[i])
  }

  lemma {:induction false} TrimLeftMeans(s: string) returns (left: string)
    ensures s == left + TrimLeft(s) && AllSpace(left)
    ensures TrimLeft(s) != [] ==> !IsSpace(TrimLeft(s)[0])
    decreases |s|
  {
    if s == [] || !IsSpace(s[0]) {
      left := "";
    } else {
      var rest := TrimLeftMeans(s[1..]);
      left := [s[0]] + rest;
      assert s == [s[0]] + s[1..];
    }
  }

  lemma {:induction false} TrimRightMeans(s: string) returns (right: string)
    ensures s == TrimRight(s) + right && AllSpace(right)
    ensures TrimRight(s) != [] ==> TrimRight(s)[0] == s[0] && !IsSpace(TrimRight(s)[|TrimRight(s)| - 1])
    decreases |s|
  {
    if s == [] || !IsSpace(s[|s| - 1]) {
      right := "";
    } else {
      var rest := TrimRightMeans(s[..|s| - 1]);
      right := rest + [s[|s| - 1]];
      assert s == s[..|s| - 1] + [s[|s| - 1]];
    }
  }

  /** Only white space is cut, at both ends, and all of it. */
  lemma TrimSpaceMeans(s: string) returns (left: string, right: string)
    ensures s == left + TrimSpace(s) + right && AllSpace(left) && AllSpace(right)
    ensures var r := TrimSpace(s); r != [] ==> !IsSpace(r[0]) && !IsSpace(r[|r| - 1])
  {
    left := TrimLeftMeans(s);
    right := TrimRightMeans(TrimLeft(s));
    assert s == left + (TrimRight(TrimLeft(s)) + right);
  }
}
