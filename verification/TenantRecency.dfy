/** The tenant cache as a recency list: which ids it holds is a function of the history of touches
    (hits and installs) alone, and a larger cache is never worse. */
module TenantRecency {
  import opened Wrappers
  import opened TenantCore

  function Minus(ids: seq<string>, x: string): seq<string> {
    if ids == [] then []
    else if ids[0] == x then Minus(ids[1..], x)
    else [ids[0]] + Minus(ids[1..], x)
  }

  /** The distinct ids of a history, most recently touched first. */
  function Recency(history: seq<string>): seq<string> {
    if history == [] then []
    else
      var last := history[|history| - 1];
      [last] + Minus(Recency(history[..|history| - 1]), last)
  }

  function Take(ids: seq<string>, n: nat): seq<string> {
    if |ids| <= n then ids else ids[..n]
  }

  ghost predicate Distinct(ids: seq<string>) {
    forall i, j :: 0 <= i < j < |ids| ==> ids[i] != ids[j]
  }

  // ---------- The reference: order of last use ----------

  function LastUse(history: seq<string>, x: string): int {
    if history == [] then -1
    else if history[|history| - 1] == x then |history| - 1
    else LastUse(history[..|history| - 1], x)
  }

  lemma {:induction false} MinusIsFilter(ids: seq<string>, x: string)
    ensures forall y :: y in Minus(ids, x) <==> y in ids && y != x
    ensures x !in ids ==> Minus(ids, x) == ids
    ensures Distinct(ids) ==> Distinct(Minus(ids, x))
    decreases |ids|
  {
    if ids == [] {
    } else {
      MinusIsFilter(ids[1..], x);
      assert ids == [ids[0]] + ids[1..];
      if Distinct(ids) {
        assert ids[0] !in ids[1..];
      }
    }
  }

  lemma {:induction false} MinusOfSplit(a: seq<string>, x: string, b: seq<string>)
    requires x !in a && x !in b
    ensures Minus(a + [x] + b, x) == a + b
    decreases |a|
  {
    if a == [] {
      MinusIsFilter(b, x);
      assert (a + [x] + b)[1..] == b && a + b == b;
    } else {
      assert (a + [x] + b)[1..] == a[1..] + [x] + b;
      MinusOfSplit(a[1..], x, b);
      assert a + b == [a[0]] + (a[1..] + b);
    }
  }

  /** On a list without repetitions, removing an id takes out its one position. */
  lemma MinusAt(ids: seq<string>, i: nat)
    requires Distinct(ids) && i < |ids|
    ensures Minus(ids, ids[i]) == ids[..i] + ids[i + 1..]
  {
    hide Minus;
    var a, b := ids[..i], ids[i + 1..];
    assert forall j :: 0 <= j < |b| ==> b[j] == ids[i + 1 + j];
    assert ids[i] !in a && ids[i] !in b;
    MinusOfSplit(a, ids[i], b);
    assert ids == a + [ids[i]] + b;
  }

  ghost predicate ByLastUse(ids: seq<string>, history: seq<string>) {
    forall i, j :: 0 <= i < j < |ids| ==> LastUse(history, ids[i]) > LastUse(history, ids[j])
  }

  lemma MinusKeepsOrder(ids: seq<string>, x: string, history: seq<string>)
    requires Distinct(ids) && ByLastUse(ids, history)
    ensures ByLastUse(Minus(ids, x), history)
  {
    hide LastUse, Minus;
    if x in ids {
      var k :| 0 <= k < |ids| && ids[k] == x;
      MinusAt(ids, k);
      var rest := Minus(ids, x);
      assert forall j :: 0 <= j < |rest| ==> rest[j] == if j < k then ids[j] else ids[j + 1];
    } else {
      MinusIsFilter(ids, x);
    }
  }

  lemma {:induction false} LastUseBound(history: seq<string>, x: string)
    ensures -1 <= LastUse(history, x) < |history|
    ensures LastUse(history, x) >= 0 <==> x in history
    decreases |history|
  {
    if history == [] {
    } else {
      var front := history[..|history| - 1];
      LastUseBound(front, x);
      assert history == front + [history[|history| - 1]];
    }
  }

  lemma LastUseAfter(history: seq<string>, last: string, x: string)
    ensures LastUse(history + [last], x) == if x == last then |history| else LastUse(history, x)
  {
    assert (history + [last])[..|history|] == history;
  }

  /** A new touch goes before everything touched earlier. */
  lemma PrependKeepsOrder(rest: seq<string>, history: seq<string>, last: string)
    requires ByLastUse(rest, history) && last !in rest
    ensures ByLastUse([last] + rest, history + [last])
  {
    hide LastUse;
    var r := [last] + rest;
    forall i, j | 0 <= i < j < |r| ensures LastUse(history + [last], r[i]) > LastUse(history + [last], r[j]) {
      assert r[j] == rest[j - 1] && rest[j - 1] in rest;
      LastUseAfter(history, last, r[i]);
      LastUseAfter(history, last, r[j]);
      LastUseBound(history, r[j]);
      assert i > 0 ==> r[i] == rest[i - 1] && rest[i - 1] in rest;
    }
  }

  lemma RecencyAfter(history: seq<string>, last: string)
    ensures Recency(history + [last]) == [last] + Minus(Recency(history), last)
  {
    assert (history + [last])[..|history|] == history;
  }

  /** `Recency` lists exactly the touched ids, each once, in decreasing order of last use. */
  lemma {:induction false} RecencyIsOrderOfLastUse(history: seq<string>)
    ensures Distinct(Recency(history)) && ByLastUse(Recency(history), history)
    ensures forall x :: x in Recency(history) <==> x in history
    decreases |history|
  {
    if history == [] {
    } else {
      var front, last := history[..|history| - 1], history[|history| - 1];
      assert history == front + [last];
      hide Recency, Minus, ByLastUse;
      RecencyIsOrderOfLastUse(front);
      RecencyAfter(front, last);
      var rest := Minus(Recency(front), last);
      MinusIsFilter(Recency(front), last);
      MinusKeepsOrder(Recency(front), last, front);
      PrependKeepsOrder(rest, front, last);
      assert forall x :: x in [last] + rest <==> x == last || x in rest;
    }
  }

  // ---------- Truncation commutes with touching ----------

  lemma MinusAfterTake(ids: seq<string>, x: string, n: nat)
    requires Distinct(ids) && n >= 1
    ensures Take(Minus(ids, x), n - 1) == Take(Minus(Take(ids, n), x), n - 1)
  {
    hide Minus;
    MinusIsFilter(ids, x);
    MinusIsFilter(Take(ids, n), x);
    if x in ids {
      var i :| 0 <= i < |ids| && ids[i] == x;
      MinusAt(ids, i);
      if i < n {
        MinusAt(Take(ids, n), i);
      } else {
        assert x !in Take(ids, n);
      }
    }
  }

  function Touch(ids: seq<string>, x: string, max: nat): seq<string> {
    Take([x] + Minus(ids, x), max)
  }

  /** Touching a truncated recency list gives the truncated list of the longer history. */
  lemma TouchIsRecency(history: seq<string>, x: string, max: nat)
    requires max >= 1
    ensures Touch(Take(Recency(history), max), x, max) == Take(Recency(history + [x]), max)
  {
    hide Recency, Minus, ByLastUse;
    var r := Recency(history);
    RecencyIsOrderOfLastUse(history);
    MinusAfterTake(r, x, max);
    RecencyAfter(history, x);
    var a, b := Minus(Take(r, max), x), Minus(r, x);
    assert Take([x] + a, max) == [x] + Take(a, max - 1);
    assert Take([x] + b, max) == [x] + Take(b, max - 1);
  }

  // ---------- The manager's list operations as touches ----------

  lemma IdsOfWithout(list: seq<Entry>, i: nat)
    requires i < |list| && UniqueIds(list)
    ensures Ids(Without(list, i)) == Minus(Ids(list), list[i].id)
  {
    MinusAt(Ids(list), i);
  }

  lemma HitIsTouch(list: seq<Entry>, id: string, max: nat)
    requires UniqueIds(list) && Cached(list, id) && |list| <= max
    ensures Ids(MoveToFront(list, Position(list, id))) == Touch(Ids(list), id, max)
  {
    hide Minus, Position;
    var i := Position(list, id);
    IdsOfWithout(list, i);
    assert |Ids(Without(list, i))| == |list| - 1;
    assert Ids(MoveToFront(list, i)) == [id] + Ids(Without(list, i));
  }

  lemma InstallIsTouch(c: Core, id: string, h: Handle, max: nat)
    requires !Cached(c.cache, id)
    ensures Ids(Install(c, id, h, max).cache) == Touch(Ids(c.cache), id, max)
  {
    hide Handles;
    assert id !in Ids(c.cache);
    MinusIsFilter(Ids(c.cache), id);
    var more := [Entry(id, h)] + c.cache;
    assert Ids(more) == [id] + Ids(c.cache);
    if |more| > max {
      assert Ids(more[..max]) == Ids(more)[..max];
    }
  }

  // ---------- Sequential runs with successful opens ----------

  /** One whole Get, alone: the handle opened on a miss is `h`. */
  function GetAlone(c: Core, id: string, h: Handle, max: nat): Core {
    var (c1, begun) := BeginGet(c, id);
    if begun.Claimed? then FinishGet(c1, id, begun.op, Some(h), max) else c1
  }

  function CoreAfter(max: nat, ids: seq<string>, n: nat): Core
    requires n <= |ids|
    decreases n
  {
    if n == 0 then INITIAL else GetAlone(CoreAfter(max, ids, n - 1), ids[n - 1], n - 1, max)
  }

  function Opens(max: nat, ids: seq<string>, n: nat): nat
    requires n <= |ids|
    decreases n
  {
    if n == 0 then 0
    else Opens(max, ids, n - 1) + if BeginGet(CoreAfter(max, ids, n - 1), ids[n - 1]).1.Claimed? then 1 else 0
  }

  lemma UniqueFromDistinct(list: seq<Entry>)
    requires Distinct(Ids(list))
    ensures UniqueIds(list)
  {
    forall i, j | 0 <= i < j < |list| ensures list[i].id != list[j].id {
      assert Ids(list)[i] != Ids(list)[j];
    }
  }

  /** The cache of an open manager with no load in flight is the recency of the history, cut to size. */
  ghost predicate IsRecencyOf(max: nat, history: seq<string>, c: Core) {
    && Ids(c.cache) == Take(Recency(history), max)
    && UniqueIds(c.cache) && |c.cache| <= max && c.loading == map[] && !c.closed
  }

  lemma TakeIsDistinct(history: seq<string>, max: nat)
    ensures Distinct(Take(Recency(history), max)) && |Take(Recency(history), max)| <= max
  {
    RecencyIsOrderOfLastUse(history);
    hide Recency, ByLastUse;
  }

  lemma GetAloneKeepsRecency(max: nat, history: seq<string>, c: Core, id: string, h: Handle)
    requires max >= 1 && IsRecencyOf(max, history, c)
    ensures IsRecencyOf(max, history + [id], GetAlone(c, id, h, max))
  {
    hide Recency, GetAlone, Touch, Distinct, Take;
    GetAloneIsTouch(c, id, h, max);
    TouchIsRecency(history, id, max);
    TakeIsDistinct(history + [id], max);
    var c' := GetAlone(c, id, h, max);
    assert |c'.cache| == |Ids(c'.cache)|;
    UniqueFromDistinct(c'.cache);
  }

  lemma StartsEmpty(max: nat, ids: seq<string>)
    ensures IsRecencyOf(max, ids[..0], CoreAfter(max, ids, 0))
  {
  }

  lemma {:induction false} SequentialCacheIsRecency(max: nat, ids: seq<string>, n: nat)
    requires max >= 1 && n <= |ids|
    ensures IsRecencyOf(max, ids[..n], CoreAfter(max, ids, n))
    decreases n
  {
    hide IsRecencyOf, GetAlone;
    if n == 0 {
      StartsEmpty(max, ids);
    } else {
      SequentialCacheIsRecency(max, ids, n - 1);
      assert ids[..n - 1] + [ids[n - 1]] == ids[..n];
      GetAloneKeepsRecency(max, ids[..n - 1], CoreAfter(max, ids, n - 1), ids[n - 1], n - 1);
    }
  }

  lemma GetAloneIsTouch(c: Core, id: string, h: Handle, max: nat)
    requires UniqueIds(c.cache) && |c.cache| <= max && c.loading == map[] && !c.closed
    ensures var c' := GetAlone(c, id, h, max);
            Ids(c'.cache) == Touch(Ids(c.cache), id, max) && c'.loading == map[] && !c'.closed
  {
    hide Handles;
    if Cached(c.cache, id) {
      HitIsTouch(c.cache, id, max);
    } else {
      var (c1, begun) := BeginGet(c, id);
      InstallIsTouch(c1.(published := c1.published[begun.op := Some(h)], loading := c1.loading - {id}), id, h, max);
    }
  }

  /** A larger cache always holds what a smaller one holds, and has opened no more often. */
  lemma {:induction false} LargerCacheIsNoWorse(small: nat, large: nat, ids: seq<string>, n: nat)
    requires 1 <= small <= large && n <= |ids|
    ensures Ids(CoreAfter(small, ids, n).cache) <= Ids(CoreAfter(large, ids, n).cache)
    ensures Opens(large, ids, n) <= Opens(small, ids, n)
    decreases n
  {
    hide CoreAfter, Recency, Ids, UniqueIds;
    SequentialCacheIsRecency(small, ids, n);
    SequentialCacheIsRecency(large, ids, n);
    if n == 0 {
    } else {
      LargerCacheIsNoWorse(small, large, ids, n - 1);
      SequentialCacheIsRecency(small, ids, n - 1);
      SequentialCacheIsRecency(large, ids, n - 1);
      HeldByPrefix(CoreAfter(small, ids, n - 1).cache, CoreAfter(large, ids, n - 1).cache, ids[n - 1]);
      ClaimsAreMisses(CoreAfter(small, ids, n - 1), ids[n - 1]);
      ClaimsAreMisses(CoreAfter(large, ids, n - 1), ids[n - 1]);
      hide BeginGet;
    }
  }

  lemma ClaimsAreMisses(c: Core, id: string)
    requires c.loading == map[] && !c.closed
    ensures BeginGet(c, id).1.Claimed? <==> !Cached(c.cache, id)
  {
    hide MoveToFront, Cached, Position;
  }

  lemma HeldByPrefix(a: seq<Entry>, b: seq<Entry>, id: string)
    requires Ids(a) <= Ids(b)
    ensures Cached(a, id) ==> Cached(b, id)
  {
    if Cached(a, id) {
      var i :| 0 <= i < |a| && a[i].id == id;
      assert Ids(a)[i] == Ids(b)[i];
      assert b[i].id == id;
    }
  }
}
