/** The tenant manager's critical sections as functions of its state, and the class whose linked list
    and index map carry that state. */
module TenantCore {
  import opened Wrappers

  /** Handles of opened databases, and load operations, are named by numbers in order of creation. */
  type Handle = nat
  type OpId = nat

  datatype Entry = Entry(id: string, handle: Handle)

  /** `cache` is the recency list, most recent first.  `published` holds the results of finished load
      operations (None: the open failed).  `closes` counts the Close calls made on each handle. */
  datatype Core = Core(
    cache: seq<Entry>,
    indexNil: bool,
    loading: map<string, OpId>,
    published: map<OpId, Option<Handle>>,
    nextOp: OpId,
    closed: bool,
    closes: multiset<Handle>)

  datatype Begun = Shutdown | Hit(handle: Handle) | Wait(op: OpId) | Claimed(op: OpId)

  const INITIAL: Core := Core([], false, map[], map[], 0, false, multiset{})

  function Ids(list: seq<Entry>): seq<string> {
    seq(|list|, i requires 0 <= i < |list| => list[i].id)
  }

  predicate Cached(list: seq<Entry>, id: string) {
    exists i :: 0 <= i < |list| && list[i].id == id
  }

  ghost predicate UniqueIds(list: seq<Entry>) {
    forall i, j :: 0 <= i < j < |list| ==> list[i].id != list[j].id
  }

  /** The position of `id`, or the length of the list. */
  function Position(list: seq<Entry>, id: string): (i: nat)
    ensures i <= |list| && (i < |list| <==> Cached(list, id)) && (i < |list| ==> list[i].id == id)
    ensures forall j :: 0 <= j < i ==> list[j].id != id
  {
    if list == [] then 0
    else if list[0].id == id then 0
    else
      assert forall j :: 0 <= j < |list| - 1 ==> list[1..][j] == list[j + 1];
      1 + Position(list[1..], id)
  }

  function Without(list: seq<Entry>, i: nat): seq<Entry>
    requires i < |list|
  {
    list[..i] + list[i + 1..]
  }

  function MoveToFront(list: seq<Entry>, i: nat): seq<Entry>
    requires i < |list|
  {
    [list[i]] + Without(list, i)
  }

  function Handles(list: seq<Entry>): multiset<Handle> {
    if list == [] then multiset{} else Handles(list[..|list| - 1]) + multiset{list[|list| - 1].handle}
  }

  /** Keeps the first `max` entries and closes the others. */
  function Evict(c: Core, max: nat): Core {
    if |c.cache| <= max then c
    else c.(cache := c.cache[..max], closes := c.closes + Handles(c.cache[max..]))
  }

  /** installLocked. */
  function Install(c: Core, id: string, h: Handle, max: nat): Core {
    if Cached(c.cache, id) then
      c.(cache := MoveToFront(c.cache, Position(c.cache, id)), closes := c.closes + multiset{h})
    else Evict(c.(cache := [Entry(id, h)] + c.cache), max)
  }

  /** The first critical section of Get. */
  function BeginGet(c: Core, id: string): (Core, Begun) {
    if c.closed then (c, Shutdown)
    else if Cached(c.cache, id) then
      var i := Position(c.cache, id);
      (c.(cache := MoveToFront(c.cache, i)), Hit(c.cache[i].handle))
    else if id in c.loading then (c, Wait(c.loading[id]))
    else (c.(loading := c.loading[id := c.nextOp], nextOp := c.nextOp + 1), Claimed(c.nextOp))
  }

  /** The second critical section of Get: publish the result, forget the load, install the handle. */
  function FinishGet(c: Core, id: string, op: OpId, result: Option<Handle>, max: nat): Core {
    var c1 := c.(published := c.published[op := result], loading := c.loading - {id});
    if result.None? then c1 else Install(c1, id, result.value, max)
  }

  function Drop(c: Core, id: string): Core {
    if !Cached(c.cache, id) then c
    else
      var i := Position(c.cache, id);
      c.(cache := Without(c.cache, i), closes := c.closes + multiset{c.cache[i].handle})
  }

  function Close(c: Core): Core {
    if c.closed then c
    else c.(closed := true, cache := [], indexNil := true, closes := c.closes + Handles(c.cache))
  }

  lemma NoHandles()
    ensures Handles([]) == multiset{}
  {
  }

  lemma HandlesOfPrefix(list: seq<Entry>, n: nat)
    requires n < |list|
    ensures Handles(list[..n + 1]) == Handles(list[..n]) + multiset{list[n].handle}
  {
    assert list[..n + 1][..n] == list[..n];
  }

  function PopLast(c: Core): Core
    requires c.cache != []
  {
    var last := |c.cache| - 1;
    c.(cache := c.cache[..last], closes := c.closes + multiset{c.cache[last].handle})
  }

  lemma EvictNothing(c: Core, max: nat)
    ensures |c.cache| <= max ==> Evict(c, max) == c
  {
  }

  lemma EvictFits(c: Core, max: nat)
    ensures |Evict(c, max).cache| <= max
  {
  }

  lemma HandlesBeyond(list: seq<Entry>, max: nat)
    requires |list| > max
    ensures Handles(list[max..]) == Handles(list[..|list| - 1][max..]) + multiset{list[|list| - 1].handle}
  {
    hide Handles;
    var beyond := list[max..];
    assert beyond[..|beyond| - 1 + 1] == beyond;
    assert beyond[..|beyond| - 1] == list[..|list| - 1][max..];
    HandlesOfPrefix(beyond, |beyond| - 1);
  }

  lemma Regroup(a: multiset<Handle>, b: multiset<Handle>, x: multiset<Handle>)
    ensures a + x + b == a + (b + x)
  {
  }

  /** Closing the last entry of an overfull list is a first step of evicting. */
  lemma PopThenEvict(c: Core, max: nat)
    requires |c.cache| > max
    ensures Evict(PopLast(c), max) == Evict(c, max)
  {
    NoHandles();
    hide Handles;
    var last := |c.cache| - 1;
    var popped := c.cache[..last];
    HandlesBeyond(c.cache, max);
    Regroup(c.closes, Handles(popped[max..]), multiset{c.cache[last].handle});
    assert popped[..max] == c.cache[..max];
    if last == max {
      assert popped[max..] == [];
      assert Evict(c, max).closes == PopLast(c).closes;
    }
  }

  // ---------- What dropping means ----------

  /** The entries of other ids, in their order. */
  function Others(list: seq<Entry>, id: string): seq<Entry> {
    if list == [] then []
    else if list[0].id == id then Others(list[1..], id)
    else [list[0]] + Others(list[1..], id)
  }

  ghost predicate ListedFor(list: seq<Entry>, id: string, h: Handle) {
    Entry(id, h) in list
  }

  /** The id is gone from the list, the other entries are as before, its handle has been closed once more, no
      other handle has, and nothing else has changed. */
  ghost predicate Dropped(c: Core, c': Core, id: string) {
    && c' == c.(cache := c'.cache, closes := c'.closes)
    && c'.cache == Others(c.cache, id) && !Cached(c'.cache, id)
    && forall h :: c'.closes[h] == c.closes[h] + One(ListedFor(c.cache, id, h))
  }

  lemma {:induction false} OthersAlone(list: seq<Entry>, id: string)
    ensures !Cached(Others(list, id), id)
    ensures !Cached(list, id) ==> Others(list, id) == list
    decreases |list|
  {
    if list == [] {
    } else {
      OthersAlone(list[1..], id);
      assert list == [list[0]] + list[1..];
      var rest := Others(list[1..], id);
      assert Cached(list[1..], id) ==> Cached(list, id) by {
        if Cached(list[1..], id) {
          var i :| 0 <= i < |list| - 1 && list[1..][i].id == id;
          assert list[i + 1].id == id;
        }
      }
      if list[0].id != id {
        var all := [list[0]] + rest;
        assert forall i :: 0 < i < |all| ==> all[i] == rest[i - 1];
      }
    }
  }

  lemma {:induction false} WithoutIsOthers(list: seq<Entry>, i: nat)
    requires UniqueIds(list) && i < |list|
    ensures Without(list, i) == Others(list, list[i].id)
    decreases |list|
  {
    var id := list[i].id;
    if i == 0 {
      assert !Cached(list[1..], id);
      OthersAlone(list[1..], id);
    } else {
      WithoutIsOthers(list[1..], i - 1);
      assert Without(list, i) == [list[0]] + Without(list[1..], i - 1);
    }
  }

  lemma DropMeans(c: Core, id: string)
    requires UniqueIds(c.cache)
    ensures Dropped(c, Drop(c, id), id)
  {
    OthersAlone(c.cache, id);
    if Cached(c.cache, id) {
      var i := Position(c.cache, id);
      WithoutIsOthers(c.cache, i);
      assert c.cache[i] in c.cache;
      forall h ensures ListedFor(c.cache, id, h) <==> h == c.cache[i].handle {
        if ListedFor(c.cache, id, h) {
          var j :| 0 <= j < |c.cache| && c.cache[j] == Entry(id, h);
          assert j == i;
        }
      }
    } else {
      assert forall h :: !ListedFor(c.cache, id, h);
    }
    hide Others, Without, Cached, ListedFor;
  }

  // ---------- The list and its index ----------

  /** The index names exactly the listed entries, each id once. */
  ghost predicate Agrees(list: seq<Entry>, index: map<string, Entry>) {
    && UniqueIds(list)
    && (forall i :: 0 <= i < |list| ==> list[i].id in index && index[list[i].id] == list[i])
    && (forall id :: id in index ==> Cached(list, id))
  }

  lemma UniqueFromAgrees(list: seq<Entry>, index: map<string, Entry>)
    requires Agrees(list, index)
    ensures UniqueIds(list)
  {
  }

  lemma IndexedIffCached(list: seq<Entry>, index: map<string, Entry>, id: string)
    requires Agrees(list, index)
    ensures id in index <==> Cached(list, id)
    ensures id in index ==> index[id] == list[Position(list, id)]
  {
  }

  lemma AgreesMove(list: seq<Entry>, index: map<string, Entry>, i: nat)
    requires Agrees(list, index) && i < |list|
    ensures Agrees(MoveToFront(list, i), index) && |MoveToFront(list, i)| == |list|
  {
    var e := list[i];
    AgreesRemove(list, index, i);
    AgreesPush(Without(list, i), index - {e.id}, e);
    assert (index - {e.id})[e.id := e] == index;
  }

  lemma AgreesPush(list: seq<Entry>, index: map<string, Entry>, e: Entry)
    requires Agrees(list, index) && e.id !in index
    ensures Agrees([e] + list, index[e.id := e])
  {
    var more := [e] + list;
    assert forall j :: 0 <= j < |more| ==> more[j] == if j == 0 then e else list[j - 1];
    forall id | id in index[e.id := e] ensures Cached(more, id) {
      if id != e.id {
        var j :| 0 <= j < |list| && list[j].id == id;
        assert more[j + 1] == list[j];
      } else {
        assert more[0].id == id;
      }
    }
  }

  lemma WithoutAt(list: seq<Entry>, i: nat)
    requires i < |list|
    ensures |Without(list, i)| == |list| - 1
    ensures forall j :: 0 <= j < |list| - 1 ==> Without(list, i)[j] == if j < i then list[j] else list[j + 1]
  {
  }

  lemma AgreesRemove(list: seq<Entry>, index: map<string, Entry>, i: nat)
    requires Agrees(list, index) && i < |list|
    ensures Agrees(Without(list, i), index - {list[i].id})
  {
    var rest := Without(list, i);
    WithoutAt(list, i);
    hide Without;
    forall id | id in index - {list[i].id} ensures Cached(rest, id) {
      var j :| 0 <= j < |list| && list[j].id == id;
      assert rest[if j < i then j else j - 1] == list[j];
    }
  }

  lemma AgreesPop(list: seq<Entry>, index: map<string, Entry>)
    requires Agrees(list, index) && list != []
    ensures Agrees(list[..|list| - 1], index - {list[|list| - 1].id})
  {
    AgreesRemove(list, index, |list| - 1);
    assert Without(list, |list| - 1) == list[..|list| - 1];
  }

  lemma {:induction false} IndexSize(list: seq<Entry>, index: map<string, Entry>)
    requires Agrees(list, index)
    ensures |index| == |list|
    decreases |list|
  {
    if list == [] {
      assert index == map[];
    } else {
      var last := list[|list| - 1];
      AgreesPop(list, index);
      IndexSize(list[..|list| - 1], index - {last.id});
      assert index == (index - {last.id})[last.id := last];
    }
  }

  class Manager {
    const maxOpen: nat
    var cache: seq<Entry>
    var index: map<string, Entry>
    var indexNil: bool
    var loading: map<string, OpId>
    var published: map<OpId, Option<Handle>>
    var nextOp: OpId
    var closed: bool
    ghost var closes: multiset<Handle>

    /** List and index agree; the list may be too long in the middle of an install. */
    ghost predicate Linked()
      reads this
    {
      maxOpen >= 1 && Agrees(cache, index) && (indexNil ==> index == map[])
    }

    /** What holds whenever the mutex is free. */
    ghost predicate Valid()
      reads this
    {
      Linked() && |cache| <= maxOpen
    }

    ghost function State(): Core
      reads this
    {
      Core(cache, indexNil, loading, published, nextOp, closed, closes)
    }

    constructor (maxOpen: nat)
      requires maxOpen >= 1
      ensures Valid() && State() == INITIAL && this.maxOpen == maxOpen
    {
      this.maxOpen := maxOpen;
      cache, index, indexNil := [], map[], false;
      loading, published, nextOp, closed := map[], map[], 0, false;
      closes := multiset{};
    }

    method Begin(id: string) returns (r: Begun)
      requires Valid()
      modifies this
      ensures Valid() && (State(), r) == BeginGet(old(State()), id)
    {
      IndexedIffCached(cache, index, id);
      hide Agrees, Cached, MoveToFront;
      if closed {
        return Shutdown;
      }
      if id in index {
        var i := Position(cache, id);
        AgreesMove(cache, index, i);
        cache := MoveToFront(cache, i);
        return Hit(index[id].handle);
      }
      if id in loading {
        return Wait(loading[id]);
      }
      var op := nextOp;
      nextOp := nextOp + 1;
      loading := loading[id := op];
      return Claimed(op);
    }

    /** A panic, from writing to the nil index, takes the whole process down. */
    method Finish(id: string, op: OpId, result: Option<Handle>) returns (panicked: bool)
      requires Valid()
      modifies this
      ensures panicked <==> result.Some? && old(indexNil)
      ensures !panicked ==> Valid() && State() == FinishGet(old(State()), id, op, result, maxOpen)
    {
      published := published[op := result];
      loading := loading - {id};
      panicked := false;
      if result.Some? {
        panicked := InstallLocked(id, result.value);
      }
    }

    method InstallLocked(id: string, h: Handle) returns (panicked: bool)
      requires Valid()
      modifies this
      ensures panicked <==> old(indexNil)
      ensures !panicked ==> Valid() && State() == Install(old(State()), id, h, maxOpen)
    {
      IndexedIffCached(cache, index, id);
      hide Agrees, Cached, Handles, Evict, MoveToFront;
      EvictFits(State().(cache := [Entry(id, h)] + cache), maxOpen);
      if id in index {
        var i := Position(cache, id);
        AgreesMove(cache, index, i);
        cache := MoveToFront(cache, i);
        closes := closes + multiset{h};
        return false;
      }
      var e := Entry(id, h);
      AgreesPush(cache, index, e);
      cache := [e] + cache;
      if indexNil {
        return true;
      }
      index := index[id := e];
      EvictLocked();
      return false;
    }

    method EvictLocked()
      requires Linked()
      modifies this
      ensures Valid() && State() == Evict(old(State()), maxOpen)
    {
      hide Agrees, Evict, PopLast;
      while |cache| > maxOpen
        invariant Linked()
        invariant Evict(State(), maxOpen) == Evict(old(State()), maxOpen)
        decreases |cache|
      {
        PopThenEvict(State(), maxOpen);
        RemoveTail();
      }
      EvictNothing(State(), maxOpen);
    }

    /** Takes the least recently used entry out of the list and the index, and closes its store. */
    method RemoveTail()
      requires Linked() && cache != []
      modifies this
      ensures Linked() && State() == PopLast(old(State())) && |cache| < |old(cache)|
    {
      hide Agrees;
      var tail := cache[|cache| - 1];
      AgreesPop(cache, index);
      cache := cache[..|cache| - 1];
      index := index - {tail.id};
      closes := closes + multiset{tail.handle};
    }

    method DropId(id: string)
      requires Valid()
      modifies this
      ensures Valid() && State() == Drop(old(State()), id)
      ensures Dropped(old(State()), State(), id)
    {
      UniqueFromAgrees(cache, index);
      DropMeans(State(), id);
      hide Dropped;
      IndexedIffCached(cache, index, id);
      hide Agrees, Cached;
      if id !in index {
        return;
      }
      var i := Position(cache, id);
      var e := index[id];
      AgreesRemove(cache, index, i);
      cache := Without(cache, i);
      index := index - {id};
      closes := closes + multiset{e.handle};
    }

    /** Closes every listed store, front to back. */
    method CloseStores()
      modifies this`closes
      ensures closes == old(closes) + Handles(cache)
    {
      NoHandles();
      hide Handles;
      assert cache[..0] == [];
      for i := 0 to |cache|
        invariant closes == old(closes) + Handles(cache[..i])
      {
        closes := closes + multiset{cache[i].handle};
        HandlesOfPrefix(cache, i);
      }
      assert cache[..|cache|] == cache;
    }

    method CloseAll()
      requires Valid()
      modifies this
      ensures Valid() && State() == Close(old(State()))
    {
      hide Handles;
      if closed {
        return;
      }
      closed := true;
      CloseStores();
      cache, index, indexNil := [], map[], true;
    }

    method Len() returns (n: nat)
      requires Valid()
      ensures n == |cache| == |index| <= maxOpen
    {
      IndexSize(cache, index);
      return |cache|;
    }
  }

  /** A root directory and room for at least one open handle are required. */
  method NewManager(root: string, maxOpen: int) returns (m: Option<Manager>)
    ensures m.Some? <==> root != "" && maxOpen >= 1
    ensures m.Some? ==> fresh(m.value) && m.value.Valid() && m.value.State() == INITIAL && m.value.maxOpen == maxOpen
  {
    if root == "" || maxOpen < 1 {
      return None;
    }
    var manager := new Manager(maxOpen);
    return Some(manager);
  }
}
