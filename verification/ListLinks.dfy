/** The doubly linked priority lists: control blocks with pred and succ links, and a cursor and a count per level. */
module ListLinks {
  import opened LockTables
  import opened ThreadSpec
  import opened ListLemmas

  datatype ControlBlock = ControlBlock(thread: Thread, pred: Ptr, succ: Ptr)
  datatype ThreadPriorityList = ThreadPriorityList(cb: Ptr, count: int)

  type Blocks = map<Ptr, ControlBlock>
  type Lists = seq<ThreadPriorityList>

  function Next(k: nat, n: nat): nat {
    if k + 1 == n then 0 else k + 1
  }

  function Prev(k: nat, n: nat): int {
    if k == 0 then n - 1 else k - 1
  }

  /** succ leads from position k to the next one and pred to the one before. */
  ghost predicate LinkAt(tcb: Blocks, r: seq<Ptr>, k: int) {
    && 0 <= k < |r| && r[k] in tcb && r[k] != NULL
    && tcb[r[k]].succ == r[Next(k, |r|)] && tcb[r[k]].pred == r[Prev(k, |r|)]
  }

  /** The list with this cursor and count runs through r. */
  ghost predicate Circle(tcb: Blocks, list: ThreadPriorityList, r: seq<Ptr>) {
    && list.count == |r|
    && list.cb == (if r == [] then NULL else r[0])
    && forall k :: 0 <= k < |r| ==> LinkAt(tcb, r, k)
  }

  ghost predicate Linked(tcb: Blocks, lists: Lists, rings: Rings) {
    && |lists| == |rings| == MAXPRIORITY
    && (forall i :: 0 <= i < MAXPRIORITY ==> Circle(tcb, lists[i], rings[i]))
    && (forall i :: 0 <= i < MAXPRIORITY ==> NoDuplicates(rings[i]))
    && (forall i, j :: 0 <= i < j < MAXPRIORITY ==> Apart(rings[i], rings[j]))
  }

  predicate Apart(r: seq<Ptr>, r2: seq<Ptr>) {
    forall p :: p in r ==> p !in r2
  }

  function Threads(tcb: Blocks): map<Ptr, Thread> {
    map p | p in tcb :: tcb[p].thread
  }

  /** Writing a field that is not a link leaves every list as it is. */
  lemma StoreKeepsLinks(tcb: Blocks, lists: Lists, rings: Rings, p: Ptr, t: Thread)
    requires Linked(tcb, lists, rings) && p in tcb
    ensures Linked(tcb[p := tcb[p].(thread := t)], lists, rings)
    ensures Threads(tcb[p := tcb[p].(thread := t)]) == Threads(tcb)[p := t]
  {
    var tcb2 := tcb[p := tcb[p].(thread := t)];
    forall i | 0 <= i < MAXPRIORITY ensures Circle(tcb2, lists[i], rings[i]) {
      SameLinksCircle(tcb, tcb2, lists[i], rings[i]);
    }
  }

  /** The links of the members of r are the same in both. */
  ghost predicate SameLinks(tcb: Blocks, tcb2: Blocks, r: seq<Ptr>) {
    forall p :: p in r && p in tcb ==> p in tcb2 && tcb2[p].pred == tcb[p].pred && tcb2[p].succ == tcb[p].succ
  }

  lemma SameLinksCircle(tcb: Blocks, tcb2: Blocks, list: ThreadPriorityList, r: seq<Ptr>)
    requires Circle(tcb, list, r) && SameLinks(tcb, tcb2, r)
    ensures Circle(tcb2, list, r)
  {
    forall k | 0 <= k < |r| ensures LinkAt(tcb2, r, k) {
      assert LinkAt(tcb, r, k) && r[k] in r;
    }
  }

  /** Changing one level and its links, without touching the members of other levels. */
  lemma RelinkLevel(tcb: Blocks, lists: Lists, rings: Rings, tcb2: Blocks, list: ThreadPriorityList, r: seq<Ptr>,
                    i: nat)
    requires Linked(tcb, lists, rings) && i < MAXPRIORITY
    requires Circle(tcb2, list, r) && NoDuplicates(r)
    requires forall j :: 0 <= j < MAXPRIORITY && j != i ==> Apart(rings[j], r) && SameLinks(tcb, tcb2, rings[j])
    ensures Linked(tcb2, lists[i := list], rings[i := r])
  {
    hide Circle;
    hide SameLinks;
    hide NoDuplicates;
    var lists2, rings2 := lists[i := list], rings[i := r];
    forall j | 0 <= j < MAXPRIORITY ensures Circle(tcb2, lists2[j], rings2[j]) {
      if j != i {
        SameLinksCircle(tcb, tcb2, lists[j], rings[j]);
      }
    }
    forall j, k | 0 <= j < k < MAXPRIORITY ensures Apart(rings2[j], rings2[k]) {
      assert j != i && k != i ==> Apart(rings[j], rings[k]);
    }
  }

  lemma TurnAt(tcb: Blocks, r: seq<Ptr>, k: nat, i: nat)
    requires k <= |r| && i < |r| && LinkAt(tcb, r, if i + k < |r| then i + k else i + k - |r|)
    ensures LinkAt(tcb, RotateTo(r, k), i)
  {
    var n, r2 := |r|, RotateTo(r, k);
    assert |r2| == n;
    assert r2[i] == r[if i + k < n then i + k else i + k - n];
    var j := Next(i, n);
    assert r2[j] == r[if j + k < n then j + k else j + k - n];
    var h := Prev(i, n);
    assert r2[h] == r[if h + k < n then h + k else h + k - n];
  }

  /** Moving the cursor to position k turns the list. */
  lemma TurnCircle(tcb: Blocks, list: ThreadPriorityList, r: seq<Ptr>, k: nat)
    requires Circle(tcb, list, r) && k <= |r|
    ensures Circle(tcb, list.(cb := if r == [] then NULL else r[if k == |r| then 0 else k]), RotateTo(r, k))
  {
    forall i | 0 <= i < |r| ensures LinkAt(tcb, RotateTo(r, k), i) {
      assert LinkAt(tcb, r, if i + k < |r| then i + k else i + k - |r|);
      TurnAt(tcb, r, k, i);
    }
  }

  lemma TurnLevel(tcb: Blocks, lists: Lists, rings: Rings, i: nat, k: nat)
    requires Linked(tcb, lists, rings) && i < MAXPRIORITY && k <= |rings[i]|
    ensures Linked(tcb,
                   lists[i := lists[i].(cb := if rings[i] == [] then NULL
                                              else rings[i][if k == |rings[i]| then 0 else k])],
                   rings[i := RotateTo(rings[i], k)])
  {
    TurnCircle(tcb, lists[i], rings[i], k);
    RotateMembers(rings[i], k);
    var r2 := RotateTo(rings[i], k);
    forall j | 0 <= j < MAXPRIORITY && j != i ensures Apart(rings[j], r2) && SameLinks(tcb, tcb, rings[j]) {
      assert if j < i then Apart(rings[j], rings[i]) else Apart(rings[i], rings[j]);
    }
    RelinkLevel(tcb, lists, rings, tcb,
                lists[i].(cb := if rings[i] == [] then NULL else rings[i][if k == |rings[i]| then 0 else k]), r2, i);
  }

  /** Linking t in behind the cursor. */
  ghost predicate LinkedIn(tcb: Blocks, tcb2: Blocks, r: seq<Ptr>, t: Ptr) {
    && t in tcb2 && t !in r && t != NULL
    && (r == [] ==> tcb2[t].pred == t && tcb2[t].succ == t)
    && (r != [] ==>
         && r[0] in tcb && tcb2[t].pred == r[0] && tcb2[t].succ == tcb[r[0]].succ
         && (forall p :: p in r && p in tcb ==> p in tcb2 && tcb2[p].succ == if p == r[0] then t else tcb[p].succ)
         && (forall p :: p in r && p in tcb ==>
              p in tcb2 && tcb2[p].pred == if p == tcb[r[0]].succ then t else tcb[p].pred))
  }

  lemma InsertAt(tcb: Blocks, tcb2: Blocks, r: seq<Ptr>, t: Ptr, k: nat)
    requires r != [] && NoDuplicates(r) && LinkedIn(tcb, tcb2, r, t) && k <= |r|
    requires LinkAt(tcb, r, 0) && LinkAt(tcb, r, if k <= 1 then 0 else k - 1)
    ensures LinkAt(tcb2, InsertRing(r, t), k)
  {
    var n, r2 := |r|, InsertRing(r, t);
    assert |r2| == n + 1 && r2[0] == r[0] && r2[1] == t;
    if k >= 2 {
      assert r2[k] == r[k - 1];
    }
    var j, h := Next(k, n + 1), Prev(k, n + 1);
    assert j >= 2 ==> r2[j] == r[j - 1];
    assert h >= 2 ==> r2[h] == r[h - 1];
    assert r[Next(0, n)] in r && r[0] in r;
  }

  lemma InsertCircle(tcb: Blocks, list: ThreadPriorityList, r: seq<Ptr>, t: Ptr, tcb2: Blocks)
    requires Circle(tcb, list, r) && NoDuplicates(r) && LinkedIn(tcb, tcb2, r, t)
    ensures Circle(tcb2, ThreadPriorityList(if r == [] then t else list.cb, list.count + 1), InsertRing(r, t))
  {
    if r != [] {
      forall k | 0 <= k <= |r| ensures LinkAt(tcb2, InsertRing(r, t), k) {
        assert LinkAt(tcb, r, 0) && LinkAt(tcb, r, if k <= 1 then 0 else k - 1);
        InsertAt(tcb, tcb2, r, t, k);
      }
    } else {
      assert LinkAt(tcb2, [t], 0);
    }
  }

  /** Unlinking t. */
  ghost predicate LinkedOut(tcb: Blocks, tcb2: Blocks, r: seq<Ptr>, t: Ptr) {
    && t in r && t in tcb
    && (forall p :: p in r && p in tcb ==>
         p in tcb2 && tcb2[p].succ == if p == tcb[t].pred then tcb[t].succ else tcb[p].succ)
    && (forall p :: p in r && p in tcb ==>
         p in tcb2 && tcb2[p].pred == if p == tcb[t].succ then tcb[t].pred else tcb[p].pred)
  }

  /** Where the members are after the one at position k of n is gone. */
  function OldIndex(j: nat, k: nat, n: nat): int {
    if k == 0 then (if j == 0 then n - 1 else j) else if j < k then j else j + 1
  }

  lemma CursorRemoved(r: seq<Ptr>, j: nat)
    requires j < |r| - 1
    ensures ([r[|r| - 1]] + r[1..|r| - 1])[j] == r[if j == 0 then |r| - 1 else j]
  {
  }

  lemma OtherRemoved(r: seq<Ptr>, k: nat, j: nat)
    requires k < |r| && j < |r| - 1
    ensures (r[..k] + r[k + 1..])[j] == r[if j < k then j else j + 1]
  {
  }

  lemma RemovedIndex(r: seq<Ptr>, t: Ptr, j: nat)
    requires t in r && j < |r| - 1
    ensures |RemoveRing(r, t)| == |r| - 1 && RemoveRing(r, t)[j] == r[OldIndex(j, IndexIn(r, t), |r|)]
  {
    var k := IndexIn(r, t);
    hide IndexIn;
    if k == 0 {
      CursorRemoved(r, j);
    } else {
      OtherRemoved(r, k, j);
    }
  }

  /** Behind position j comes what came there before, or what came behind the removed member. */
  lemma OldNeighbours(j: nat, k: nat, n: nat)
    requires j < n - 1 && k < n
    ensures 0 <= OldIndex(j, k, n) < n && OldIndex(j, k, n) != k
    ensures OldIndex(Next(j, n - 1), k, n) ==
      if OldIndex(j, k, n) == Prev(k, n) then Next(k, n) else Next(OldIndex(j, k, n), n)
    ensures OldIndex(Prev(j, n - 1), k, n) ==
      if OldIndex(j, k, n) == Next(k, n) then Prev(k, n) else Prev(OldIndex(j, k, n), n)
  {
  }

  lemma RemoveAt(tcb: Blocks, tcb2: Blocks, r: seq<Ptr>, t: Ptr, j: nat)
    requires NoDuplicates(r) && LinkedOut(tcb, tcb2, r, t) && j < |r| - 1
    requires LinkAt(tcb, r, IndexIn(r, t)) && LinkAt(tcb, r, OldIndex(j, IndexIn(r, t), |r|))
    ensures LinkAt(tcb2, RemoveRing(r, t), j)
  {
    hide RemoveRing;
    var n, k, r2 := |r|, IndexIn(r, t), RemoveRing(r, t);
    RemovedIndex(r, t, j);
    RemovedIndex(r, t, Next(j, n - 1));
    RemovedIndex(r, t, Prev(j, n - 1));
    assert r[k] == t;
    hide IndexIn;
    OldNeighbours(j, k, n);
    var o := OldIndex(j, k, n);
    hide OldIndex;
    assert r[o] in r;
    assert r[o] == r[Prev(k, n)] <==> o == Prev(k, n);
    assert r[o] == r[Next(k, n)] <==> o == Next(k, n);
    hide NoDuplicates;
  }

  /** If the cursor is unlinked, its predecessor becomes the cursor. */
  lemma RemoveCircle(tcb: Blocks, list: ThreadPriorityList, r: seq<Ptr>, t: Ptr, tcb2: Blocks)
    requires Circle(tcb, list, r) && NoDuplicates(r) && |r| > 1 && LinkedOut(tcb, tcb2, r, t)
    ensures Circle(tcb2, ThreadPriorityList(if t == list.cb then tcb[t].pred else list.cb, list.count - 1),
                   RemoveRing(r, t))
  {
    var n, k := |r|, IndexIn(r, t);
    assert LinkAt(tcb, r, k);
    RemovedIndex(r, t, 0);
    forall j | 0 <= j < n - 1 ensures LinkAt(tcb2, RemoveRing(r, t), j) {
      assert LinkAt(tcb, r, OldIndex(j, k, n));
      RemoveAt(tcb, tcb2, r, t, j);
    }
  }

  lemma ApartFrom(lists: Lists, tcb: Blocks, rings: Rings, i: nat, j: nat)
    requires Linked(tcb, lists, rings) && i < MAXPRIORITY && j < MAXPRIORITY && i != j
    ensures Apart(rings[j], rings[i]) && Apart(rings[i], rings[j])
  {
    assert if j < i then Apart(rings[j], rings[i]) else Apart(rings[i], rings[j]);
  }

  /** What the links of a listed thread lead to. */
  lemma Listed(tcb: Blocks, lists: Lists, rings: Rings, i: nat, t: Ptr)
    requires Linked(tcb, lists, rings) && i < MAXPRIORITY && t in rings[i] && t in tcb
    ensures lists[i].count == |rings[i]| >= 1 && tcb[t].pred in tcb && tcb[t].succ in tcb
    ensures tcb[t].pred in rings[i] && tcb[t].succ in rings[i]
    ensures |rings[i]| > 1 ==> tcb[t].pred != t && tcb[t].succ != t
    ensures forall j :: 0 <= j < MAXPRIORITY && j != i ==> t !in rings[j]
  {
    var r := rings[i];
    var k := IndexIn(r, t);
    var n := |r|;
    assert Circle(tcb, lists[i], r) && LinkAt(tcb, r, k) && LinkAt(tcb, r, Next(k, n)) && LinkAt(tcb, r, Prev(k, n));
    forall j | 0 <= j < MAXPRIORITY && j != i ensures t !in rings[j] {
      ApartFrom(lists, tcb, rings, i, j);
    }
  }

  /** One level gains t. */
  lemma LinkedInLevel(tcb: Blocks, lists: Lists, rings: Rings, tcb2: Blocks, i: nat, t: Ptr)
    requires Linked(tcb, lists, rings) && i < MAXPRIORITY && t in tcb && tcb2.Keys == tcb.Keys
    requires LinkedIn(tcb, tcb2, rings[i], t) && forall j :: 0 <= j < MAXPRIORITY ==> t !in rings[j]
    requires forall p :: p in tcb2 && p !in rings[i] && p != t ==> tcb2[p] == tcb[p]
    ensures Linked(tcb2,
                   lists[i := ThreadPriorityList(if lists[i].cb == NULL then t else lists[i].cb, lists[i].count + 1)],
                   rings[i := InsertRing(rings[i], t)])
  {
    var r := rings[i];
    assert Circle(tcb, lists[i], r) && (r != [] ==> LinkAt(tcb, r, 0));
    InsertCircle(tcb, lists[i], r, t, tcb2);
    InsertMembers(r, t);
    forall j | 0 <= j < MAXPRIORITY && j != i
      ensures Apart(rings[j], InsertRing(r, t)) && SameLinks(tcb, tcb2, rings[j])
    {
      ApartFrom(lists, tcb, rings, i, j);
    }
    hide Circle;
    hide LinkedIn;
    hide InsertRing;
    RelinkLevel(tcb, lists, rings, tcb2, ThreadPriorityList(if r == [] then t else lists[i].cb, lists[i].count + 1),
                InsertRing(r, t), i);
  }

  /** One level loses t. */
  lemma LinkedOutLevel(tcb: Blocks, lists: Lists, rings: Rings, tcb2: Blocks, i: nat, t: Ptr)
    requires Linked(tcb, lists, rings) && i < MAXPRIORITY && tcb2.Keys == tcb.Keys
    requires LinkedOut(tcb, tcb2, rings[i], t) && |rings[i]| > 1
    requires forall p :: p in tcb2 && p !in rings[i] ==> tcb2[p] == tcb[p]
    ensures Linked(tcb2,
                   lists[i := ThreadPriorityList(if t == lists[i].cb then tcb[t].pred else lists[i].cb,
                                                 lists[i].count - 1)],
                   rings[i := RemoveRing(rings[i], t)])
  {
    var r := rings[i];
    RemoveCircle(tcb, lists[i], r, t, tcb2);
    RemoveMembers(r, t);
    forall j | 0 <= j < MAXPRIORITY && j != i
      ensures Apart(rings[j], RemoveRing(r, t)) && SameLinks(tcb, tcb2, rings[j])
    {
      ApartFrom(lists, tcb, rings, i, j);
    }
    hide Circle;
    hide LinkedOut;
    hide RemoveRing;
    RelinkLevel(tcb, lists, rings, tcb2,
                ThreadPriorityList(if t == lists[i].cb then tcb[t].pred else lists[i].cb, lists[i].count - 1),
                RemoveRing(r, t), i);
  }

  /** The only member of a level goes. */
  lemma RemoveOnly(tcb: Blocks, lists: Lists, rings: Rings, i: nat, t: Ptr)
    requires Linked(tcb, lists, rings) && i < MAXPRIORITY && t in rings[i] && |rings[i]| == 1
    ensures RemoveRing(rings[i], t) == [] && Linked(tcb, lists[i := ThreadPriorityList(NULL, 0)], rings[i := []])
  {
    forall j | 0 <= j < MAXPRIORITY && j != i ensures Apart(rings[j], []) && SameLinks(tcb, tcb, rings[j]) {
    }
    RelinkLevel(tcb, lists, rings, tcb, ThreadPriorityList(NULL, 0), [], i);
  }
}
