/** Every list operation keeps each thread in exactly one list, the one its priority names. */
module ListLemmas {
  import opened LockTables
  import opened ThreadSpec

  lemma InsertMembers(r: seq<Ptr>, t: Ptr)
    requires NoDuplicates(r) && t !in r
    ensures NoDuplicates(InsertRing(r, t))
    ensures forall q :: q in InsertRing(r, t) <==> q == t || q in r
  {
    var r2 := InsertRing(r, t);
    if r != [] {
      assert r2[0] == r[0] && r2[1] == t;
      forall q | q in r ensures q in r2 {
        var k :| 0 <= k < |r| && r[k] == q;
        assert r2[if k == 0 then 0 else k + 1] == q;
      }
      assert forall k :: 2 <= k < |r2| ==> r2[k] == r[k - 1];
    }
  }

  lemma RotateMembers(r: seq<Ptr>, k: nat)
    requires NoDuplicates(r) && k <= |r|
    ensures NoDuplicates(RotateTo(r, k)) && |RotateTo(r, k)| == |r|
    ensures forall q :: q in RotateTo(r, k) <==> q in r
  {
    var r2 := RotateTo(r, k);
    assert forall i :: 0 <= i < |r2| ==> r2[i] == if i < |r| - k then r[i + k] else r[i - (|r| - k)];
    forall q | q in r ensures q in r2 {
      var j :| 0 <= j < |r| && r[j] == q;
      assert r2[if j >= k then j - k else j + (|r| - k)] == q;
    }
  }

  lemma IndexOf(r: seq<Ptr>, k: nat)
    requires NoDuplicates(r) && k < |r|
    ensures IndexIn(r, r[k]) == k
  {
  }

  lemma RemoveMembers(r: seq<Ptr>, t: Ptr)
    requires NoDuplicates(r) && t in r
    ensures NoDuplicates(RemoveRing(r, t)) && |RemoveRing(r, t)| == |r| - 1
    ensures forall q :: q in RemoveRing(r, t) <==> q in r && q != t
  {
    var k := IndexIn(r, t);
    var n := |r|;
    var r2 := RemoveRing(r, t);
    if k == 0 && n > 1 {
      assert forall i :: 0 <= i < n - 1 ==> r2[i] == r[if i == 0 then n - 1 else i];
      forall q | q in r && q != t ensures q in r2 {
        var j :| 0 <= j < n && r[j] == q;
        assert r2[if j == n - 1 then 0 else j] == q;
      }
    } else {
      assert forall i :: 0 <= i < n - 1 ==> r2[i] == r[if i < k then i else i + 1];
      forall q | q in r && q != t ensures q in r2 {
        var j :| 0 <= j < n && r[j] == q;
        assert r2[if j < k then j else j - 1] == q;
      }
    }
  }

  /** Every level but i is as RingsOk says. */
  predicate OthersOk(rings: Rings, threads: map<Ptr, Thread>, i: nat) {
    && |rings| == MAXPRIORITY
    && (forall j :: 0 <= j < MAXPRIORITY && j != i ==> NoDuplicates(rings[j]))
    && (forall j, p :: 0 <= j < MAXPRIORITY && j != i && p in rings[j] ==>
         p in threads && p != NULL && threads[p].priority == j + 1)
    && (forall p :: p in threads && threads[p].priority != i + 1 ==>
          1 <= threads[p].priority <= MAXPRIORITY && p in rings[threads[p].priority - 1])
  }

  /** r is the list of level i. */
  ghost predicate LevelIs(r: seq<Ptr>, threads: map<Ptr, Thread>, i: nat) {
    NoDuplicates(r) && NULL !in r && forall p :: p in r <==> p in threads && threads[p].priority == i + 1
  }

  lemma ReplaceLevel(rings: Rings, threads: map<Ptr, Thread>, i: nat, r: seq<Ptr>)
    requires i < MAXPRIORITY && OthersOk(rings, threads, i) && LevelIs(r, threads, i)
    ensures RingsOk(rings[i := r], threads)
  {
  }

  lemma LevelOf(rings: Rings, threads: map<Ptr, Thread>, i: nat)
    requires RingsOk(rings, threads) && i < MAXPRIORITY
    ensures LevelIs(rings[i], threads, i)
  {
    forall p | p in rings[i] ensures p != NULL {
      assert p in threads;
    }
  }

  /** The threads of the other levels are the same. */
  predicate SameElsewhere(threads: map<Ptr, Thread>, threads2: map<Ptr, Thread>, i: nat) {
    && (forall p :: p in threads && threads[p].priority != i + 1 ==>
         p in threads2 && threads2[p].priority == threads[p].priority)
    && (forall p :: p in threads2 && threads2[p].priority != i + 1 ==>
         p in threads && threads2[p].priority == threads[p].priority)
  }

  lemma OthersStay(rings: Rings, threads: map<Ptr, Thread>, threads2: map<Ptr, Thread>, i: nat)
    requires RingsOk(rings, threads) && i < MAXPRIORITY && SameElsewhere(threads, threads2, i)
    ensures OthersOk(rings, threads2, i)
  {
    forall j, p | 0 <= j < MAXPRIORITY && j != i && p in rings[j]
      ensures p in threads2 && p != NULL && threads2[p].priority == j + 1
    {
      assert p in threads && threads[p].priority == j + 1;
    }
    forall p | p in threads2 && threads2[p].priority != i + 1
      ensures 1 <= threads2[p].priority <= MAXPRIORITY && p in rings[threads2[p].priority - 1]
    {
      assert p in threads;
    }
  }

  lemma InsertKeepsRings(rings: Rings, threads: map<Ptr, Thread>, p: Ptr, t: Thread)
    requires RingsOk(rings, threads) && p !in threads && p != NULL && 1 <= t.priority <= MAXPRIORITY
    ensures |rings| == MAXPRIORITY
    ensures RingsOk(rings[t.priority - 1 := InsertRing(rings[t.priority - 1], p)], threads[p := t])
  {
    hide InsertRing;
    hide OthersOk;
    var i := t.priority - 1;
    OthersStay(rings, threads, threads[p := t], i);
    LevelOf(rings, threads, i);
    hide RingsOk;
    InsertMembers(rings[i], p);
    ReplaceLevel(rings, threads[p := t], i, InsertRing(rings[i], p));
  }

  lemma RemoveKeepsRings(rings: Rings, threads: map<Ptr, Thread>, p: Ptr)
    requires RingsOk(rings, threads) && p in threads
    ensures |rings| == MAXPRIORITY && 1 <= threads[p].priority <= MAXPRIORITY && p in rings[threads[p].priority - 1]
    ensures RingsOk(rings[threads[p].priority - 1 := RemoveRing(rings[threads[p].priority - 1], p)], threads - {p})
  {
    hide RemoveRing;
    hide OthersOk;
    var i := threads[p].priority - 1;
    OthersStay(rings, threads, threads - {p}, i);
    LevelOf(rings, threads, i);
    hide RingsOk;
    RemoveMembers(rings[i], p);
    ReplaceLevel(rings, threads - {p}, i, RemoveRing(rings[i], p));
  }

  lemma RotateKeepsRings(rings: Rings, threads: map<Ptr, Thread>, i: nat, k: nat)
    requires RingsOk(rings, threads) && i < MAXPRIORITY && |rings| == MAXPRIORITY && k <= |rings[i]|
    ensures RingsOk(rings[i := RotateTo(rings[i], k)], threads)
  {
    hide RotateTo;
    hide OthersOk;
    OthersStay(rings, threads, threads, i);
    LevelOf(rings, threads, i);
    hide RingsOk;
    RotateMembers(rings[i], k);
    ReplaceLevel(rings, threads, i, RotateTo(rings[i], k));
  }

  // The search order

  lemma {:induction false} InOrder(rings: Rings, p: Ptr)
    ensures p in Order(rings) <==> exists i :: 0 <= i < |rings| && p in rings[i]
  {
    if rings != [] {
      var n := |rings| - 1;
      InOrder(rings[..n], p);
      if exists i :: 0 <= i < |rings| && p in rings[i] {
        var i :| 0 <= i < |rings| && p in rings[i];
        if i < n {
          assert rings[..n][i] == rings[i];
        }
      }
    }
  }

  /** The search order holds exactly the live threads. */
  lemma OrderIsAll(w: World, p: Ptr)
    requires RingsOk(w.rings, w.threads)
    ensures p in Order(w.rings) <==> p in w.threads
  {
    InOrder(w.rings, p);
  }

  lemma {:induction false} OrderOnce(rings: Rings, threads: map<Ptr, Thread>, n: nat)
    requires RingsOk(rings, threads) && n <= MAXPRIORITY
    ensures NoDuplicates(Order(rings[..n]))
    ensures forall p :: p in Order(rings[..n]) ==> p in threads && threads[p].priority <= n
  {
    if n > 0 {
      assert rings[..n][..n - 1] == rings[..n - 1] && rings[..n][n - 1] == rings[n - 1];
      OrderOnce(rings, threads, n - 1);
      assert forall p :: p in rings[n - 1] ==> threads[p].priority == n;
      JoinedOnce(Order(rings[..n - 1]), rings[n - 1]);
    }
  }

  lemma JoinedOnce(a: seq<Ptr>, b: seq<Ptr>)
    requires NoDuplicates(a) && NoDuplicates(b) && forall p :: p in a ==> p !in b
    ensures NoDuplicates(a + b)
  {
    forall i, j | 0 <= i < j < |a + b| ensures (a + b)[i] != (a + b)[j] {
      if i < |a| <= j {
        assert (a + b)[i] == a[i] && (a + b)[j] == b[j - |a|] && a[i] in a;
        assert b[j - |a|] in b;
      } else if |a| <= i {
        assert (a + b)[i] == b[i - |a|] && (a + b)[j] == b[j - |a|];
      }
    }
  }

  ghost function SumOfCounts(rings: Rings): nat {
    if rings == [] then 0 else SumOfCounts(rings[..|rings| - 1]) + |rings[|rings| - 1]|
  }

  lemma {:induction false} OrderLength(rings: Rings)
    ensures |Order(rings)| == SumOfCounts(rings)
  {
    if rings != [] {
      OrderLength(rings[..|rings| - 1]);
    }
  }

  lemma {:induction false} SizeOfMembers(r: seq<Ptr>, s: set<Ptr>)
    requires NoDuplicates(r) && forall p :: p in r <==> p in s
    ensures |r| == |s|
    decreases |r|
  {
    if r == [] {
      assert s == {};
    } else {
      var n := |r| - 1;
      assert r == r[..n] + [r[n]];
      SizeOfMembers(r[..n], s - {r[n]});
    }
  }

  /** The counts of the levels sum to the number of threads. */
  lemma CountsSumToThreads(rings: Rings, threads: map<Ptr, Thread>)
    requires RingsOk(rings, threads)
    ensures SumOfCounts(rings) == |threads|
  {
    assert rings[..MAXPRIORITY] == rings;
    OrderOnce(rings, threads, MAXPRIORITY);
    OrderLength(rings);
    forall p ensures p in Order(rings) <==> p in threads.Keys {
      InOrder(rings, p);
    }
    SizeOfMembers(Order(rings), threads.Keys);
    assert |threads.Keys| == |threads|;
  }

  lemma {:induction false} FirstForFound(threads: map<Ptr, Thread>, order: seq<Ptr>, st: ThreadState, o: Obj)
    ensures FirstFor(threads, order, st, o).Some? ==>
      var p := FirstFor(threads, order, st, o).value;
      p in order && p in threads && threads[p].state == st && threads[p].waitsFor == Some(o)
    ensures FirstFor(threads, order, st, o).None? ==>
      forall p :: p in order && p in threads ==> !(threads[p].state == st && threads[p].waitsFor == Some(o))
  {
    if order != [] && !(order[0] in threads && threads[order[0]].state == st && threads[order[0]].waitsFor == Some(o)) {
      FirstForFound(threads, order[1..], st, o);
    }
  }

  lemma {:induction false} FirstForConcat(threads: map<Ptr, Thread>, a: seq<Ptr>, b: seq<Ptr>, st: ThreadState, o: Obj)
    ensures FirstFor(threads, a + b, st, o) ==
      if FirstFor(threads, a, st, o).Some? then FirstFor(threads, a, st, o) else FirstFor(threads, b, st, o)
  {
    if a == [] {
      assert a + b == b;
    } else {
      FirstForConcat(threads, a[1..], b, st, o);
      assert (a + b)[1..] == a[1..] + b;
    }
  }

  /** Threads differ in nothing that the monitor and Lock protocols depend on. */
  predicate SameProtocol(threads: map<Ptr, Thread>, threads2: map<Ptr, Thread>) {
    threads2.Keys == threads.Keys && forall p :: p in threads ==>
      threads2[p].state == threads[p].state && threads2[p].waitsFor == threads[p].waitsFor &&
      threads2[p].locks == threads[p].locks
  }

  // Operations of the thread life cycle

  lemma InitialOk(main: Ptr)
    requires main != NULL
    ensures InitialWorld(main).Ok() && InitialWorld(main).threads[main].locks == FreshThread(None, 0).locks
  {
    var rings, threads := InitialWorld(main).rings, InitialWorld(main).threads;
    forall i, p | 0 <= i < MAXPRIORITY && p in rings[i] ensures p == main && i == NORMPRIORITY - 1 {
    }
    assert main in rings[NORMPRIORITY - 1];
  }

  /** The new block in its level. */
  lemma AddOk(w: World, p: Ptr, t: Thread)
    requires w.Ok() && p !in w.threads && p != NULL && 1 <= t.priority <= MAXPRIORITY
    requires |t.locks.objs| == |t.locks.counts| == MAXLOCKEDTHREADOBJECTS
    ensures |w.rings| == MAXPRIORITY
    ensures w.Set(p, t).(rings := w.rings[t.priority - 1 := InsertRing(w.rings[t.priority - 1], p)]).Ok()
  {
    hide RingsOk;
    hide InsertRing;
    InsertKeepsRings(w.rings, w.threads, p, t);
  }

  lemma FreshSizes(obj: Option<Obj>, priority: int)
    ensures var t := FreshThread(obj, priority);
      t.priority == priority && |t.locks.objs| == |t.locks.counts| == MAXLOCKEDTHREADOBJECTS
  {
  }

  lemma CreateKeepsOk(w: World, p: Ptr, obj: Obj, priority: int)
    requires w.Ok() && p !in w.threads && p != NULL && 1 <= priority <= MAXPRIORITY
    ensures Create(w, p, obj, priority).Ok? ==> Create(w, p, obj, priority).world.Ok()
  {
    hide RingsOk;
    hide InsertRing;
    hide Insert;
    hide FreshThread;
    var t := FreshThread(Some(obj), priority);
    FreshSizes(Some(obj), priority);
    AddOk(w, p, t);
    InsertOk(w.Set(p, t), p);
  }

  /** Putting a control block into its level, and cutting the slice of a current thread of lower priority. */
  lemma InsertOk(w: World, p: Ptr)
    requires p in w.threads && w.current in w.threads && |w.rings| == MAXPRIORITY
    requires 1 <= w.threads[p].priority <= MAXPRIORITY
    requires w.(rings := w.rings[w.threads[p].priority - 1 := InsertRing(w.rings[w.threads[p].priority - 1], p)]).Ok()
    ensures Insert(w, p).Ok() && Insert(w, p).threads.Keys == w.threads.Keys && Insert(w, p).current == w.current
    ensures forall q :: q in w.threads ==>
      Insert(w, p).threads[q] == w.threads[q].(numTicks := Insert(w, p).threads[q].numTicks)
  {
    hide RingsOk;
    hide InsertRing;
    var w1 := w.(rings := w.rings[w.threads[p].priority - 1 := InsertRing(w.rings[w.threads[p].priority - 1], p)]);
    SetKeepsOk(w1, w.current, w1.threads[w.current].(numTicks := 0));
  }

  lemma DeleteKeepsOk(w: World)
    requires w.Ok() && |w.threads| > 1
    ensures Delete(w).Ok() && Delete(w).threads == w.threads - {w.current}
    ensures Delete(w).rings[Delete(w).threads[Delete(w).current].priority - 1][0] == Delete(w).current
    ensures forall p :: p in Delete(w).threads ==> w.threads[p].priority <= w.threads[Delete(w).current].priority
  {
    hide RingsOk;
    hide RemoveRing;
    var prio := w.threads[w.current].priority - 1;
    ListedNotNull(w.rings, w.threads, w.current);
    RemoveKeepsRings(w.rings, w.threads, w.current);
    var p := AnotherThread(w.threads, w.current);
    TopOk(w.rings[prio := RemoveRing(w.rings[prio], w.current)], w.threads - {w.current}, p);
  }

  lemma AnotherThread(threads: map<Ptr, Thread>, c: Ptr) returns (p: Ptr)
    requires |threads| > 1
    ensures p in threads - {c}
  {
    assert (threads - {c}).Keys == threads.Keys - {c} && |threads.Keys - {c}| >= |threads.Keys| - 1;
    p :| p in threads.Keys - {c};
  }

  /** With a thread left, the downward search stops at a level that has one, and no thread is above it. */
  lemma TopOk(rings: Rings, threads: map<Ptr, Thread>, p: Ptr)
    requires RingsOk(rings, threads) && p in threads
    ensures var top := TopLevel(rings, MAXPRIORITY);
      && 0 <= top && rings[top] != [] && rings[top][0] in threads && threads[rings[top][0]].priority == top + 1
      && forall q :: q in threads ==> threads[q].priority <= top + 1
  {
    var top := TopLevel(rings, MAXPRIORITY);
    assert p in rings[threads[p].priority - 1];
    assert rings[top][0] in rings[top];
    forall q | q in threads ensures threads[q].priority <= top + 1 {
      assert q in rings[threads[q].priority - 1];
    }
  }

  lemma {:induction false} FindObjFound(threads: map<Ptr, Thread>, r: seq<Ptr>, obj: Obj)
    ensures FindObj(threads, r, obj).None? ==> forall p :: p in r && p in threads ==> threads[p].obj != Some(obj)
    ensures FindObj(threads, r, obj).Some? ==>
      forall k :: 0 <= k < FindObj(threads, r, obj).value && r[k] in threads ==> threads[r[k]].obj != Some(obj)
  {
    if r != [] && !(r[0] in threads && threads[r[0]].obj == Some(obj)) {
      FindObjFound(threads, r[1..], obj);
      assert forall k :: 0 < k < |r| ==> r[k] == r[1..][k - 1];
    }
  }

  lemma {:induction false} FindLevelFound(w: World, obj: Obj, i: nat)
    requires RingsOk(w.rings, w.threads) && i <= MAXPRIORITY
    ensures FindLevel(w, obj, i).Some? ==>
      var (j, k) := FindLevel(w, obj, i).value;
      && w.rings[j][k] in w.threads && w.threads[w.rings[j][k]].obj == Some(obj)
      && w.threads[w.rings[j][k]].priority == j + 1
    ensures FindLevel(w, obj, i).None? ==>
      forall p :: p in w.threads && w.threads[p].priority > i ==> w.threads[p].obj != Some(obj)
    decreases MAXPRIORITY - i
  {
    if i < MAXPRIORITY {
      FindObjFound(w.threads, w.rings[i], obj);
      FindLevelFound(w, obj, i + 1);
    }
  }

  /** findThreadCB finds the thread of obj whenever there is one, and turns one list only. */
  lemma FindThreadFound(w: World, obj: Obj)
    requires w.Ok()
    ensures FindThread(w, obj).None? <==> forall p :: p in w.threads ==> w.threads[p].obj != Some(obj)
    ensures FindThread(w, obj).Some? ==>
      var (w1, p) := FindThread(w, obj).value;
      && p in w.threads && w.threads[p].obj == Some(obj)
      && w1 == w.(rings := w1.rings) && RingsOk(w1.rings, w.threads)
      && w1.rings[w.threads[p].priority - 1][0] == p
  {
    FindLevelFound(w, obj, 0);
    match FindLevel(w, obj, 0) {
      case None =>
      case Some(at) =>
        assert w.rings[at.0][at.1] in w.rings[at.0];
        RotateKeepsRings(w.rings, w.threads, at.0, at.1);
    }
  }

  lemma SetPriorityKeepsOk(w: World, obj: Obj, newPrio: int)
    requires w.Ok() && 1 <= newPrio <= MAXPRIORITY
    ensures SetPriority(w, obj, newPrio).Ok? ==>
      var w2 := SetPriority(w, obj, newPrio).world;
      w2.Ok() && SameProtocol(w.threads, w2.threads) && w2.blocked == w.blocked && w2.current == w.current
    ensures SetPriority(w, obj, newPrio) == Halted(ThreadNotFound) <==>
      forall p :: p in w.threads ==> w.threads[p].obj != Some(obj)
  {
    hide RingsOk;
    hide RemoveRing;
    hide InsertRing;
    hide FindThread;
    FindThreadFound(w, obj);
    if FindThread(w, obj).Some? {
      var (w1, p) := FindThread(w, obj).value;
      ListedNotNull(w1.rings, w1.threads, p);
      if newPrio != w.threads[p].priority {
        MoveOk(w1, p, newPrio);
        MoveEffect(Remove(w1, p), SetPriority(w, obj, newPrio).world, p, newPrio);
      }
    }
  }

  /** Taking a thread out of its level and putting it into another. */
  lemma MoveOk(w: World, p: Ptr, newPrio: int)
    requires w.Ok() && p in w.threads && 1 <= newPrio <= MAXPRIORITY
    ensures var w2 := Remove(w, p);
      var w3 := w2.Set(p, w2.threads[p].(priority := newPrio));
      && w3.current in w3.threads && Insert(w3, p).Ok()
  {
    hide RemoveRing;
    hide InsertRing;
    hide RingsOk;
    ListedNotNull(w.rings, w.threads, p);
    RemoveKeepsRings(w.rings, w.threads, p);
    var w2 := Remove(w, p);
    var t := w.threads[p].(priority := newPrio);
    InsertKeepsRings(w2.rings, w.threads - {p}, p, t);
    assert (w.threads - {p})[p := t] == w.threads[p := t];
    InsertOk(w2.Set(p, t), p);
  }

  lemma MoveEffect(w: World, w1: World, p: Ptr, newPrio: int)
    requires p in w.threads && w.current in w.threads && |w.rings| == MAXPRIORITY && 1 <= newPrio <= MAXPRIORITY
    requires w1 == Insert(w.Set(p, w.threads[p].(priority := newPrio)), p)
    ensures SameProtocol(w.threads, w1.threads) && w1.blocked == w.blocked && w1.current == w.current
  {
    hide RingsOk;
    hide InsertRing;
    assert w1.threads.Keys == w.threads.Keys;
  }

  lemma ListedNotNull(rings: Rings, threads: map<Ptr, Thread>, p: Ptr)
    requires RingsOk(rings, threads) && p in threads
    ensures p != NULL && |rings| == MAXPRIORITY && 1 <= threads[p].priority <= MAXPRIORITY
    ensures p in rings[threads[p].priority - 1]
  {
    assert p in rings[threads[p].priority - 1];
  }

  lemma DispatchKeepsOk(w: World, p: Ptr)
    requires w.Ok() && p in w.threads
    ensures Dispatch(w, p).Ok() && Dispatch(w, p).current == p && Dispatch(w, p).threads.Keys == w.threads.Keys
    ensures p != w.current ==> Dispatch(w, p).rings[w.threads[p].priority - 1][0] == p
  {
    hide RingsOk;
    hide RotateTo;
    var t := w.threads[p];
    ListedNotNull(w.rings, w.threads, p);
    SetKeepsOk(w, p, t.(numTicks := t.priority));
    if p != w.current {
      var r := w.rings[t.priority - 1];
      RotateKeepsRings(w.rings, w.Set(p, t.(numTicks := t.priority)).threads, t.priority - 1, IndexIn(r, p));
      CursorAfter(r, p);
    }
  }

  lemma CursorAfter(r: seq<Ptr>, p: Ptr)
    requires p in r
    ensures RotateTo(r, IndexIn(r, p)) != [] && RotateTo(r, IndexIn(r, p))[0] == p
  {
  }
}
