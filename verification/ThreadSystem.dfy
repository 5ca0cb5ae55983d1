/** Control blocks, priority lists and mutex bits as the virtual machine keeps them, updated in place.

A pointer to a control block is a key of `tcb`; `blocked` collects the objects whose mutex bit is BLOCKED.
Every method is proved against the operation of the same name in ThreadSpec.
*/
module ThreadSystems {
  import opened LockTables
  import opened ThreadSpec
  import opened ListLemmas
  import opened ListLinks
  import opened Words

  class ThreadSystem {
    var tcb: Blocks
    var threadPriorities: Lists
    var currentThreadCB: Ptr
    var numThreads: int
    var blocked: set<Obj>
    ghost var rings: Rings

    ghost function Abs(): World
      reads this
    {
      World(rings, Threads(tcb), currentThreadCB, blocked)
    }

    ghost predicate Valid()
      reads this
    {
      Linked(tcb, threadPriorities, rings) && numThreads == |tcb| && Abs().Ok()
    }

    /** The outcome of an operation is r: its new world, or its reason to stop the machine. */
    ghost predicate Agrees(r: Result, halt: Option<Halt>)
      reads this
    {
      match r
      case Ok(w) => halt == None && Valid() && Abs() == w
      case Halted(why) => halt == Some(why)
    }

    static predicate HasTable(t: Thread) {
      |t.locks.objs| == |t.locks.counts| == MAXLOCKEDTHREADOBJECTS
    }

    /** Writes fields of control block p that are not links. */
    method Store(p: Ptr, t: Thread)
      requires Linked(tcb, threadPriorities, rings) && p in tcb
      modifies this`tcb
      ensures Linked(tcb, threadPriorities, rings) && Abs() == old(Abs()).Set(p, t)
      ensures tcb == old(tcb[p := tcb[p].(thread := t)])
      ensures old(Valid()) && t.priority == old(tcb[p].thread.priority) && HasTable(t) ==> Valid()
    {
      hide RingsOk;
      hide Linked;
      StoreKeepsLinks(tcb, threadPriorities, rings, p, t);
      if Valid() && t.priority == tcb[p].thread.priority && HasTable(t) {
        SetKeepsOk(Abs(), p, t);
      }
      tcb := tcb[p := tcb[p].(thread := t)];
      assert |tcb.Keys| == |old(tcb).Keys|;
    }

    // Searching

    /** The walk along the levels that notifyThread and awakeThreadFromMutex share. */
    method FirstWith(st: ThreadState, o: Obj) returns (found: Option<Ptr>)
      requires Valid()
      ensures found == FirstFor(Abs().threads, Order(rings), st, o)
      ensures found.Some? ==> found.value in tcb
    {
      NothingSearched(Abs().threads, rings, st, o);
      hide RingsOk;
      hide NoDuplicates;
      hide Apart;
      hide FirstFor;
      hide Order;
      var i := 0;
      while i < MAXPRIORITY
        invariant 0 <= i <= MAXPRIORITY && FirstFor(Abs().threads, Order(rings[..i]), st, o).None?
      {
        var max := threadPriorities[i].count;
        var cb := threadPriorities[i].cb;
        var k := 0;
        assert Circle(tcb, threadPriorities[i], rings[i]);
        assert rings[i][..0] == [] && Order(rings[..i]) + [] == Order(rings[..i]);
        while k < max
          invariant 0 <= k <= max == |rings[i]|
          invariant max > 0 ==> cb == rings[i][if k == max then 0 else k]
          invariant FirstFor(Abs().threads, Order(rings[..i]) + rings[i][..k], st, o).None?
        {
          assert LinkAt(tcb, rings[i], k);
          if tcb[cb].thread.state == st && tcb[cb].thread.waitsFor == Some(o) {
            FoundAt(Abs().threads, rings, i, k, st, o);
            return Some(cb);
          }
          NotFoundAt(Abs().threads, rings, i, k, st, o);
          cb := tcb[cb].succ;
          k := k + 1;
        }
        assert rings[i][..max] == rings[i];
        LevelDone(rings, i);
        i := i + 1;
      }
      assert rings[..MAXPRIORITY] == rings;
      return None;
    }

    method NotifyThread(o: Obj) returns (halt: Option<Halt>)
      requires Valid()
      modifies this`tcb
      ensures Agrees(Notify(old(Abs()), o), halt)
    {
      if o !in blocked {
        return Some(NotOwned);
      }
      var found := FirstWith(WaitBlocked, o);
      if found.Some? {
        Store(found.value, tcb[found.value].thread.(state := WaitAwakened));
      }
      return None;
    }

    /** The body of the loops over all threads in notifyAll, nativeWait and the return opcodes. */
    method UpdateOne(awaken: bool, o: Obj, cb: Ptr)
      requires Valid() && cb in tcb
      modifies this`tcb
      ensures Valid() && tcb.Keys == old(tcb.Keys)
      ensures Threads(tcb) == old(Threads(tcb))[cb := Updated(awaken, old(tcb[cb].thread), o)]
    {
      hide RingsOk;
      hide Linked;
      TableSizes(Abs(), cb);
      if awaken {
        if tcb[cb].thread.state == WaitBlocked && tcb[cb].thread.waitsFor == Some(o) {
          Store(cb, tcb[cb].thread.(state := WaitAwakened));
        }
      } else {
        if tcb[cb].thread.waitsFor == Some(o) && tcb[cb].thread.state == MutexBlocked {
          Store(cb, tcb[cb].thread.(state := NotBlocked, waitsFor := None));
        }
      }
    }

    /** The inner loop, over one level. */
    method UpdateLevel(awaken: bool, o: Obj, i: nat, ghost was: map<Ptr, Thread>, ghost visited: set<Ptr>)
      requires Valid() && i < MAXPRIORITY && Visited(was, Threads(tcb), visited, awaken, o)
      modifies this`tcb
      ensures Valid() && Visited(was, Threads(tcb), visited + Members(rings[i]), awaken, o)
    {
      hide RingsOk;
      hide Linked;
      LevelAt(i);
      var max := threadPriorities[i].count;
      var cb := threadPriorities[i].cb;
      var k := 0;
      assert visited + Members(rings[i][..0]) == visited;
      while k < max
        invariant 0 <= k <= max == |rings[i]| && Valid() && |rings| == MAXPRIORITY
        invariant max > 0 ==> cb == rings[i][if k == max then 0 else k]
        invariant Visited(was, Threads(tcb), visited + Members(rings[i][..k]), awaken, o)
      {
        LinkOf(i, k);
        ghost var before := Threads(tcb);
        UpdateOne(awaken, o, cb);
        VisitStep(was, before, Threads(tcb), visited, rings[i], k, awaken, o);
        LinkOf(i, k);
        cb := tcb[cb].succ;
        k := k + 1;
      }
      assert rings[i][..max] == rings[i];
    }

    /** The outer loop, over all levels. */
    method UpdateAll(awaken: bool, o: Obj)
      requires Valid()
      modifies this`tcb
      ensures Valid()
      ensures Abs() ==
        old(Abs()).(threads := if awaken then AwakenAll(old(Abs()).threads, o) else WakeAll(old(Abs()).threads, o))
    {
      ghost var was := Threads(tcb);
      ghost var visited: set<Ptr> := {};
      hide RingsOk;
      hide Linked;
      var i := 0;
      LevelAt(0);
      while i < MAXPRIORITY
        invariant 0 <= i <= MAXPRIORITY && Valid() && |rings| == MAXPRIORITY
        invariant Visited(was, Threads(tcb), visited, awaken, o)
        invariant forall j :: 0 <= j < i ==> Members(rings[j]) <= visited
      {
        UpdateLevel(awaken, o, i, was, visited);
        visited := visited + Members(rings[i]);
        i := i + 1;
      }
      EveryoneListed(Abs(), visited);
    }

    method NotifyAll(o: Obj) returns (halt: Option<Halt>)
      requires Valid()
      modifies this`tcb
      ensures Agrees(ThreadSpec.NotifyAll(old(Abs()), o), halt)
    {
      if o !in blocked {
        return Some(NotOwned);
      }
      UpdateAll(true, o);
      return None;
    }

    /** nativeWait: frees the mutex, wakes the threads blocked on it and lets the running thread wait. */
    method NativeWait(o: Obj) returns (halt: Option<Halt>)
      requires Valid()
      modifies this`tcb, this`blocked
      ensures Agrees(ThreadSpec.NativeWait(old(Abs()), o), halt)
    {
      hide RingsOk;
      hide Linked;
      if o !in blocked {
        return Some(NotOwned);
      }
      blocked := blocked - {o};
      UpdateAll(false, o);
      TableSizes(Abs(), currentThreadCB);
      Store(currentThreadCB, tcb[currentThreadCB].thread.(waitsFor := Some(o), state := WaitBlocked));
      return None;
    }

    /** The first table entry of thread p equal to e, or the size of the table. */
    method FindEntry(p: Ptr, e: Option<Obj>) returns (i: nat)
      requires Valid() && p in tcb
      ensures i == tcb[p].thread.locks.Find(e)
    {
      hide RingsOk;
      hide Linked;
      TableSizes(Abs(), p);
      i := 0;
      while i < MAXLOCKEDTHREADOBJECTS
        invariant 0 <= i <= MAXLOCKEDTHREADOBJECTS
        invariant forall j :: 0 <= j < i ==> tcb[p].thread.locks.objs[j] != e
      {
        if tcb[p].thread.locks.objs[i] == e {
          return;
        }
        i := i + 1;
      }
    }

    /** The synchronized part of the invoke opcodes; `entered` tells whether the call goes ahead. */
    method SyncEnter(o: Obj) returns (halt: Option<Halt>, entered: bool)
      requires Valid()
      modifies this`tcb, this`blocked
      ensures Agrees(ThreadSpec.SyncEnter(old(Abs()), o).0, halt) && entered == ThreadSpec.SyncEnter(old(Abs()), o).1
    {
      hide RingsOk;
      hide Linked;
      var me := currentThreadCB;
      var t := tcb[me].thread;
      TableSizes(Abs(), me);
      if o !in blocked {
        var i := FindEntry(me, None);
        if i == MAXLOCKEDTHREADOBJECTS {
          return Some(TooManyLocks), false;
        }
        blocked := blocked + {o};
        Store(me, t.(waitsFor := None, locks := LockTable(t.locks.objs[i := Some(o)], t.locks.counts[i := 1])));
        return None, true;
      }
      var i := FindEntry(me, Some(o));
      if i == MAXLOCKEDTHREADOBJECTS {
        Store(me, t.(state := MutexBlocked, waitsFor := Some(o)));
        return None, false;
      }
      Store(me, t.(locks := LockTable(t.locks.objs, t.locks.counts[i := (t.locks.counts[i] + 1) % 0x100])));
      return None, true;
    }

    /** The synchronized part of the return opcodes. */
    method SyncExit(o: Obj)
      requires Valid() && tcb[currentThreadCB].thread.locks.Holds(o)
      modifies this`tcb, this`blocked
      ensures Valid() && Abs() == ThreadSpec.SyncExit(old(Abs()), o)
    {
      hide RingsOk;
      hide Linked;
      var me := currentThreadCB;
      var t := tcb[me].thread;
      TableSizes(Abs(), me);
      var i := FindEntry(me, Some(o));
      if t.locks.counts[i] > 1 {
        Store(me, t.(locks := LockTable(t.locks.objs, t.locks.counts[i := (t.locks.counts[i] - 1) % 0x100])));
      } else {
        Store(me, t.(waitsFor := None, locks := LockTable(t.locks.objs[i := None], t.locks.counts[i := 0])));
        blocked := blocked - {o};
        UpdateAll(false, o);
      }
    }

    /** setMutexOnObject, which a Lock uses: not reentrant. */
    method SetMutexOnObject(p: Ptr, o: Obj) returns (halt: Option<Halt>)
      requires Valid() && p in tcb
      modifies this`tcb, this`blocked
      ensures Agrees(SetMutex(old(Abs()), p, o), halt)
    {
      hide RingsOk;
      hide Linked;
      var t := tcb[p].thread;
      TableSizes(Abs(), p);
      if o !in blocked {
        var i := FindEntry(p, None);
        if i == MAXLOCKEDTHREADOBJECTS {
          return Some(TooManyLocks);
        }
        blocked := blocked + {o};
        Store(p, t.(waitsFor := None, locks := LockTable(t.locks.objs[i := Some(o)], t.locks.counts[i := 1])));
      } else {
        Store(p, t.(state := MutexBlocked, waitsFor := Some(o), numTicks := 0));
      }
      return None;
    }

    method AwakeThreadFromMutex(o: Obj) returns (halt: Option<Halt>)
      requires Valid()
      modifies this`tcb, this`blocked
      ensures Agrees(AwakeFromMutex(old(Abs()), o), halt)
    {
      hide RingsOk;
      hide Linked;
      hide FirstFor;
      var found := FirstWith(MutexBlocked, o);
      if found == None {
        return None;
      }
      TableSizes(Abs(), found.value);
      Store(found.value, tcb[found.value].thread.(state := NotBlocked));
      halt := SetMutexOnObject(found.value, o);
    }

    /** releaseMutexOnObject when no successor is given. */
    method ReleaseMutexOnObject(p: Ptr, o: Obj) returns (halt: Option<Halt>)
      requires Valid() && p in tcb
      modifies this`tcb, this`blocked
      ensures Agrees(ReleaseMutex(old(Abs()), p, o), halt)
    {
      hide RingsOk;
      hide Linked;
      hide AwakeFromMutex;
      if o !in blocked {
        return None;
      }
      var t := tcb[p].thread;
      TableSizes(Abs(), p);
      var i := FindEntry(p, Some(o));
      if i == MAXLOCKEDTHREADOBJECTS {
        return Some(UnlockException);
      }
      var count := (t.locks.counts[i] - 1) % 0x100;
      if count != 0 {
        Store(p, t.(locks := LockTable(t.locks.objs, t.locks.counts[i := count])));
        return None;
      }
      Store(p, t.(locks := LockTable(t.locks.objs[i := None], t.locks.counts[i := 0])));
      blocked := blocked - {o};
      halt := AwakeThreadFromMutex(o);
    }

    /** tryLock; the result is what it pushes on the operand stack. */
    method TryLock(o: Obj) returns (halt: Option<Halt>, got: bool)
      requires Valid()
      modifies this`tcb, this`blocked
      ensures Agrees(ThreadSpec.TryLock(old(Abs()), o).0, halt) && got == ThreadSpec.TryLock(old(Abs()), o).1
      ensures got <==> o !in old(blocked)
    {
      if o in blocked {
        return None, false;
      }
      halt := SetMutexOnObject(currentThreadCB, o);
      got := true;
    }

    method YieldThread()
      requires Valid()
      modifies this`tcb
      ensures Valid() && Abs() == Yield(old(Abs()))
    {
      hide RingsOk;
      hide Linked;
      TableSizes(Abs(), currentThreadCB);
      Store(currentThreadCB, tcb[currentThreadCB].thread.(numTicks := 0));
    }

    // The lists

    method SetPred(p: Ptr, q: Ptr)
      requires p in tcb
      modifies this`tcb
      ensures tcb == old(tcb)[p := old(tcb)[p].(pred := q)]
    {
      tcb := tcb[p := tcb[p].(pred := q)];
    }

    method SetSucc(p: Ptr, q: Ptr)
      requires p in tcb
      modifies this`tcb
      ensures tcb == old(tcb)[p := old(tcb)[p].(succ := q)]
    {
      tcb := tcb[p := tcb[p].(succ := q)];
    }

    /** The pointer writes that put t behind pos, the cursor of the list r. */
    method WriteLinksIn(t: Ptr, pos: Ptr, ghost r: seq<Ptr>)
      requires t in tcb && t != NULL && t !in r && (pos == NULL <==> r == [])
      requires r != [] ==> pos == r[0] && pos in tcb && tcb[pos].succ in tcb && tcb[pos].succ in r
      modifies this`tcb
      ensures tcb.Keys == old(tcb.Keys) && Threads(tcb) == old(Threads(tcb)) && LinkedIn(old(tcb), tcb, r, t)
      ensures forall p :: p in tcb && p !in r && p != t ==> tcb[p] == old(tcb)[p]
    {
      if pos == NULL {
        SetPred(t, t);
        SetSucc(t, t);
      } else {
        SetPred(t, pos);
        SetSucc(t, tcb[pos].succ);
        SetSucc(pos, t);
        SetPred(tcb[t].succ, t);
      }
    }

    /** Links t in behind the cursor of level prio. */
    method LinkIn(t: Ptr, prio: nat)
      requires Linked(tcb, threadPriorities, rings) && t in tcb && t != NULL && prio < MAXPRIORITY
      requires forall j :: 0 <= j < MAXPRIORITY ==> t !in rings[j]
      modifies this`tcb, this`threadPriorities, this`rings
      ensures Linked(tcb, threadPriorities, rings) && rings == old(rings)[prio := InsertRing(old(rings)[prio], t)]
      ensures tcb.Keys == old(tcb.Keys) && Threads(tcb) == old(Threads(tcb))
    {
      ghost var was, r := tcb, rings[prio];
      var pos := threadPriorities[prio].cb;
      assert Circle(tcb, threadPriorities[prio], r);
      assert r != [] ==> LinkAt(tcb, r, 0) && LinkAt(tcb, r, Next(0, |r|));
      WriteLinksIn(t, pos, r);
      LinkedInLevel(was, threadPriorities, rings, tcb, prio, t);
      var list := ThreadPriorityList(if pos == NULL then t else pos, threadPriorities[prio].count + 1);
      threadPriorities := threadPriorities[prio := list];
      rings := rings[prio := InsertRing(r, t)];
    }

    /** insertThreadIntoPriorityList. */
    method InsertThread(t: Ptr)
      requires Linked(tcb, threadPriorities, rings) && t in tcb && t != NULL && currentThreadCB in tcb
      requires 1 <= tcb[t].thread.priority <= MAXPRIORITY && forall j :: 0 <= j < MAXPRIORITY ==> t !in rings[j]
      modifies this`tcb, this`threadPriorities, this`rings
      ensures Linked(tcb, threadPriorities, rings) && |tcb| == |old(tcb)|
      ensures |old(rings)| == MAXPRIORITY && Abs() == Insert(old(Abs()), t)
    {
      var prio := tcb[t].thread.priority - 1;
      ghost var w := Abs();
      LinkIn(t, prio);
      assert Threads(tcb)[t] == w.threads[t] && Threads(tcb)[currentThreadCB] == w.threads[currentThreadCB];
      hide Linked;
      if tcb[currentThreadCB].thread.priority - 1 < prio {
        Store(currentThreadCB, tcb[currentThreadCB].thread.(numTicks := 0));
      }
      assert |tcb.Keys| == |old(tcb).Keys|;
    }

    /** The pointer writes that take t out. */
    method WriteLinksOut(t: Ptr, ghost r: seq<Ptr>)
      requires t in r && t in tcb && tcb[t].pred in tcb && tcb[t].succ in tcb && tcb[t].pred in r && tcb[t].succ in r
      requires tcb[t].pred != t
      requires tcb[t].succ != t
      modifies this`tcb
      ensures tcb.Keys == old(tcb.Keys) && Threads(tcb) == old(Threads(tcb)) && LinkedOut(old(tcb), tcb, r, t)
      ensures forall p :: p in tcb && p !in r ==> tcb[p] == old(tcb)[p]
      ensures tcb[t] == old(tcb)[t]
    {
      SetSucc(tcb[t].pred, tcb[t].succ);
      SetPred(tcb[t].succ, tcb[t].pred);
    }

    /** Takes t out of level prio; if it was the cursor, its predecessor becomes the cursor. */
    method LinkOut(t: Ptr, prio: nat)
      requires Linked(tcb, threadPriorities, rings) && t in tcb && prio < MAXPRIORITY && t in rings[prio]
      modifies this`tcb, this`threadPriorities, this`rings
      ensures Linked(tcb, threadPriorities, rings) && rings == old(rings)[prio := RemoveRing(old(rings)[prio], t)]
      ensures tcb.Keys == old(tcb.Keys) && Threads(tcb) == old(Threads(tcb))
    {
      ghost var was, r := tcb, rings[prio];
      var list := threadPriorities[prio];
      Listed(tcb, threadPriorities, rings, prio, t);
      hide Linked;
      hide RemoveRing;
      if list.count == 1 {
        RemoveOnly(tcb, threadPriorities, rings, prio, t);
        threadPriorities := threadPriorities[prio := ThreadPriorityList(NULL, 0)];
      } else {
        WriteLinksOut(t, r);
        LinkedOutLevel(was, threadPriorities, rings, tcb, prio, t);
        var shorter := ThreadPriorityList(if t == list.cb then tcb[t].pred else list.cb, list.count - 1);
        threadPriorities := threadPriorities[prio := shorter];
      }
      rings := rings[prio := RemoveRing(r, t)];
    }

    /** removeThreadFromPriorityList. */
    method RemoveThread(t: Ptr)
      requires Linked(tcb, threadPriorities, rings) && t in tcb && 1 <= tcb[t].thread.priority <= MAXPRIORITY
      requires t in rings[tcb[t].thread.priority - 1]
      modifies this`tcb, this`threadPriorities, this`rings
      ensures Linked(tcb, threadPriorities, rings) && tcb.Keys == old(tcb.Keys)
      ensures Abs() == Remove(old(Abs()), t)
      ensures forall j :: 0 <= j < MAXPRIORITY ==> t !in rings[j]
    {
      var prio := tcb[t].thread.priority - 1;
      Listed(tcb, threadPriorities, rings, prio, t);
      RemoveMembers(rings[prio], t);
      hide RemoveRing;
      LinkOut(t, prio);
      assert t !in rings[prio];
      hide Linked;
    }

    /** findThreadCB: the search turns the lists it goes through, and stops with the cursor on the thread found. */
    method FindThreadCB(obj: Obj) returns (found: Option<Ptr>)
      requires Valid()
      modifies this`threadPriorities, this`rings
      ensures Valid()
      ensures match FindThread(old(Abs()), obj)
        case None => found == None && Abs() == old(Abs())
        case Some(f) => found == Some(f.1) && Abs() == f.0
    {
      hide RingsOk;
      hide Linked;
      ghost var w := Abs();
      ghost var was := rings;
      LevelAt(0);
      var i := 0;
      while i < MAXPRIORITY
        invariant 0 <= i <= MAXPRIORITY && Valid() && Abs() == w && |rings| == |threadPriorities| == MAXPRIORITY
        invariant FindLevel(w, obj, 0) == FindLevel(w, obj, i)
      {
        var k := FindInLevel(obj, i);
        if k.Some? {
          return Some(threadPriorities[i].cb);
        }
        i := i + 1;
      }
      return None;
    }

    /** The inner loop of findThreadCB. */
    method FindInLevel(obj: Obj, i: nat) returns (k: Option<nat>)
      requires Valid() && i < MAXPRIORITY
      modifies this`threadPriorities, this`rings
      ensures Valid() && |rings| == |old(rings)| == |threadPriorities| == MAXPRIORITY
      ensures k == FindObj(Threads(tcb), old(rings)[i], obj)
      ensures k.None? ==> rings == old(rings)
      ensures k.Some? ==>
        rings == old(rings)[i := RotateTo(old(rings)[i], k.value)] && threadPriorities[i].cb == old(rings)[i][k.value]
    {
      hide RingsOk;
      hide Linked;
      hide FindObj;
      hide RotateTo;
      LevelAt(i);
      ghost var was := rings;
      ghost var r := rings[i];
      RotateZero(r);
      var n := 0;
      NotYetZero(Threads(tcb), r, obj);
      while n < threadPriorities[i].count
        invariant Valid() && |rings| == |threadPriorities| == |was| == MAXPRIORITY
        invariant 0 <= n <= |r| == threadPriorities[i].count
        invariant rings == was[i := RotateTo(r, n)] && r == was[i]
        invariant r != [] ==> threadPriorities[i].cb == r[if n == |r| then 0 else n]
        invariant NotYet(Threads(tcb), r, obj, n)
      {
        RotatedAt(r, n);
        LinkOf(i, 0);
        var cb := threadPriorities[i].cb;
        if tcb[cb].thread.obj == Some(obj) {
          FoundObj(Threads(tcb), r, obj, n);
          return Some(n);
        }
        NotYetStep(Threads(tcb), r, obj, n);
        TurnOnce(i);
        RotateTwice(r, n);
        n := n + 1;
      }
      RotateAll(r);
      NoneFound(Threads(tcb), r, obj);
      return None;
    }

    /** threadPriorities[i].cb = threadPriorities[i].cb->succ. */
    method TurnOnce(i: nat)
      requires Valid() && i < MAXPRIORITY && i < |rings| && rings[i] != []
      modifies this`threadPriorities, this`rings
      ensures Valid() && |old(rings)| == |old(threadPriorities)| == MAXPRIORITY
      ensures rings == old(rings)[i := RotateTo(old(rings)[i], 1)]
      ensures threadPriorities == old(threadPriorities)[i := threadPriorities[i]]
      ensures threadPriorities[i].count == old(threadPriorities)[i].count
      ensures threadPriorities[i].cb == old(rings)[i][Next(0, |old(rings)[i]|)]
    {
      hide RingsOk;
      hide Linked;
      hide RotateTo;
      LevelAt(i);
      LinkOf(i, 0);
      TurnLevel(tcb, threadPriorities, rings, i, 1);
      RotateKeepsRings(rings, Threads(tcb), i, 1);
      var cb := threadPriorities[i].cb;
      threadPriorities := threadPriorities[i := threadPriorities[i].(cb := tcb[cb].succ)];
      rings := rings[i := RotateTo(rings[i], 1)];
    }

    /** createThread for the main thread: all lists empty but the one of priority 5. */
    constructor (main: Ptr)
      requires main != NULL
      ensures Valid() && Abs() == InitialWorld(main)
    {
      tcb := map[main := ControlBlock(FreshThread(None, NORMPRIORITY), main, main)];
      threadPriorities := seq(MAXPRIORITY, i =>
                                if i == NORMPRIORITY - 1 then ThreadPriorityList(main, 1)
                                else ThreadPriorityList(NULL, 0));
      currentThreadCB := main;
      numThreads := 1;
      blocked := {};
      rings := seq(MAXPRIORITY, i => if i == NORMPRIORITY - 1 then [main] else []);
      new;
      InitialOk(main);
      hide RingsOk;
      InitialLinked(tcb, threadPriorities, rings, main);
      hide Linked;
      assert Threads(tcb) == InitialWorld(main).threads;
    }

    /** createThread for a started Java thread object; p is what malloc returned. */
    method CreateThread(p: Ptr, obj: Obj, priority: int) returns (halt: Option<Halt>)
      requires Valid() && p !in tcb && p != NULL && 1 <= priority <= MAXPRIORITY
      modifies this
      ensures Agrees(Create(old(Abs()), p, obj, priority), halt)
    {
      ThreadCount(tcb);
      if numThreads == MAXTHREADS {
        return Some(TooManyThreads);
      }
      AddThread(p, FreshThread(Some(obj), priority));
      CreateKeepsOk(old(Abs()), p, obj, priority);
      return None;
    }

    /** The part of createThread after the check: a control block is made, listed and counted. */
    method AddThread(p: Ptr, t: Thread)
      requires Valid() && p !in tcb && p != NULL && 1 <= t.priority <= MAXPRIORITY
      modifies this
      ensures Linked(tcb, threadPriorities, rings) && numThreads == |tcb|
      ensures |old(rings)| == MAXPRIORITY && Abs() == Insert(old(Abs()).Set(p, t), p)
    {
      hide RingsOk;
      hide Linked;
      NotListed(Abs(), p);
      AddBlock(p, t);
      hide Insert;
      InsertThread(p);
      numThreads := numThreads + 1;
    }

    /** malloc of a control block: its links are not yet set. */
    method AddBlock(p: Ptr, t: Thread)
      requires Linked(tcb, threadPriorities, rings) && p !in tcb
      modifies this`tcb
      ensures Linked(tcb, threadPriorities, rings) && Abs() == old(Abs()).Set(p, t)
      ensures p in tcb && tcb[p].thread == t && tcb.Keys == old(tcb).Keys + {p} && |tcb| == |old(tcb)| + 1
    {
      var block := ControlBlock(t, NULL, NULL);
      AddKeepsLinks(tcb, threadPriorities, rings, p, block);
      hide Linked;
      tcb := tcb[p := block];
      assert Threads(tcb) == old(Threads(tcb))[p := t];
      assert |tcb.Keys| == |old(tcb).Keys| + 1;
    }

    /** deleteThread: the unchecked downward search stops at the highest level that has a thread. */
    method DeleteThread()
      requires Valid() && numThreads > 1
      modifies this
      ensures Valid() && Abs() == Delete(old(Abs()))
    {
      hide RingsOk;
      hide Linked;
      hide RemoveRing;
      hide TopLevel;
      ghost var w := Abs();
      var me := currentThreadCB;
      ThreadCount(tcb);
      ghost var other := AnotherThread(w.threads, me);
      DeleteKeepsOk(w);
      RingOf(w, me);
      RemoveThread(me);
      HighestLevel(w, other);
      DropKeepsLinks(tcb, threadPriorities, rings, me);
      var top := FindTop();
      ThreadCountDrop(tcb, me);
      tcb := tcb - {me};
      currentThreadCB := threadPriorities[top].cb;
      numThreads := numThreads - 1;
    }

    /** The downward search of deleteThread, which has no bound of its own. */
    method FindTop() returns (i: nat)
      requires Linked(tcb, threadPriorities, rings) && TopLevel(rings, MAXPRIORITY) >= 0
      ensures i < MAXPRIORITY == |rings| == |threadPriorities| && i == TopLevel(rings, MAXPRIORITY)
      ensures rings[i] != [] && threadPriorities[i].cb == rings[i][0]
    {
      i := MAXPRIORITY - 1;
      assert Circle(tcb, threadPriorities[i], rings[i]);
      while threadPriorities[i].count == 0
        invariant i < MAXPRIORITY && TopLevel(rings, MAXPRIORITY) == TopLevel(rings, i + 1)
        decreases i
      {
        assert Circle(tcb, threadPriorities[i], rings[i]);
        i := i - 1;
      }
      assert Circle(tcb, threadPriorities[i], rings[i]);
    }

    /** nativeSetPriority; pCurrentPrio is what the priority field of the Java object holds, which for a live thread is
        the priority in its control block.  An object without a live thread stops the machine, unless its field
        already holds the new priority. */
    method NativeSetPriority(obj: Obj, newPrio: int, pCurrentPrio: int) returns (halt: Option<Halt>)
      requires Valid() && 1 <= newPrio <= MAXPRIORITY
      requires match FindThread(Abs(), obj)
        case None => true
        case Some(f) => f.1 in tcb && tcb[f.1].thread.priority == pCurrentPrio
      modifies this
      ensures
        if FindThread(old(Abs()), obj).None? && newPrio == pCurrentPrio then
          halt == None && Valid() && Abs() == old(Abs())
        else Agrees(ThreadSpec.SetPriority(old(Abs()), obj, newPrio), halt)
    {
      hide RingsOk;
      hide Linked;
      hide FindThread;
      ghost var w := Abs();
      FindThreadFound(w, obj);
      SetPriorityKeepsOk(w, obj, newPrio);
      if newPrio == pCurrentPrio {
        return None;
      }
      var found := FindThreadCB(obj);
      if found.None? {
        return Some(ThreadNotFound);
      }
      MoveThread(found.value, newPrio);
      return None;
    }

    /** Takes thread p out of its level and puts it into level newPrio. */
    method MoveThread(p: Ptr, newPrio: int)
      requires Valid() && p in tcb && 1 <= newPrio <= MAXPRIORITY
      modifies this
      ensures Valid() && |old(rings)| == MAXPRIORITY && 1 <= old(tcb)[p].thread.priority <= MAXPRIORITY
      ensures p in old(rings)[old(tcb)[p].thread.priority - 1]
      ensures var w2 := Remove(old(Abs()), p);
        w2.current in w2.threads && Abs() == Insert(w2.Set(p, w2.threads[p].(priority := newPrio)), p)
    {
      hide RingsOk;
      hide Linked;
      ghost var w := Abs();
      RingOf(w, p);
      ListedNotNull(rings, Threads(tcb), p);
      MoveOk(w, p, newPrio);
      hide Remove;
      hide Insert;
      RemoveThread(p);
      Store(p, tcb[p].thread.(priority := newPrio));
      InsertThread(p);
      assert |tcb.Keys| == |old(tcb).Keys|;
    }

    /** The search of scheduler(), highest level first, each level from behind its cursor. */
    method SelectThread() returns (found: Option<Ptr>)
      requires Valid() && AwakenedHaveObjects(Threads(tcb))
      ensures |rings| == MAXPRIORITY && found == Select(Abs(), MAXPRIORITY)
    {
      hide RingsOk;
      hide Linked;
      hide FirstEligible;
      hide Trial;
      hide Eligible;
      hide AwakenedHaveObjects;
      ghost var w := Abs();
      LevelAt(0);
      var p := MAXPRIORITY;
      while p > 0
        invariant 0 <= p <= MAXPRIORITY && Select(w, MAXPRIORITY) == Select(w, p)
        decreases p
      {
        p := p - 1;
        found := SelectInLevel(p);
        if found.Some? {
          return;
        }
      }
      return None;
    }

    method SelectInLevel(p: nat) returns (chosen: Option<Ptr>)
      requires Valid() && p < MAXPRIORITY && AwakenedHaveObjects(Threads(tcb))
      ensures |rings| == MAXPRIORITY && chosen == FirstEligible(Threads(tcb), blocked, Trial(rings[p]))
    {
      hide RingsOk;
      hide Linked;
      LevelAt(p);
      ghost var r := rings[p];
      var found := threadPriorities[p].cb;
      if found == NULL {
        if r != [] {
          LinkOf(p, 0);
        }
        return None;
      }
      var n := 0;
      ghost var trial := Trial(r);
      assert trial[0..] == trial;
      while n < threadPriorities[p].count
        invariant 0 <= n <= |r| == |trial| && found == (if n == |r| then r[0] else r[n])
        invariant FirstEligible(Threads(tcb), blocked, trial) == FirstEligible(Threads(tcb), blocked, trial[n..])
      {
        LinkOf(p, n);
        LinkOf(p, Next(n, |r|));
        found := tcb[found].succ;
        assert found == trial[n] && trial[n..][1..] == trial[n + 1..];
        var t := tcb[found].thread;
        if t.state == NotBlocked {
          return Some(found);
        }
        if t.state == WaitAwakened && t.waitsFor.value !in blocked {
          return Some(found);
        }
        n := n + 1;
      }
      return None;
    }

    /** scheduler(), called after every bytecode. */
    method Scheduler() returns (halt: Option<Halt>)
      requires Valid() && AwakenedHaveObjects(Threads(tcb))
      modifies this
      ensures Agrees(Schedule(old(Abs())), halt)
    {
      hide RingsOk;
      hide Linked;
      hide Switch;
      ThreadCount(tcb);
      if numThreads == 1 {
        return None;
      }
      var t := tcb[currentThreadCB].thread;
      TableSizes(Abs(), currentThreadCB);
      Store(currentThreadCB, t.(numTicks := (t.numTicks - 1) % 0x100));
      if t.numTicks != 0 && t.state == NotBlocked {
        return None;
      }
      halt := SwitchThread();
    }

    method SwitchThread() returns (halt: Option<Halt>)
      requires Valid() && AwakenedHaveObjects(Threads(tcb))
      modifies this
      ensures Agrees(Switch(old(Abs())), halt)
    {
      hide RingsOk;
      hide Linked;
      hide Select;
      hide Dispatch;
      var found := SelectThread();
      if found == None {
        return Some(SchedulingError);
      }
      AdmitThread(found.value);
      DispatchThread(found.value);
      return None;
    }

    /** An awakened thread that is chosen takes the mutex it waited for. */
    method AdmitThread(found: Ptr)
      requires Valid() && found in tcb && AwakenedHaveObjects(Threads(tcb))
      modifies this`tcb, this`blocked
      ensures Valid() && Abs() == Admit(old(Abs()), found) && tcb.Keys == old(tcb).Keys
    {
      hide RingsOk;
      hide Linked;
      var t := tcb[found].thread;
      assert Threads(tcb)[found] == t;
      if t.state == WaitAwakened {
        blocked := blocked + {t.waitsFor.value};
        TableSizes(Abs(), found);
        Store(found, t.(state := NotBlocked, waitsFor := None));
      }
    }

    method DispatchThread(found: Ptr)
      requires Valid() && found in tcb
      modifies this
      ensures Valid() && Abs() == Dispatch(old(Abs()), found)
    {
      hide RingsOk;
      hide Linked;
      hide RotateTo;
      hide IndexIn;
      ghost var w := Abs();
      RingOf(w, found);
      DispatchKeepsOk(w, found);
      var t := tcb[found].thread;
      TableSizes(w, found);
      Store(found, t.(numTicks := t.priority));
      if found != currentThreadCB {
        currentThreadCB := found;
        TurnTo(t.priority - 1, found);
      }
    }

    /** Puts the cursor of level i on its member p. */
    method TurnTo(i: nat, p: Ptr)
      requires Linked(tcb, threadPriorities, rings) && i < MAXPRIORITY && p in rings[i]
      modifies this`threadPriorities, this`rings
      ensures Linked(tcb, threadPriorities, rings)
      ensures rings == old(rings)[i := RotateTo(old(rings)[i], IndexIn(old(rings)[i], p))]
    {
      ghost var k := IndexIn(rings[i], p);
      TurnLevel(tcb, threadPriorities, rings, i, k);
      hide Linked;
      threadPriorities := threadPriorities[i := threadPriorities[i].(cb := p)];
      rings := rings[i := RotateTo(rings[i], k)];
    }

    lemma LevelAt(i: nat)
      requires Valid() && i < MAXPRIORITY
      ensures |rings| == |threadPriorities| == MAXPRIORITY && threadPriorities[i].count == |rings[i]|
      ensures threadPriorities[i].cb == if rings[i] == [] then NULL else rings[i][0]
      ensures NoDuplicates(rings[i])
    {
      hide RingsOk;
    }

    lemma LinkOf(i: nat, k: nat)
      requires Valid() && i < MAXPRIORITY && i < |rings| && k < |rings[i]|
      ensures rings[i][k] in tcb && rings[i][k] != NULL
      ensures tcb[rings[i][k]].succ == rings[i][Next(k, |rings[i]|)]
      ensures tcb[rings[i][k]].pred == rings[i][Prev(k, |rings[i]|)]
    {
      hide RingsOk;
      assert Circle(tcb, threadPriorities[i], rings[i]);
      assert LinkAt(tcb, rings[i], k);
    }
  }

  /** One list with one thread. */
  lemma InitialLinked(tcb: Blocks, lists: Lists, rings: Rings, main: Ptr)
    requires main != NULL && tcb == map[main := ControlBlock(FreshThread(None, NORMPRIORITY), main, main)]
    requires |lists| == |rings| == MAXPRIORITY
    requires forall i :: 0 <= i < MAXPRIORITY ==>
      lists[i] == (if i == NORMPRIORITY - 1 then ThreadPriorityList(main, 1) else ThreadPriorityList(NULL, 0))
    requires forall i :: 0 <= i < MAXPRIORITY ==> rings[i] == if i == NORMPRIORITY - 1 then [main] else []
    ensures Linked(tcb, lists, rings)
  {
    assert LinkAt(tcb, [main], 0);
  }

  /** The check of insertThreadIntoPriorityList and removeThreadFromPriorityList is `prio > 10`, for a byte computed
      from the priority: it lets an index outside the ten levels pass exactly for priority 11, modulo 256. */
  lemma PriorityCheckIff(priority: u4)
    ensures (!(Wrap8(priority - 1) > 10) && Wrap8(priority - 1) >= MAXPRIORITY) <==> priority % 0x100 == 11
  {
  }

  lemma TableSizes(w: World, p: Ptr)
    requires w.Ok() && p in w.threads
    ensures ThreadSystem.HasTable(w.threads[p])
  {
  }

  lemma ThreadCount(tcb: Blocks)
    ensures |Threads(tcb)| == |tcb|
  {
    assert Threads(tcb).Keys == tcb.Keys;
  }

  lemma ThreadCountDrop(tcb: Blocks, p: Ptr)
    requires p in tcb
    ensures |tcb - {p}| == |tcb| - 1 && Threads(tcb - {p}) == Threads(tcb) - {p}
  {
    assert (tcb - {p}).Keys == tcb.Keys - {p};
  }

  lemma NotListed(w: World, p: Ptr)
    requires w.Ok() && p !in w.threads
    ensures |w.rings| == MAXPRIORITY && forall j :: 0 <= j < MAXPRIORITY ==> p !in w.rings[j]
  {
  }

  lemma RingOf(w: World, p: Ptr)
    requires w.Ok() && p in w.threads
    ensures |w.rings| == MAXPRIORITY && 1 <= w.threads[p].priority <= MAXPRIORITY
    ensures p in w.rings[w.threads[p].priority - 1]
  {
  }

  lemma HighestLevel(w: World, p: Ptr)
    requires w.Ok() && p in w.threads && p != w.current
    ensures |Remove(w, w.current).rings| == MAXPRIORITY && TopLevel(Remove(w, w.current).rings, MAXPRIORITY) >= 0
  {
    hide RingsOk;
    hide RemoveRing;
    RingOf(w, w.current);
    RemoveKeepsRings(w.rings, w.threads, w.current);
    TopOk(Remove(w, w.current).rings, w.threads - {w.current}, p);
  }

  lemma AddKeepsLinks(tcb: Blocks, lists: Lists, rings: Rings, p: Ptr, block: ControlBlock)
    requires Linked(tcb, lists, rings) && p !in tcb
    ensures Linked(tcb[p := block], lists, rings)
  {
    forall i | 0 <= i < MAXPRIORITY ensures Circle(tcb[p := block], lists[i], rings[i]) {
      SameLinksCircle(tcb, tcb[p := block], lists[i], rings[i]);
    }
  }

  lemma DropKeepsLinks(tcb: Blocks, lists: Lists, rings: Rings, p: Ptr)
    requires Linked(tcb, lists, rings) && forall j :: 0 <= j < MAXPRIORITY ==> p !in rings[j]
    ensures Linked(tcb - {p}, lists, rings)
  {
    forall i | 0 <= i < MAXPRIORITY ensures Circle(tcb - {p}, lists[i], rings[i]) {
      SameLinksCircle(tcb, tcb - {p}, lists[i], rings[i]);
    }
  }

  // Turning a list while searching it

  lemma RotateZero(r: seq<Ptr>)
    ensures RotateTo(r, 0) == r
  {
  }

  lemma RotateAll(r: seq<Ptr>)
    ensures RotateTo(r, |r|) == r
  {
  }

  lemma RotatedAt(r: seq<Ptr>, n: nat)
    requires n < |r|
    ensures |RotateTo(r, n)| == |r| && RotateTo(r, n)[0] == r[n]
  {
  }

  lemma RotateTwice(r: seq<Ptr>, n: nat)
    requires n < |r|
    ensures |RotateTo(r, n)| == |r| && RotateTo(RotateTo(r, n), 1) == RotateTo(r, n + 1)
    ensures RotateTo(r, n)[Next(0, |r|)] == r[Next(n, |r|)]
  {
  }

  ghost predicate NotYet(threads: map<Ptr, Thread>, r: seq<Ptr>, obj: Obj, n: nat) {
    n <= |r| && forall k :: 0 <= k < n && r[k] in threads ==> threads[r[k]].obj != Some(obj)
  }

  lemma NotYetZero(threads: map<Ptr, Thread>, r: seq<Ptr>, obj: Obj)
    ensures NotYet(threads, r, obj, 0)
  {
  }

  lemma NotYetStep(threads: map<Ptr, Thread>, r: seq<Ptr>, obj: Obj, n: nat)
    requires NotYet(threads, r, obj, n) && n < |r| && r[n] in threads && threads[r[n]].obj != Some(obj)
    ensures NotYet(threads, r, obj, n + 1)
  {
  }

  lemma {:induction false} FoundObj(threads: map<Ptr, Thread>, r: seq<Ptr>, obj: Obj, n: nat)
    requires NotYet(threads, r, obj, n) && n < |r| && r[n] in threads && threads[r[n]].obj == Some(obj)
    ensures FindObj(threads, r, obj) == Some(n)
  {
    if n > 0 {
      assert forall k :: 0 <= k < n - 1 ==> r[1..][k] == r[k + 1];
      FoundObj(threads, r[1..], obj, n - 1);
    }
  }

  lemma {:induction false} NoneFound(threads: map<Ptr, Thread>, r: seq<Ptr>, obj: Obj)
    requires NotYet(threads, r, obj, |r|)
    ensures FindObj(threads, r, obj) == None
  {
    if r != [] {
      assert forall k :: 0 <= k < |r| - 1 ==> r[1..][k] == r[k + 1];
      NoneFound(threads, r[1..], obj);
    }
  }

  function Updated(awaken: bool, t: Thread, o: Obj): Thread {
    if awaken then Awakened(t, o) else Woken(t, o)
  }

  /** The update has been made to the visited threads, and to no other. */
  ghost predicate Visited(was: map<Ptr, Thread>, now: map<Ptr, Thread>, visited: set<Ptr>, awaken: bool, o: Obj) {
    && now.Keys == was.Keys
    && forall p :: p in was ==> now[p] == if p in visited then Updated(awaken, was[p], o) else was[p]
  }

  ghost function Members(r: seq<Ptr>): set<Ptr> {
    set p | p in r
  }

  lemma VisitStep(was: map<Ptr, Thread>, before: map<Ptr, Thread>, now: map<Ptr, Thread>, visited: set<Ptr>,
                  r: seq<Ptr>, k: nat,
                  awaken: bool, o: Obj)
    requires k < |r| && r[k] in was && Visited(was, before, visited + Members(r[..k]), awaken, o)
    requires now == before[r[k] := Updated(awaken, before[r[k]], o)]
    ensures Visited(was, now, visited + Members(r[..k + 1]), awaken, o)
  {
    assert r[..k + 1] == r[..k] + [r[k]];
    assert visited + Members(r[..k + 1]) == visited + Members(r[..k]) + {r[k]};
  }

  lemma EveryoneListed(w: World, visited: set<Ptr>)
    requires w.Ok() && forall j :: 0 <= j < MAXPRIORITY ==> Members(w.rings[j]) <= visited
    ensures w.threads.Keys <= visited
  {
    forall p | p in w.threads ensures p in visited {
      assert p in Members(w.rings[w.threads[p].priority - 1]);
    }
  }

  // The search order, piece by piece

  /** The order begins with the levels below i and the first k members of level i. */
  lemma {:induction false} OrderPrefix(rings: Rings, i: nat, k: nat) returns (rest: seq<Ptr>)
    requires i < |rings| && k <= |rings[i]|
    ensures Order(rings) == Order(rings[..i]) + rings[i][..k] + rest
    ensures k < |rings[i]| ==> rest != [] && rest[0] == rings[i][k]
    decreases |rings|
  {
    var n := |rings| - 1;
    if i == n {
      rest := rings[i][k..];
      assert rings[i] == rings[i][..k] + rest;
    } else {
      var front := rings[..n];
      rest := OrderPrefix(front, i, k);
      assert front[..i] == rings[..i] && front[i] == rings[i];
      rest := rest + rings[n];
    }
  }

  lemma FoundAt(threads: map<Ptr, Thread>, rings: Rings, i: nat, k: nat, st: ThreadState, o: Obj)
    requires i < |rings| && k < |rings[i]| && rings[i][k] in threads
    requires threads[rings[i][k]].state == st && threads[rings[i][k]].waitsFor == Some(o)
    requires FirstFor(threads, Order(rings[..i]) + rings[i][..k], st, o).None?
    ensures FirstFor(threads, Order(rings), st, o) == Some(rings[i][k])
  {
    var rest := OrderPrefix(rings, i, k);
    FirstForConcat(threads, Order(rings[..i]) + rings[i][..k], rest, st, o);
  }

  lemma NotFoundAt(threads: map<Ptr, Thread>, rings: Rings, i: nat, k: nat, st: ThreadState, o: Obj)
    requires i < |rings| && k < |rings[i]|
    requires rings[i][k] in threads ==> !(threads[rings[i][k]].state == st && threads[rings[i][k]].waitsFor == Some(o))
    requires FirstFor(threads, Order(rings[..i]) + rings[i][..k], st, o).None?
    ensures FirstFor(threads, Order(rings[..i]) + rings[i][..k + 1], st, o).None?
  {
    var a := Order(rings[..i]) + rings[i][..k];
    assert Order(rings[..i]) + rings[i][..k + 1] == a + [rings[i][k]];
    FirstForConcat(threads, a, [rings[i][k]], st, o);
  }

  lemma NothingSearched(threads: map<Ptr, Thread>, rings: Rings, st: ThreadState, o: Obj)
    ensures FirstFor(threads, Order(rings[..0]), st, o).None?
  {
  }

  lemma LevelDone(rings: Rings, i: nat)
    requires i < |rings|
    ensures Order(rings[..i + 1]) == Order(rings[..i]) + rings[i]
  {
    assert rings[..i + 1][..i] == rings[..i];
  }
}
