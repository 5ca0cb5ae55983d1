/** What the operations on threads, monitors and Locks do to every control block, list and mutex bit: in terms of lock
    counts, states and places in the lists. */
module ThreadLaws {
  import opened LockTables
  import opened ThreadSpec
  import opened ListLemmas

  /** q is in state st because of o. */
  predicate WaitsIn(w: World, q: Ptr, st: ThreadState, o: Obj) {
    q in w.threads && w.threads[q].state == st && w.threads[q].waitsFor == Some(o)
  }

  /** Member k of level i is such a thread, no level below has one, and none is nearer to the cursor. */
  ghost predicate IsFirst(w: World, i: nat, k: nat, st: ThreadState, o: Obj) {
    && i < |w.rings| && k < |w.rings[i]| && WaitsIn(w, w.rings[i][k], st, o)
    && (forall j, q :: 0 <= j < i && q in w.rings[j] ==> !WaitsIn(w, q, st, o))
    && (forall n :: 0 <= n < k ==> !WaitsIn(w, w.rings[i][n], st, o))
  }

  /** w2 is w but for the control block of p and the mutex bits. */
  predicate OnlyBlockOf(w: World, w2: World, p: Ptr) {
    && p in w.threads && p in w2.threads
    && w2 == w.(threads := w.threads[p := w2.threads[p]], blocked := w2.blocked)
  }

  /** The table counts o n times, and every other object as often as before. */
  ghost predicate CountsAs(t: LockTable, t2: LockTable, o: Obj, n: int) {
    && |t.objs| == |t.counts| == |t2.objs| && t2.Valid()
    && forall x :: t2.CountOf(x) == if x == o then n else t.CountOf(x)
  }

  // Places in the lists

  lemma {:induction false} FirstInLevel(threads: map<Ptr, Thread>, r: seq<Ptr>, st: ThreadState, o: Obj)
      returns (k: nat)
    requires FirstFor(threads, r, st, o).Some?
    ensures k < |r| && r[k] == FirstFor(threads, r, st, o).value
    ensures r[k] in threads && threads[r[k]].state == st && threads[r[k]].waitsFor == Some(o)
    ensures forall n :: 0 <= n < k ==>
      !(r[n] in threads && threads[r[n]].state == st && threads[r[n]].waitsFor == Some(o))
  {
    if r[0] in threads && threads[r[0]].state == st && threads[r[0]].waitsFor == Some(o) {
      k := 0;
    } else {
      k := FirstInLevel(threads, r[1..], st, o);
      assert forall n :: 0 < n < |r| ==> r[n] == r[1..][n - 1];
      k := k + 1;
    }
  }

  lemma {:induction false} FirstInLevels(w: World, n: nat, st: ThreadState, o: Obj) returns (i: nat, k: nat)
    requires n <= |w.rings| && FirstFor(w.threads, Order(w.rings[..n]), st, o).Some?
    ensures i < n && IsFirst(w, i, k, st, o)
    ensures w.rings[i][k] == FirstFor(w.threads, Order(w.rings[..n]), st, o).value
    decreases n
  {
    assert n > 0;
    hide FirstFor;
    var front, last := w.rings[..n][..n - 1], w.rings[n - 1];
    assert front == w.rings[..n - 1];
    FirstForConcat(w.threads, Order(front), last, st, o);
    FirstForFound(w.threads, Order(front), st, o);
    if FirstFor(w.threads, Order(front), st, o).Some? {
      i, k := FirstInLevels(w, n - 1, st, o);
    } else {
      i := n - 1;
      k := FirstInLevel(w.threads, last, st, o);
      forall j, q | 0 <= j < i && q in w.rings[j] ensures !WaitsIn(w, q, st, o) {
        InOrder(front, q);
        assert front[j] == w.rings[j];
      }
    }
  }

  /** The search of notifyThread and awakeThreadFromMutex. */
  lemma FirstPlace(w: World, st: ThreadState, o: Obj) returns (i: nat, k: nat)
    requires w.Ok()
    ensures FirstFor(w.threads, Order(w.rings), st, o).None? <==> forall q :: !WaitsIn(w, q, st, o)
    ensures FirstFor(w.threads, Order(w.rings), st, o).Some? ==>
      IsFirst(w, i, k, st, o) && w.rings[i][k] == FirstFor(w.threads, Order(w.rings), st, o).value
  {
    i, k := 0, 0;
    forall q | q in w.threads ensures q in Order(w.rings) {
      OrderIsAll(w, q);
    }
    hide RingsOk;
    FirstForFound(w.threads, Order(w.rings), st, o);
    hide FirstFor;
    if FirstFor(w.threads, Order(w.rings), st, o).Some? {
      assert w.rings[..|w.rings|] == w.rings;
      i, k := FirstInLevels(w, |w.rings|, st, o);
    }
  }

  // Wait and notify

  /** notify awakens exactly one of the threads that wait on the object, if there are any: the one nearest behind the
      cursor in the lowest level that has one.  It still names the object, and nothing else changes. */
  lemma NotifyLaw(w: World, o: Obj) returns (i: nat, k: nat)
    requires w.Ok()
    ensures Notify(w, o) == if o !in w.blocked then Halted(NotOwned) else Ok(Notify(w, o).world)
    ensures o in w.blocked && (forall q :: !WaitsIn(w, q, WaitBlocked, o)) ==> Notify(w, o).world == w
    ensures o in w.blocked && (exists q :: WaitsIn(w, q, WaitBlocked, o)) ==>
      var w2 := Notify(w, o).world;
      && IsFirst(w, i, k, WaitBlocked, o) && OnlyBlockOf(w, w2, w.rings[i][k]) && w2.blocked == w.blocked
      && w2.threads[w.rings[i][k]] == w.threads[w.rings[i][k]].(state := WaitAwakened)
      && WaitsIn(w2, w.rings[i][k], WaitAwakened, o)
      && forall q :: WaitsIn(w, q, WaitBlocked, o) && q != w.rings[i][k] ==> WaitsIn(w2, q, WaitBlocked, o)
  {
    i, k := FirstPlace(w, WaitBlocked, o);
    hide RingsOk;
    hide FirstFor;
    hide Order;
  }

  /** notifyAll awakens all of them, and changes nothing else. */
  lemma NotifyAllLaw(w: World, o: Obj)
    ensures NotifyAll(w, o) == if o !in w.blocked then Halted(NotOwned) else Ok(NotifyAll(w, o).world)
    ensures o in w.blocked ==>
      var w2 := NotifyAll(w, o).world;
      && w2 == w.(threads := w2.threads) && w2.threads.Keys == w.threads.Keys
      && forall q :: q in w.threads ==>
           w2.threads[q] == if WaitsIn(w, q, WaitBlocked, o) then w.threads[q].(state := WaitAwakened) else w.threads[q]
  {
    assert AwakenAll(w.threads, o).Keys == w.threads.Keys;
  }

  /** wait frees the object, lets everyone who is blocked on it try again, and makes the caller wait; the caller's
      lock count stays in its table. */
  lemma WaitLaw(w: World, o: Obj)
    requires w.Ok()
    ensures NativeWait(w, o) == if o !in w.blocked then Halted(NotOwned) else Ok(NativeWait(w, o).world)
    ensures o in w.blocked && w.threads[w.current].state == NotBlocked ==>
      var w2 := NativeWait(w, o).world;
      && w2 == w.(threads := w2.threads, blocked := w.blocked - {o}) && w2.threads.Keys == w.threads.Keys
      && w2.threads[w.current] == w.threads[w.current].(state := WaitBlocked, waitsFor := Some(o))
      && forall q :: q in w.threads && q != w.current ==>
           w2.threads[q] == if WaitsIn(w, q, MutexBlocked, o)
                            then w.threads[q].(state := NotBlocked, waitsFor := None) else w.threads[q]
  {
    hide RingsOk;
    assert WakeAll(w.threads, o).Keys == w.threads.Keys;
  }

  // Synchronized methods

  /** A synchronized call takes a free object, with count 1; counts its own once more; or blocks the caller.  It stops
      the machine exactly if the object is free and all 24 entries of the table are used. */
  lemma EnterLaw(w: World, o: Obj)
    requires w.Ok() && w.threads[w.current].locks.Valid() && w.threads[w.current].locks.CountOf(o) < 0xFF
    requires o !in w.blocked ==> w.threads[w.current].locks.CountOf(o) == 0
    ensures SyncEnter(w, o).0.Halted? <==>
      o !in w.blocked && forall j :: 0 <= j < 24 ==> w.threads[w.current].locks.objs[j] != None
    ensures SyncEnter(w, o).0.Ok? ==>
      var (t, w2, entered) := (w.threads[w.current], SyncEnter(w, o).0.world, SyncEnter(w, o).1);
      && OnlyBlockOf(w, w2, w.current)
      && var t2 := w2.threads[w.current];
      if o !in w.blocked then
        && entered && w2.blocked == w.blocked + {o} && t2 == t.(waitsFor := None, locks := t2.locks)
        && CountsAs(t.locks, t2.locks, o, 1)
      else if t.locks.CountOf(o) > 0 then
        && entered && w2.blocked == w.blocked && t2 == t.(locks := t2.locks)
        && CountsAs(t.locks, t2.locks, o, t.locks.CountOf(o) + 1)
      else
        !entered && w2.blocked == w.blocked && t2 == t.(state := MutexBlocked, waitsFor := Some(o))
  {
    hide RingsOk;
    var t := w.threads[w.current];
    t.locks.HoldsIff(o);
    if o !in w.blocked && !t.locks.Full() {
      TakeCounts(t.locks, o);
    } else if o in w.blocked && t.locks.Holds(o) {
      AddCounts(t.locks, o, 1);
    }
    FullIff(t.locks);
    hide LockTable.Valid;
    hide LockTable.Take;
    hide LockTable.Add;
    hide CountsAs;
    hide LockTable.Full;
  }

  lemma FullIff(t: LockTable)
    ensures t.Full() <==> forall j :: 0 <= j < |t.objs| ==> t.objs[j] != None
  {
  }

  lemma TakeCounts(t: LockTable, o: Obj)
    requires t.Valid() && !t.Full() && !t.Holds(o)
    ensures CountsAs(t, t.Take(o), o, 1)
  {
    forall x ensures t.Take(o).Valid() && t.Take(o).CountOf(x) == if x == o then 1 else t.CountOf(x) {
      t.TakeEffect(o, x);
    }
    t.TakeEffect(o, o);
  }

  lemma AddCounts(t: LockTable, o: Obj, d: int)
    requires t.Valid() && t.Holds(o) && 0 < t.CountOf(o) + d < 0x100
    ensures CountsAs(t, t.Add(o, d), o, t.CountOf(o) + d)
  {
    forall x ensures t.Add(o, d).Valid() && t.Add(o, d).CountOf(x) == if x == o then t.CountOf(o) + d else t.CountOf(x)
    {
      t.AddEffect(o, d, x);
    }
    t.AddEffect(o, d, o);
  }

  lemma ClearCounts(t: LockTable, o: Obj)
    requires t.Valid() && t.Holds(o)
    ensures CountsAs(t, t.Clear(o), o, 0)
  {
    forall x ensures t.Clear(o).Valid() && t.Clear(o).CountOf(x) == if x == o then 0 else t.CountOf(x) {
      t.ClearEffect(o, x);
    }
    t.ClearEffect(o, o);
  }

  /** The return from a synchronized method counts down.  The last one frees the object and lets everyone who is blocked
      on it try again. */
  lemma LeaveLaw(w: World, o: Obj)
    requires w.Ok() && w.threads[w.current].locks.Valid() && w.threads[w.current].locks.CountOf(o) > 0
    requires w.threads[w.current].state == NotBlocked
    ensures w.threads[w.current].locks.Holds(o)
    ensures var (t, w2) := (w.threads[w.current], SyncExit(w, o));
      && w.current in w2.threads && var t2 := w2.threads[w.current];
      if t.locks.CountOf(o) > 1 then
        && OnlyBlockOf(w, w2, w.current) && w2.blocked == w.blocked && t2 == t.(locks := t2.locks)
        && CountsAs(t.locks, t2.locks, o, t.locks.CountOf(o) - 1)
      else
        && w2 == w.(threads := w2.threads, blocked := w.blocked - {o}) && w2.threads.Keys == w.threads.Keys
        && t2 == t.(waitsFor := None, locks := t2.locks) && CountsAs(t.locks, t2.locks, o, 0)
        && forall q :: q in w.threads && q != w.current ==>
             w2.threads[q] == if WaitsIn(w, q, MutexBlocked, o)
                              then w.threads[q].(state := NotBlocked, waitsFor := None) else w.threads[q]
  {
    hide RingsOk;
    var t := w.threads[w.current];
    t.locks.HoldsIff(o);
    if t.locks.CountOf(o) > 1 {
      AddCounts(t.locks, o, -1);
    } else {
      ClearCounts(t.locks, o);
      var threads := w.threads[w.current := t.(waitsFor := None, locks := t.locks.Clear(o))];
      assert WakeAll(threads, o).Keys == w.threads.Keys;
    }
    hide LockTable.Valid;
    hide LockTable.Add;
    hide LockTable.Clear;
    hide CountsAs;
  }

  // Locks

  /** lock takes a free object for p with count 1; an object that is taken, even by p itself, blocks p and ends its
      slice. */
  lemma LockLaw(w: World, p: Ptr, o: Obj)
    requires w.Ok() && p in w.threads && w.threads[p].locks.Valid()
    requires o !in w.blocked ==> !w.threads[p].locks.Holds(o)
    ensures SetMutex(w, p, o).Halted? <==>
      o !in w.blocked && forall j :: 0 <= j < 24 ==> w.threads[p].locks.objs[j] != None
    ensures SetMutex(w, p, o).Ok? ==>
      var (t, w2) := (w.threads[p], SetMutex(w, p, o).world);
      && OnlyBlockOf(w, w2, p) && var t2 := w2.threads[p];
      if o !in w.blocked then
        && w2.blocked == w.blocked + {o} && t2 == t.(waitsFor := None, locks := t2.locks)
        && CountsAs(t.locks, t2.locks, o, 1)
      else
        w2.blocked == w.blocked && t2 == t.(state := MutexBlocked, waitsFor := Some(o), numTicks := 0)
  {
    hide RingsOk;
    var t := w.threads[p];
    if o !in w.blocked && !t.locks.Full() {
      TakeCounts(t.locks, o);
    }
    FullIff(t.locks);
    hide LockTable.Valid;
    hide LockTable.Take;
    hide LockTable.Full;
    hide CountsAs;
  }

  /** tryLock answers true exactly if the object was free; then the caller owns it with count 1.  Otherwise nothing
      changes. */
  lemma TryLockLaw(w: World, o: Obj)
    requires w.Ok() && w.threads[w.current].locks.Valid()
    requires o !in w.blocked ==> !w.threads[w.current].locks.Holds(o)
    ensures TryLock(w, o).0.Ok? ==>
      var (t, w2, got) := (w.threads[w.current], TryLock(w, o).0.world, TryLock(w, o).1);
      && (got <==> o !in w.blocked) && (!got ==> w2 == w)
      && (got ==>
            && OnlyBlockOf(w, w2, w.current) && w2.blocked == w.blocked + {o}
            && var t2 := w2.threads[w.current];
            && t2 == t.(waitsFor := None, locks := t2.locks) && CountsAs(t.locks, t2.locks, o, 1))
    ensures TryLock(w, o).0.Halted? ==>
      o !in w.blocked && forall j :: 0 <= j < 24 ==> w.threads[w.current].locks.objs[j] != None
  {
    hide RingsOk;
    hide SetMutex;
    hide CountsAs;
    hide LockTable.Valid;
    hide LockTable.Holds;
    LockLaw(w, w.current, o);
  }

  lemma TakesOverLaw(w: World, q: Ptr, o: Obj)
    requires w.Ok() && o !in w.blocked && WaitsIn(w, q, MutexBlocked, o)
    requires w.threads[q].locks.Valid() && w.threads[q].locks.CountOf(o) == 0
    ensures var w1 := w.Set(q, w.threads[q].(state := NotBlocked));
      && w1.Ok() && var r := SetMutex(w1, q, o);
      && (r.Halted? ==> forall j :: 0 <= j < 24 ==> w.threads[q].locks.objs[j] != None)
      && (r.Ok? ==>
            var (t, w2) := (w.threads[q], r.world);
            && OnlyBlockOf(w, w2, q) && w2.blocked == w.blocked + {o} && var t2 := w2.threads[q];
            && t2 == t.(state := NotBlocked, waitsFor := None, locks := t2.locks) && CountsAs(t.locks, t2.locks, o, 1))
  {
    hide RingsOk;
    hide CountsAs;
    var w1 := w.Set(q, w.threads[q].(state := NotBlocked));
    SetKeepsOk(w, q, w.threads[q].(state := NotBlocked));
    w.threads[q].locks.HoldsIff(o);
    LockLaw(w1, q, o);
    hide LockTable.Valid;
    hide SetMutex;
  }

  /** A Lock that has just been freed goes to the blocked thread nearest behind the cursor in the lowest level that has
      one, with count 1; without such a thread nothing happens. */
  lemma HandOverLaw(w: World, o: Obj) returns (i: nat, k: nat)
    requires w.Ok() && o !in w.blocked
    requires forall q :: q in w.threads ==> w.threads[q].locks.Valid() && w.threads[q].locks.CountOf(o) == 0
    ensures (forall q :: !WaitsIn(w, q, MutexBlocked, o)) ==> AwakeFromMutex(w, o) == Ok(w)
    ensures (exists q :: WaitsIn(w, q, MutexBlocked, o)) ==> IsFirst(w, i, k, MutexBlocked, o)
    ensures (exists q :: WaitsIn(w, q, MutexBlocked, o)) && AwakeFromMutex(w, o).Ok? ==>
      var w2 := AwakeFromMutex(w, o).world;
      && OnlyBlockOf(w, w2, w.rings[i][k]) && w2.blocked == w.blocked + {o}
      && var (t, t2) := (w.threads[w.rings[i][k]], w2.threads[w.rings[i][k]]);
      && t2 == t.(state := NotBlocked, waitsFor := None, locks := t2.locks) && CountsAs(t.locks, t2.locks, o, 1)
    ensures AwakeFromMutex(w, o).Halted? ==>
      && IsFirst(w, i, k, MutexBlocked, o)
      && forall j :: 0 <= j < 24 ==> w.threads[w.rings[i][k]].locks.objs[j] != None
  {
    hide RingsOk;
    hide FirstFor;
    hide Order;
    hide CountsAs;
    hide LockTable.Valid;
    hide LockTable.CountOf;
    hide SetMutex;
    i, k := FirstPlace(w, MutexBlocked, o);
    if FirstFor(w.threads, Order(w.rings), MutexBlocked, o).Some? {
      TakesOverLaw(w, w.rings[i][k], o);
    }
  }

  /** unlock by the owner: the Lock is free afterwards if nobody is blocked on it, and is handed over otherwise. */
  lemma UnlockLaw(w: World, p: Ptr, o: Obj) returns (i: nat, k: nat)
    requires w.Ok() && p in w.threads && w.threads[p].locks.Valid() && o in w.blocked
    requires w.threads[p].locks.CountOf(o) == 1 && w.threads[p].state == NotBlocked
    requires forall q :: q in w.threads && q != p ==> w.threads[q].locks.Valid() && w.threads[q].locks.CountOf(o) == 0
    ensures (exists q :: WaitsIn(w, q, MutexBlocked, o)) ==> IsFirst(w, i, k, MutexBlocked, o) && w.rings[i][k] != p
    ensures ReleaseMutex(w, p, o).Ok? ==>
      var w2 := ReleaseMutex(w, p, o).world;
      && p in w2.threads && CountsAs(w.threads[p].locks, w2.threads[p].locks, o, 0)
      && w2.threads[p] == w.threads[p].(locks := w2.threads[p].locks)
      && if forall q :: !WaitsIn(w, q, MutexBlocked, o) then
        OnlyBlockOf(w, w2, p) && w2.blocked == w.blocked - {o}
      else
        && w.rings[i][k] in w2.threads
        && var (t, t2) := (w.threads[w.rings[i][k]], w2.threads[w.rings[i][k]]);
        && t2 == t.(state := NotBlocked, waitsFor := None, locks := t2.locks) && CountsAs(t.locks, t2.locks, o, 1)
        && w2 == w.(threads := w.threads[p := w2.threads[p]][w.rings[i][k] := t2])
    ensures ReleaseMutex(w, p, o).Halted? ==>
      && IsFirst(w, i, k, MutexBlocked, o)
      && forall j :: 0 <= j < 24 ==> w.threads[w.rings[i][k]].locks.objs[j] != None
  {
    hide RingsOk;
    hide AwakeFromMutex;
    hide CountsAs;
    hide IsFirst;
    hide LockTable.Clear;
    var t := w.threads[p];
    ReleasedLaw(w, p, o);
    hide ReleaseMutex;
    hide LockTable.Valid;
    hide LockTable.CountOf;
    var w1 := w.(threads := w.threads[p := t.(locks := t.locks.Clear(o))], blocked := w.blocked - {o});
    i, k := HandOverLaw(w1, o);
    SameWaiters(w, w1, p, i, k, o);
    assert w.blocked - {o} + {o} == w.blocked;
  }

  lemma ReleasedLaw(w: World, p: Ptr, o: Obj)
    requires w.Ok() && p in w.threads && w.threads[p].locks.Valid() && o in w.blocked
    requires w.threads[p].locks.CountOf(o) == 1
    ensures w.threads[p].locks.Holds(o) && CountsAs(w.threads[p].locks, w.threads[p].locks.Clear(o), o, 0)
    ensures w.threads[p].locks.Clear(o).Valid() && w.threads[p].locks.Clear(o).CountOf(o) == 0
    ensures var t := w.threads[p];
      var w1 := w.(threads := w.threads[p := t.(locks := t.locks.Clear(o))], blocked := w.blocked - {o});
      w1.Ok() && ReleaseMutex(w, p, o) == AwakeFromMutex(w1, o)
  {
    hide RingsOk;
    hide AwakeFromMutex;
    var t := w.threads[p];
    t.locks.HoldsIff(o);
    ClearCounts(t.locks, o);
    SetKeepsOk(w, p, t.(locks := t.locks.Clear(o)));
  }

  lemma SameWaiters(w: World, w1: World, p: Ptr, i: nat, k: nat, o: Obj)
    requires p in w.threads && w.threads[p].state == NotBlocked && w1.rings == w.rings
    requires p in w1.threads && w1.threads == w.threads[p := w1.threads[p]] && w1.threads[p].state == NotBlocked
    ensures forall q :: WaitsIn(w, q, MutexBlocked, o) <==> WaitsIn(w1, q, MutexBlocked, o)
    ensures IsFirst(w, i, k, MutexBlocked, o) <==> IsFirst(w1, i, k, MutexBlocked, o)
    ensures IsFirst(w, i, k, MutexBlocked, o) ==> w.rings[i][k] in w.threads && w.rings[i][k] != p
  {
  }

  /** A Lock that is free is left alone, and one that p does not hold stops the machine. */
  lemma UnlockRefused(w: World, p: Ptr, o: Obj)
    requires w.Ok() && p in w.threads
    ensures o !in w.blocked ==> ReleaseMutex(w, p, o) == Ok(w)
    ensures o in w.blocked && Some(o) !in w.threads[p].locks.objs ==> ReleaseMutex(w, p, o) == Halted(UnlockException)
  {
    hide RingsOk;
    w.threads[p].locks.HoldsIff(o);
    hide LockTable.Holds;
  }

  // The life of a thread

  /** p has been put right behind the cursor. */
  predicate ListedIn(r: seq<Ptr>, r2: seq<Ptr>, p: Ptr) {
    && |r2| == |r| + 1 && r2[if r == [] then 0 else 1] == p && (r != [] ==> r2[0] == r[0])
    && forall j :: 1 <= j < |r| ==> r2[j + 1] == r[j]
  }

  /** The member at k has been taken out.  If it was the cursor, the cursor is now its predecessor, the last one. */
  predicate TakenOut(r: seq<Ptr>, r2: seq<Ptr>, k: nat) {
    && k < |r| == |r2| + 1
    && if k == 0 && |r| > 1 then
      r2[0] == r[|r| - 1] && forall j :: 1 <= j < |r2| ==> r2[j] == r[j]
    else
      forall j :: 0 <= j < |r2| ==> r2[j] == r[if j < k then j else j + 1]
  }

  lemma InsertLists(r: seq<Ptr>, p: Ptr)
    ensures ListedIn(r, InsertRing(r, p), p)
  {
  }

  lemma CursorOut(r: seq<Ptr>)
    requires |r| > 1
    ensures TakenOut(r, [r[|r| - 1]] + r[1..|r| - 1], 0)
  {
    var r2 := [r[|r| - 1]] + r[1..|r| - 1];
    assert forall j :: 1 <= j < |r2| ==> r2[j] == r[j];
  }

  lemma OtherOut(r: seq<Ptr>, k: nat)
    requires k < |r| && (k > 0 || |r| == 1)
    ensures TakenOut(r, r[..k] + r[k + 1..], k)
  {
    var r2 := r[..k] + r[k + 1..];
    assert forall j :: 0 <= j < |r2| ==> r2[j] == r[if j < k then j else j + 1];
  }

  lemma RemoveTakesOut(r: seq<Ptr>, p: Ptr)
    requires p in r
    ensures r[IndexIn(r, p)] == p && TakenOut(r, RemoveRing(r, p), IndexIn(r, p))
  {
    hide TakenOut;
    hide IndexIn;
    var k := IndexIn(r, p);
    if k == 0 && |r| > 1 {
      CursorOut(r);
    } else {
      OtherOut(r, k);
    }
  }

  /** The running thread loses its slice if a thread of higher priority has come. */
  predicate SliceCut(w: World, w2: World, priority: int) {
    && w.current in w.threads && w.current in w2.threads
    && w2.threads[w.current] ==
         if w.threads[w.current].priority < priority then w.threads[w.current].(numTicks := 0)
         else w.threads[w.current]
  }

  lemma InsertLaw(w: World, p: Ptr)
    requires p in w.threads && w.current in w.threads && |w.rings| == MAXPRIORITY
    requires 1 <= w.threads[p].priority <= MAXPRIORITY
    ensures var (w2, priority) := (Insert(w, p), w.threads[p].priority);
      && SliceCut(w, w2, priority) && w2.threads == w.threads[w.current := w2.threads[w.current]]
      && |w2.rings| == MAXPRIORITY
      && w2 == World(w.rings[priority - 1 := w2.rings[priority - 1]], w2.threads, w.current, w.blocked)
      && ListedIn(w.rings[priority - 1], w2.rings[priority - 1], p)
  {
    hide InsertRing;
    InsertLists(w.rings[w.threads[p].priority - 1], p);
    hide ListedIn;
  }

  /** A new thread is runnable, has a full slice and no locks, and is the next of its level to be tried.  Nothing else
      changes, but that the running thread loses its slice to a higher priority. */
  lemma CreateLaw(w: World, p: Ptr, obj: Obj, priority: int)
    requires w.Ok() && p !in w.threads && 1 <= priority <= MAXPRIORITY
    ensures |w.threads| == 46 ==> Create(w, p, obj, priority) == Halted(TooManyThreads)
    ensures |w.threads| != 46 ==>
      && Create(w, p, obj, priority).Ok? && var w2 := Create(w, p, obj, priority).world;
      && p in w2.threads && var t := w2.threads[p];
      && t.obj == Some(obj) && t.priority == priority == t.numTicks && t.state == NotBlocked && t.waitsFor == None
      && |t.locks.objs| == 24 && t.locks.Valid() && (forall x :: t.locks.CountOf(x) == 0)
      && SliceCut(w, w2, priority) && w2.threads == w.threads[p := t][w.current := w2.threads[w.current]]
      && |w2.rings| == |w.rings| == 10
      && w2 == World(w.rings[priority - 1 := w2.rings[priority - 1]], w2.threads, w.current, w.blocked)
      && ListedIn(w.rings[priority - 1], w2.rings[priority - 1], p)
  {
    RingsAre(w);
    hide RingsOk;
    hide ListedIn;
    var t := FreshThread(Some(obj), priority);
    FreshTable(Some(obj), priority);
    hide LockTable.CountOf;
    hide LockTable.Valid;
    InsertLaw(w.Set(p, t), p);
    hide Insert;
  }

  lemma RingsAre(w: World)
    requires w.Ok()
    ensures |w.rings| == MAXPRIORITY == 10
    ensures forall p :: p in w.threads ==>
      1 <= w.threads[p].priority <= MAXPRIORITY && p in w.rings[w.threads[p].priority - 1]
  {
  }

  lemma FreshTable(obj: Option<Obj>, priority: int)
    ensures var t := FreshThread(obj, priority);
      |t.locks.objs| == 24 && t.locks.Valid() && forall x :: t.locks.CountOf(x) == 0
  {
  }

  lemma RemovedLaw(w: World, p: Ptr) returns (k: nat)
    requires w.Ok() && p in w.threads
    ensures |w.rings| == 10 && 1 <= w.threads[p].priority <= 10 && p in w.rings[w.threads[p].priority - 1]
    ensures var (w2, level) := (Remove(w, p), w.threads[p].priority - 1);
      && |w2.rings| == 10 && w2 == w.(rings := w.rings[level := w2.rings[level]])
      && RingsOk(w2.rings, w.threads - {p})
      && k < |w.rings[level]| && w.rings[level][k] == p && TakenOut(w.rings[level], w2.rings[level], k)
  {
    RingsAre(w);
    RemoveKeepsRings(w.rings, w.threads, p);
    hide RingsOk;
    hide RemoveRing;
    hide TakenOut;
    hide IndexIn;
    var level := w.threads[p].priority - 1;
    k := IndexIn(w.rings[level], p);
    RemoveTakesOut(w.rings[level], p);
  }

  /** The main thread alone: runnable, with priority 5 and a full slice, without locks, and no mutex bit set. */
  lemma InitialLaw(main: Ptr)
    requires main != NULL
    ensures var w := InitialWorld(main);
      && w.Ok() && w.threads.Keys == {main} && w.current == main && w.blocked == {}
      && |w.rings| == 10 && w.rings[4] == [main]
      && var t := w.threads[main];
      && t.obj == None && t.priority == 5 == t.numTicks && t.state == NotBlocked && t.waitsFor == None
      && |t.locks.objs| == 24 && t.locks.Valid() && forall x :: t.locks.CountOf(x) == 0
  {
    InitialOk(main);
    FreshTable(None, NORMPRIORITY);
    hide RingsOk;
    hide LockTable.Valid;
    hide LockTable.CountOf;
  }

  /** The running thread exits: it is taken out of its list and of the threads, and the thread at the cursor of the
      highest level that has one runs next, with what it has left of its slice. */
  lemma ExitLaw(w: World) returns (i: nat, k: nat)
    requires w.Ok() && |w.threads| > 1
    ensures var (w2, level) := (Delete(w), w.threads[w.current].priority - 1);
      && 0 <= level < 10 == |w.rings| == |w2.rings|
      && w2 == World(w.rings[level := w2.rings[level]], w.threads - {w.current}, w2.current, w.blocked)
      && k < |w.rings[level]| && w.rings[level][k] == w.current && TakenOut(w.rings[level], w2.rings[level], k)
      && i < 10 && w2.rings[i] != [] && w2.rings[i][0] == w2.current && forall j :: i < j < 10 ==> w2.rings[j] == []
  {
    hide RingsOk;
    hide Remove;
    hide TakenOut;
    hide TopLevel;
    k := RemovedLaw(w, w.current);
    var other := AnotherThread(w.threads, w.current);
    i := HighestLaw(Remove(w, w.current).rings, w.threads - {w.current}, other);
  }

  lemma HighestLaw(rings: Rings, threads: map<Ptr, Thread>, p: Ptr) returns (i: nat)
    requires RingsOk(rings, threads) && p in threads
    ensures i == TopLevel(rings, MAXPRIORITY) && i < 10 == |rings| && rings[i] != []
    ensures forall j :: i < j < 10 ==> rings[j] == []
  {
    TopOk(rings, threads, p);
    i := TopLevel(rings, MAXPRIORITY);
  }

  /** findThreadCB turns the list of the thread so that it comes first, and nothing else. */
  lemma FindLaw(w: World, obj: Obj) returns (k: nat)
    requires w.Ok()
    ensures FindThread(w, obj).None? <==> forall p :: p in w.threads ==> w.threads[p].obj != Some(obj)
    ensures FindThread(w, obj).Some? ==>
      var (w2, p) := FindThread(w, obj).value;
      && p in w.threads && w.threads[p].obj == Some(obj) && 1 <= w.threads[p].priority <= 10 == |w.rings|
      && var r := w.rings[w.threads[p].priority - 1];
      && k < |r| && r[k] == p && w2 == w.(rings := w.rings[w.threads[p].priority - 1 := r[k..] + r[..k]])
  {
    FindThreadFound(w, obj);
    FindLevelFound(w, obj, 0);
    k := 0;
    if FindLevel(w, obj, 0).Some? {
      k := FindLevel(w, obj, 0).value.1;
    }
  }

  /** r2 has the members of r but p. */
  ghost predicate Without(r: seq<Ptr>, r2: seq<Ptr>, p: Ptr) {
    forall q {:trigger q in r2} :: q in r2 <==> q in r && q != p
  }

  /** Thread p has been moved from one list into another, and its priority changed; the running thread loses its slice
      if it is another one of lower priority. */
  ghost predicate Moved(w: World, w2: World, p: Ptr, priority: int)
    requires 1 <= priority <= MAXPRIORITY
  {
    && p in w.threads && p in w2.threads && w.current in w.threads && w.current in w2.threads
    && |w.rings| == |w2.rings| == 10 && 1 <= w.threads[p].priority <= 10
    && w2.threads[p] == w.threads[p].(priority := priority)
    && (p != w.current ==> SliceCut(w, w2, priority))
    && w2.threads == w.threads[p := w2.threads[p]][w.current := w2.threads[w.current]]
    && w2.current == w.current && w2.blocked == w.blocked
    && ListedIn(w.rings[priority - 1], w2.rings[priority - 1], p)
    && Without(w.rings[w.threads[p].priority - 1], w2.rings[w.threads[p].priority - 1], p)
    && forall j :: 0 <= j < 10 && j != priority - 1 && j != w.threads[p].priority - 1 ==> w2.rings[j] == w.rings[j]
  }

  /** A change of priority puts the thread of the object into the list of its new priority, right behind the cursor,
      and takes it out of the old one; of its control block only the priority changes.  Without such a thread the
      machine stops. */
  lemma PriorityLaw(w: World, obj: Obj, priority: int) returns (p: Ptr)
    requires w.Ok() && 1 <= priority <= MAXPRIORITY
    ensures (forall q :: q in w.threads ==> w.threads[q].obj != Some(obj)) ==>
      ThreadSpec.SetPriority(w, obj, priority) == Halted(ThreadNotFound)
    ensures (exists q :: q in w.threads && w.threads[q].obj == Some(obj)) ==>
      && p in w.threads && w.threads[p].obj == Some(obj) && ThreadSpec.SetPriority(w, obj, priority).Ok?
      && var w2 := ThreadSpec.SetPriority(w, obj, priority).world;
      && w2.Ok() && if priority == w.threads[p].priority then w2 == w else Moved(w, w2, p, priority)
  {
    hide FindThread;
    hide RingsOk;
    hide Moved;
    hide Remove;
    hide Insert;
    SetPriorityKeepsOk(w, obj, priority);
    FindThreadFound(w, obj);
    p := NULL;
    if FindThread(w, obj).Some? {
      var k := FindLaw(w, obj);
      p := FindThread(w, obj).value.1;
      if priority != w.threads[p].priority {
        var w1 := FindThread(w, obj).value.0;
        MoveLaw(w1, p, priority);
        MovedFromTurned(w, w1, ThreadSpec.SetPriority(w, obj, priority).world, p, priority);
      }
    }
  }

  lemma Relisted(w: World, w2: World, w3: World, p: Ptr, priority: int)
    requires p in w.threads && w.current in w.threads && |w.rings| == |w3.rings| == 10 && 1 <= priority <= MAXPRIORITY
    requires 1 <= w.threads[p].priority <= 10 && w.threads[p].priority != priority
    requires |w2.rings| == 10
    requires w2 == w.(rings := w.rings[w.threads[p].priority - 1 := w2.rings[w.threads[p].priority - 1]])
    requires Without(w.rings[w.threads[p].priority - 1], w2.rings[w.threads[p].priority - 1], p)
    requires w.current in w3.threads && var w1 := w2.Set(p, w.threads[p].(priority := priority));
      && w.current in w1.threads && SliceCut(w1, w3, priority)
      && w3.threads == w1.threads[w.current := w3.threads[w.current]]
      && w3 == World(w2.rings[priority - 1 := w3.rings[priority - 1]], w3.threads, w.current, w.blocked)
      && ListedIn(w2.rings[priority - 1], w3.rings[priority - 1], p)
    ensures Moved(w, w3, p, priority)
  {
    hide Without;
    hide ListedIn;
  }

  lemma LevelWithout(w: World, w2: World, p: Ptr, priority: int)
    requires w.Ok() && w2.Ok() && p in w.threads && p in w2.threads && w2.threads[p].priority == priority
    requires w2.threads.Keys == w.threads.Keys && w.threads[p].priority != priority
    requires forall q :: q in w.threads && q != p ==> w2.threads[q].priority == w.threads[q].priority
    ensures |w.rings| == |w2.rings| == 10 && 1 <= w.threads[p].priority <= 10
    ensures Without(w.rings[w.threads[p].priority - 1], w2.rings[w.threads[p].priority - 1], p)
  {
    hide RingsOk;
    hide LevelIs;
    hide Without;
    RingsAre(w);
    RingsAre(w2);
    var level := w.threads[p].priority - 1;
    LevelOf(w.rings, w.threads, level);
    LevelOf(w2.rings, w2.threads, level);
    OneLess(w.rings[level], w2.rings[level], w.threads, w2.threads, level, p);
  }

  lemma OneLess(r: seq<Ptr>, r2: seq<Ptr>, threads: map<Ptr, Thread>, threads2: map<Ptr, Thread>, level: nat, p: Ptr)
    requires LevelIs(r, threads, level) && LevelIs(r2, threads2, level) && threads2.Keys == threads.Keys
    requires p in threads && threads[p].priority == level + 1 && threads2[p].priority != level + 1
    requires forall q :: q in threads && q != p ==> threads2[q].priority == threads[q].priority
    ensures Without(r, r2, p)
  {
    hide NoDuplicates;
  }

  lemma TurnedWithout(r: seq<Ptr>, r1: seq<Ptr>, r2: seq<Ptr>, threads: map<Ptr, Thread>, level: nat, p: Ptr)
    requires LevelIs(r, threads, level) && LevelIs(r1, threads, level) && Without(r1, r2, p)
    ensures Without(r, r2, p)
  {
    hide NoDuplicates;
  }

  lemma MoveLaw(w: World, p: Ptr, priority: int)
    requires w.Ok() && p in w.threads && 1 <= priority <= MAXPRIORITY && priority != w.threads[p].priority
    ensures |w.rings| == 10 && 1 <= w.threads[p].priority <= 10 && p in w.rings[w.threads[p].priority - 1]
    ensures var w2 := Remove(w, p);
      && p in w2.threads && w2.current in w2.threads && |w2.rings| == 10
      && Moved(w, Insert(w2.Set(p, w2.threads[p].(priority := priority)), p), p, priority)
  {
    hide RingsOk;
    hide RemoveRing;
    hide TakenOut;
    hide ListedIn;
    hide SliceCut;
    hide Insert;
    hide Moved;
    var k := RemovedLaw(w, p);
    MoveOk(w, p, priority);
    var w2 := Remove(w, p);
    hide Remove;
    var w3 := w2.Set(p, w2.threads[p].(priority := priority));
    InsertLaw(w3, p);
    PrioritiesKept(w, w3, Insert(w3, p), p, priority);
    LevelWithout(w, Insert(w3, p), p, priority);
    hide Without;
    hide World.Ok;
    WithoutEarly(w.rings[w.threads[p].priority - 1], w2.rings[w.threads[p].priority - 1],
                 Insert(w3, p).rings[w.threads[p].priority - 1], p);
    Relisted(w, w2, Insert(w3, p), p, priority);
  }

  lemma PrioritiesKept(w: World, w3: World, w4: World, p: Ptr, priority: int)
    requires p in w.threads && w.current in w.threads && w3.current == w.current
    requires w3.threads == w.threads[p := w.threads[p].(priority := priority)] && SliceCut(w3, w4, priority)
    requires w.current in w4.threads && w4.threads == w3.threads[w.current := w4.threads[w.current]]
    ensures w4.threads.Keys == w.threads.Keys && w4.threads[p].priority == priority
    ensures forall q :: q in w.threads && q != p ==> w4.threads[q].priority == w.threads[q].priority
  {
  }

  lemma WithoutEarly(r: seq<Ptr>, r2: seq<Ptr>, r3: seq<Ptr>, p: Ptr)
    requires Without(r, r3, p) && r3 == r2
    ensures Without(r, r2, p)
  {
  }

  /** A list that has been turned has the same members. */
  lemma MovedFromTurned(w: World, w1: World, w2: World, p: Ptr, priority: int)
    requires w.Ok() && w1.Ok() && p in w.threads && 1 <= priority <= MAXPRIORITY && priority != w.threads[p].priority
    requires |w.rings| == |w1.rings| == 10 && 1 <= w.threads[p].priority <= 10
    requires w1 == w.(rings := w.rings[w.threads[p].priority - 1 := w1.rings[w.threads[p].priority - 1]])
    requires Moved(w1, w2, p, priority)
    ensures Moved(w, w2, p, priority)
  {
    hide RingsOk;
    hide ListedIn;
    hide SliceCut;
    hide LevelIs;
    hide Without;
    var level := w.threads[p].priority - 1;
    LevelOf(w.rings, w.threads, level);
    LevelOf(w1.rings, w.threads, level);
    TurnedWithout(w.rings[level], w1.rings[level], w2.rings[level], w.threads, level, p);
    assert SliceCut(w1, w2, priority) == SliceCut(w, w2, priority) by { SameSlice(w, w1, w2, priority); }
  }

  lemma SameSlice(w: World, w1: World, w2: World, priority: int)
    requires w1.threads == w.threads && w1.current == w.current
    ensures SliceCut(w1, w2, priority) == SliceCut(w, w2, priority)
  {
  }

  // Scheduling

  /** A thread that yields keeps no tick; nothing else changes. */
  lemma YieldLaw(w: World)
    requires w.Ok()
    ensures OnlyBlockOf(w, Yield(w), w.current) && Yield(w).blocked == w.blocked
    ensures Yield(w).threads[w.current] == w.threads[w.current].(numTicks := 0)
  {
    hide RingsOk;
  }

  /** Member k of level i is the one to be chosen: it can run, nobody in a higher level can, and nobody between the
      cursor and it can; the member at the cursor comes last. */
  ghost predicate IsNext(w: World, i: nat, k: nat) {
    && i < |w.rings| && k < |w.rings[i]| && MayRun(w, w.rings[i][k])
    && (forall j, q :: i < j < |w.rings| && q in w.rings[j] ==> !MayRun(w, q))
    && forall n :: 0 < n < (if k == 0 then |w.rings[i]| else k) ==> !MayRun(w, w.rings[i][n])
  }

  /** q is not blocked, or has been awakened and the object that it waits for is free. */
  predicate MayRun(w: World, q: Ptr) {
    q in w.threads &&
    match w.threads[q].state {
      case NotBlocked => true
      case WaitAwakened => w.threads[q].waitsFor.Some? && w.threads[q].waitsFor.value !in w.blocked
      case _ => false
    }
  }

  lemma {:induction false} FirstTried(w: World, order: seq<Ptr>) returns (k: nat)
    requires FirstEligible(w.threads, w.blocked, order).Some?
    ensures k < |order| && order[k] == FirstEligible(w.threads, w.blocked, order).value && MayRun(w, order[k])
    ensures forall n :: 0 <= n < k ==> !MayRun(w, order[n])
  {
    if order[0] in w.threads && Eligible(w.threads[order[0]], w.blocked) {
      k := 0;
    } else {
      k := FirstTried(w, order[1..]);
      assert forall n :: 0 < n < |order| ==> order[n] == order[1..][n - 1];
      k := k + 1;
    }
  }

  lemma NobodyTried(w: World, r: seq<Ptr>)
    requires FirstEligible(w.threads, w.blocked, Trial(r)).None?
    ensures forall q :: q in r ==> !MayRun(w, q)
  {
    forall q | q in r ensures q in Trial(r) {
      var k :| 0 <= k < |r| && r[k] == q;
      assert Trial(r)[if k == 0 then |r| - 1 else k - 1] == q;
    }
  }

  lemma TrialPlaces(r: seq<Ptr>)
    requires Trial(r) != []
    ensures |Trial(r)| == |r| && Trial(r)[|r| - 1] == r[0]
    ensures forall j :: 0 < j < |r| ==> r[j] == Trial(r)[j - 1]
  {
  }

  lemma {:induction false} SelectLaw(w: World, n: nat) returns (i: nat, k: nat)
    requires n <= |w.rings|
    requires forall j, q :: n <= j < |w.rings| && q in w.rings[j] ==> !MayRun(w, q)
    ensures Select(w, n).Some? ==> IsNext(w, i, k) && w.rings[i][k] == Select(w, n).value
    ensures Select(w, n).None? ==> forall j, q :: 0 <= j < |w.rings| && q in w.rings[j] ==> !MayRun(w, q)
    decreases n
  {
    hide MayRun;
    hide Eligible;
    hide FirstEligible;
    hide Trial;
    i, k := 0, 0;
    if n > 0 {
      var r := w.rings[n - 1];
      if FirstEligible(w.threads, w.blocked, Trial(r)).Some? {
        var m := FirstTried(w, Trial(r));
        i, k := n - 1, if m + 1 == |r| then 0 else m + 1;
        TrialPlaces(r);
      } else {
        NobodyTried(w, r);
        i, k := SelectLaw(w, n - 1);
      }
    }
  }

  /** The thread that is chosen gets a full slice; if it has been awakened from a wait, it takes the object again.  Its
      list begins with it afterwards, unless it has been running anyway. */
  ghost predicate Chosen(w: World, w2: World, i: nat, k: nat) {
    && IsNext(w, i, k) && var (p, r) := (w.rings[i][k], w.rings[i]);
    && p in w2.threads && var (t, t2) := (w.threads[p], w2.threads[p]);
    && t2 == t.(state := NotBlocked, waitsFor := t2.waitsFor, numTicks := i + 1)
    && (if t.state == WaitAwakened then
          t2.waitsFor == None && t.waitsFor.Some? && w2.blocked == w.blocked + {t.waitsFor.value}
        else t2.waitsFor == t.waitsFor && w2.blocked == w.blocked)
    && w2 == World(if p == w.current then w.rings else w.rings[i := r[k..] + r[..k]], w2.threads, p, w2.blocked)
  }

  lemma AdmitLaw(w: World, p: Ptr)
    requires w.Ok() && MayRun(w, p)
    ensures var (t, w2) := (w.threads[p], Admit(w, p));
      && OnlyBlockOf(w, w2, p) && var t2 := w2.threads[p];
      && t2 == t.(state := NotBlocked, waitsFor := t2.waitsFor)
      && (if t.state == WaitAwakened then
            t2.waitsFor == None && t.waitsFor.Some? && w2.blocked == w.blocked + {t.waitsFor.value}
          else t2.waitsFor == t.waitsFor && w2.blocked == w.blocked)
  {
    hide RingsOk;
  }

  lemma DispatchLaw(w: World, i: nat, k: nat)
    requires w.Ok() && i < |w.rings| && k < |w.rings[i]|
    ensures var (p, r) := (w.rings[i][k], w.rings[i]);
      && p in w.threads && var w2 := Dispatch(w, p);
      && w2 == World(if p == w.current then w.rings else w.rings[i := r[k..] + r[..k]],
                     w.threads[p := w.threads[p].(numTicks := i + 1)], p, w.blocked)
  {
    var p := w.rings[i][k];
    assert p in w.rings[i] && w.threads[p].priority == i + 1;
    IndexOf(w.rings[i], k);
    hide RingsOk;
    hide NoDuplicates;
    hide IndexIn;
  }

  lemma ChosenLaw(w: World, i: nat, k: nat)
    requires w.Ok() && IsNext(w, i, k)
    ensures w.rings[i][k] in w.threads
    ensures var w2 := Dispatch(Admit(w, w.rings[i][k]), w.rings[i][k]);
      && Chosen(w, w2, i, k) && w2.threads == w.threads[w.rings[i][k] := w2.threads[w.rings[i][k]]]
  {
    hide RingsOk;
    var p := w.rings[i][k];
    AdmitLaw(w, p);
    assert Admit(w, p).rings == w.rings;
    DispatchLaw(Admit(w, p), i, k);
    hide Admit;
    hide Dispatch;
  }

  lemma SwitchLaw(w: World) returns (i: nat, k: nat)
    requires w.Ok()
    ensures (forall q :: !MayRun(w, q)) ==> Switch(w) == Halted(SchedulingError)
    ensures (exists q :: MayRun(w, q)) ==>
      && Switch(w).Ok? && var w2 := Switch(w).world;
      && Chosen(w, w2, i, k) && w2.threads == w.threads[w.rings[i][k] := w2.threads[w.rings[i][k]]]
  {
    RingsAre(w);
    i, k := SelectLaw(w, MAXPRIORITY);
    forall q | MayRun(w, q) ensures Select(w, MAXPRIORITY).Some? {
      assert q in w.rings[w.threads[q].priority - 1];
    }
    hide RingsOk;
    hide Select;
    if Select(w, MAXPRIORITY).Some? {
      ChosenLaw(w, i, k);
      hide Chosen;
      hide Admit;
      hide Dispatch;
    }
  }

  /** The counter of the running thread goes down. */
  function Ticked(w: World): World
    requires w.current in w.threads
  {
    var t := w.threads[w.current];
    w.(threads := w.threads[w.current := t.(numTicks := (t.numTicks - 1) % 0x100)])
  }

  lemma TickedLaw(w: World)
    requires w.Ok()
    ensures Tick(w) == Ticked(w) && forall q :: MayRun(w, q) <==> MayRun(Ticked(w), q)
  {
    hide RingsOk;
  }

  /** scheduler(): with one thread left, nothing.  While the running thread can run and has a tick, it loses one and
      runs on.  Otherwise its counter goes down all the same, and the next thread is chosen; the machine stops exactly
      if no thread can run. */
  lemma ScheduleLaw(w: World) returns (i: nat, k: nat)
    requires w.Ok()
    ensures |w.threads| == 1 ==> Schedule(w) == Ok(w)
    ensures |w.threads| != 1 ==>
      var t := w.threads[w.current];
      if t.numTicks != 0 && t.state == NotBlocked then Schedule(w) == Ok(Ticked(w))
      else if forall q :: !MayRun(w, q) then Schedule(w) == Halted(SchedulingError)
      else
        && Schedule(w).Ok? && var w2 := Schedule(w).world;
        && Chosen(Ticked(w), w2, i, k)
        && w2.threads == Ticked(w).threads[w.rings[i][k] := w2.threads[w.rings[i][k]]]
  {
    hide RingsOk;
    hide Switch;
    hide Chosen;
    TickedLaw(w);
    hide MayRun;
    i, k := SwitchLaw(Tick(w));
    hide Tick;
    assert Ticked(w).rings == w.rings;
    hide Ticked;
  }
}
