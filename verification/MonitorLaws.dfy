/** What a notify and a tryLock mean for the run that follows. */
module MonitorLaws {
  import opened LockTables
  import opened ThreadSpec
  import opened ListLemmas
  import opened ThreadLaws
  import opened MonitorProtocol
  import opened MonitorRuns

  // An awakened thread

  lemma UnlockKeepsAwakened(w: World, p: Ptr, o: Obj, x: Obj)
    requires w.Ok() && p != w.current && WaitsIn(w, p, WaitAwakened, o)
    ensures ReleaseMutex(w, w.current, x).Ok? ==> WaitsIn(ReleaseMutex(w, w.current, x).world, p, WaitAwakened, o)
  {
    hide RingsOk;
    hide FirstFor;
    hide Order;
    var c := w.current;
    if x in w.blocked && w.threads[c].locks.Holds(x) {
      var t2 := w.threads[c].(locks := w.threads[c].locks.Clear(x));
      SetKeepsOk(w, c, t2);
      var w1 := w.(threads := w.threads[c := t2], blocked := w.blocked - {x});
      FirstForFound(w1.threads, Order(w1.rings), MutexBlocked, x);
      match FirstFor(w1.threads, Order(w1.rings), MutexBlocked, x) {
        case None =>
        case Some(q) => HandOffResult(w1, x, q);
      }
    }
  }

  lemma MonitorOpsKeepAwakened(w: World, p: Ptr, o: Obj, x: Obj)
    requires w.Ok() && p != w.current && WaitsIn(w, p, WaitAwakened, o)
    ensures SyncEnter(w, x).0.Ok? ==> WaitsIn(SyncEnter(w, x).0.world, p, WaitAwakened, o)
    ensures w.threads[w.current].locks.Holds(x) ==> WaitsIn(SyncExit(w, x), p, WaitAwakened, o)
    ensures NativeWait(w, x).Ok? ==> WaitsIn(NativeWait(w, x).world, p, WaitAwakened, o)
    ensures SetMutex(w, w.current, x).Ok? ==> WaitsIn(SetMutex(w, w.current, x).world, p, WaitAwakened, o)
    ensures WaitsIn(Yield(w), p, WaitAwakened, o)
  {
    hide RingsOk;
    hide LockTable.Holds;
    hide LockTable.Full;
  }

  lemma NotifyKeepsAwakened(w: World, p: Ptr, o: Obj, x: Obj)
    requires w.Ok() && p != w.current && WaitsIn(w, p, WaitAwakened, o)
    ensures Notify(w, x).Ok? ==> WaitsIn(Notify(w, x).world, p, WaitAwakened, o)
    ensures NotifyAll(w, x).Ok? ==> WaitsIn(NotifyAll(w, x).world, p, WaitAwakened, o)
  {
    hide RingsOk;
    FirstForFound(w.threads, Order(w.rings), WaitBlocked, x);
    hide FirstFor;
    hide Order;
  }

  lemma StartKeepsAwakened(w: World, p: Ptr, o: Obj, q: Ptr, obj: Obj, priority: int)
    requires w.Ok() && q !in w.threads && 1 <= priority <= MAXPRIORITY
    requires p != w.current && WaitsIn(w, p, WaitAwakened, o)
    ensures Create(w, q, obj, priority).Ok? ==> WaitsIn(Create(w, q, obj, priority).world, p, WaitAwakened, o)
  {
    hide RingsOk;
    hide InsertRing;
  }

  /** No bytecode of another thread takes the awakening back. */
  lemma ExecKeepsAwakened(s: Sys, L: set<Obj>, owner: map<Obj, Ptr>, op: Op, p: Ptr, o: Obj)
    requires s.w.Ok() && s.frames.Keys == s.w.threads.Keys && s.frames[s.w.current] != [] && Legal(s, L, op)
    requires p != s.w.current && WaitsIn(s.w, p, WaitAwakened, o) && Ready(s, L, owner)
    ensures Exec(s, op).Next? ==> WaitsIn(Exec(s, op).s.w, p, WaitAwakened, o)
  {
    hide InvWith;
    hide RingsOk;
    hide SyncEnter;
    hide SyncExit;
    hide NativeWait;
    hide Notify;
    hide NotifyAll;
    hide SetMutex;
    hide ReleaseMutex;
    hide Create;
    hide Delete;
    hide HeldBy;
    hide ThreadSpec.SetPriority;
    hide Yield;
    hide LockTable.Holds;
    TopIsHeld(s, L, owner);
    match op {
      case Invoke(Some(x)) => MonitorOpsKeepAwakened(s.w, p, o, x);
      case Return => ReturnKeepsAwakened(s, L, owner, p, o);
      case Wait(x) => MonitorOpsKeepAwakened(s.w, p, o, x);
      case NotifyOne(x) => NotifyKeepsAwakened(s.w, p, o, x);
      case NotifyEvery(x) => NotifyKeepsAwakened(s.w, p, o, x);
      case LockOp(x) => MonitorOpsKeepAwakened(s.w, p, o, x);
      case TryLockOp(x) => MonitorOpsKeepAwakened(s.w, p, o, x);
      case UnlockOp(x) => UnlockKeepsAwakened(s.w, p, o, x);
      case Start(q, obj, priority) => StartKeepsAwakened(s.w, p, o, q, obj, priority);
      case ChangePriority(obj, priority) => SetPriorityKeepsOk(s.w, obj, priority);
      case YieldOp => MonitorOpsKeepAwakened(s.w, p, o, 0);
      case _ =>
    }
  }

  lemma ReturnKeepsAwakened(s: Sys, L: set<Obj>, owner: map<Obj, Ptr>, p: Ptr, o: Obj)
    requires s.w.Ok() && s.frames.Keys == s.w.threads.Keys && s.frames[s.w.current] != []
    requires p != s.w.current && WaitsIn(s.w, p, WaitAwakened, o) && Ready(s, L, owner)
    ensures ExecReturn(s).Next? ==> WaitsIn(ExecReturn(s).s.w, p, WaitAwakened, o)
  {
    hide InvWith;
    hide RingsOk;
    hide SyncExit;
    hide Delete;
    hide HeldBy;
    hide LockTable.Holds;
    TopIsHeld(s, L, owner);
    if |s.frames[s.w.current]| == 1 {
      OutermostIsPlain(s, L, owner);
      if |s.w.threads| > 1 {
        ExitThreads(s, L, owner);
      }
    } else if Top(s).Some? {
      MonitorOpsKeepAwakened(s.w, p, o, Top(s).value);
    }
  }

  /** The scheduler leaves it as it is, or chooses it. */
  lemma ScheduleKeepsAwakened(w: World, w2: World, p: Ptr, o: Obj)
    requires w.Ok() && WaitsIn(w, p, WaitAwakened, o) && Schedule(w) == Ok(w2)
    ensures w2.current == p || WaitsIn(w2, p, WaitAwakened, o)
  {
    hide RingsOk;
    hide Schedule;
    var i, k := ScheduleLaw(w);
    hide IsNext;
    hide MayRun;
  }

  lemma StepKeepsAwakened(s: Sys, L: set<Obj>, owner: map<Obj, Ptr>, op: Op, p: Ptr, o: Obj)
    requires s.w.Ok() && s.frames.Keys == s.w.threads.Keys && s.frames[s.w.current] != [] && Legal(s, L, op)
    requires p != s.w.current && WaitsIn(s.w, p, WaitAwakened, o) && Ready(s, L, owner)
    ensures Step(s, op).Next? ==> Step(s, op).s.w.current == p || WaitsIn(Step(s, op).s.w, p, WaitAwakened, o)
  {
    hide InvWith;
    hide RingsOk;
    hide Exec;
    hide Schedule;
    ExecKeepsAwakened(s, L, owner, op, p, o);
    if Step(s, op).Next? {
      ScheduleKeepsAwakened(Exec(s, op).s.w, Step(s, op).s.w, p, o);
    }
  }

  /** Until it runs, it stays awakened: a run in which p is not chosen leaves it so. */
  lemma {:induction false} RunKeepsAwakened(s: Sys, L: set<Obj>, ops: seq<Op>, s2: Sys, p: Ptr, o: Obj)
    requires Inv(s, L) && s.w.Ok() && (s.w.current == p || WaitsIn(s.w, p, WaitAwakened, o))
    requires ReachesWithout(s, L, ops, s2, p)
    ensures s2.w.current == p || WaitsIn(s2.w, p, WaitAwakened, o)
    decreases |ops|
  {
    hide RingsOk;
    hide InvWith;
    hide Inv;
    hide Step;
    hide WaitsIn;
    if ops != [] {
      var owner := InvOk(s, L);
      StepKeeps(s, L, owner, ops[0]);
      StepKeepsAwakened(s, L, owner, ops[0], p, o);
      RunKeepsAwakened(Step(s, ops[0]).s, L, ops[1..], s2, p, o);
    }
  }

  lemma FirstIsOne(w: World, i: nat, k: nat, i2: nat, k2: nat, st: ThreadState, o: Obj)
    requires IsFirst(w, i, k, st, o) && IsFirst(w, i2, k2, st, o)
    ensures i == i2 && k == k2
  {
  }

  /** The thread that a notify awakens may run from then on in every state in which the object is free, and only in
      those, until it does run; then it owns the object. */
  lemma NotifiedRuns(s: Sys, L: set<Obj>, owner: map<Obj, Ptr>, o: Obj, i: nat, k: nat, ops: seq<Op>, s2: Sys)
    requires Ready(s, L, owner) && Legal(s, L, NotifyOne(o)) && IsFirst(s.w, i, k, WaitBlocked, o)
    requires s.frames[s.w.current] != [] && Step(s, NotifyOne(o)).Next?
    requires ReachesWithout(Step(s, NotifyOne(o)).s, L, ops, s2, s.w.rings[i][k])
    ensures s2.w.Ok() && s.w.rings[i][k] in s2.w.threads
    ensures var p := s.w.rings[i][k];
      if s2.w.current != p then WaitsIn(s2.w, p, WaitAwakened, o) && (MayRun(s2.w, p) <==> o !in s2.w.blocked)
      else Running(s2) ==> Owns(s2.w.threads[p], o)
  {
    hide RingsOk;
    hide InvWith;
    hide Inv;
    hide Step;
    hide Exec;
    hide ReachesWithout;
    hide Reaches;
    hide Owns;
    hide MayRun;
    var p, s1 := s.w.rings[i][k], Step(s, NotifyOne(o)).s;
    StepKeeps(s, L, owner, NotifyOne(o));
    NotifyStep(s, L, owner, o, i, k);
    RunKeepsAwakened(s1, L, ops, s2, p, o);
    RunKeepsOtherFrames(s1, L, ops, s2, p);
    RunKeeps(s1, L, ops, s2);
    var owner2 := InvOk(s2, L);
    WaiterOwns(s, L, owner, s2, owner2, p, o);
    if s2.w.current != p {
      AwakenedMayRun(s2.w, p, o);
    }
  }

  lemma AwakenedMayRun(w: World, p: Ptr, o: Obj)
    requires WaitsIn(w, p, WaitAwakened, o)
    ensures MayRun(w, p) <==> o !in w.blocked
  {
  }

  lemma NotifyStep(s: Sys, L: set<Obj>, owner: map<Obj, Ptr>, o: Obj, i: nat, k: nat)
    requires Ready(s, L, owner) && Legal(s, L, NotifyOne(o)) && IsFirst(s.w, i, k, WaitBlocked, o)
    requires s.frames[s.w.current] != [] && Step(s, NotifyOne(o)).Next?
    ensures var (p, s1) := (s.w.rings[i][k], Step(s, NotifyOne(o)).s);
      && p in s.w.threads && p != s.w.current && WaitsIn(s.w, p, WaitBlocked, o)
      && s1.frames == s.frames && (s1.w.current == p || WaitsIn(s1.w, p, WaitAwakened, o))
  {
    hide RingsOk;
    hide InvWith;
    hide Schedule;
    hide Notify;
    var i2, k2 := NotifyLaw(s.w, o);
    FirstIsOne(s.w, i, k, i2, k2, WaitBlocked, o);
    hide IsFirst;
    var w1 := Notify(s.w, o).world;
    ExecKeeps(s, L, owner, NotifyOne(o));
    ScheduleKeepsAwakened(w1, Step(s, NotifyOne(o)).s.w, s.w.rings[i][k], o);
  }

  /** A thread that waits on o has the object in its table, and does again when it runs. */
  lemma WaiterOwns(s: Sys, L: set<Obj>, owner: map<Obj, Ptr>, s2: Sys, owner2: map<Obj, Ptr>, p: Ptr, o: Obj)
    requires InvWith(s, L, owner) && InvWith(s2, L, owner2) && p in s.w.threads && WaitsIn(s.w, p, WaitBlocked, o)
    requires p in s2.w.threads && p in s.frames && p in s2.frames && s2.frames[p] == s.frames[p]
    ensures s2.w.Ok() && (s2.w.threads[p].state == NotBlocked ==> Owns(s2.w.threads[p], o))
  {
    hide RingsOk;
    ThreadParts(s, L, owner, p);
    ThreadParts(s2, L, owner2, p);
    hide InvWith;
    hide OwnsExactly;
  }

  // tryLock

  /** In every reachable state tryLock answers true exactly if nobody holds the Lock; the caller then has become its
      one owner, with count 1.  Otherwise the bytecode changes nothing. */
  lemma TryLockTells(main: Ptr, L: set<Obj>, s: Sys, o: Obj)
    requires Reachable(main, L, s) && o in L
    ensures s.w.Ok() && s.frames.Keys == s.w.threads.Keys && s.frames[s.w.current] != []
    ensures var (got, r) := (TryLock(s.w, o).1, Exec(s, TryLockOp(o)));
      && (got <==> o !in s.w.blocked)
      && (got <==> o !in s.orphans && forall q :: q in s.w.threads ==> !Owns(s.w.threads[q], o))
      && (!got ==> r == Next(s))
      && (got && r.Next? ==>
            && r.s.w.Ok() && r.s.w.current == s.w.current && r.s.w.threads.Keys == s.w.threads.Keys
            && r.s.w.blocked == s.w.blocked + {o} && Me(r.s).locks.CountOf(o) == 1
            && forall q :: q in s.w.threads ==> (Owns(r.s.w.threads[q], o) <==> q == s.w.current))
  {
    hide RingsOk;
    hide Inv;
    hide InvWith;
    hide TryLock;
    hide Owns;
    ReachableInv(main, L, s);
    BlockedIffOwned(main, L, s, o);
    hide Reachable;
    var owner := InvOk(s, L);
    HasFrames(s, L, owner);
    MyTable(s, L, owner, o);
    TryLockHere(s, o);
  }

  lemma TryLockHere(s: Sys, o: Obj)
    requires s.w.Ok() && s.frames.Keys == s.w.threads.Keys && s.frames[s.w.current] != []
    requires Me(s).locks.Valid() && (o !in s.w.blocked ==> !Me(s).locks.Holds(o))
    requires o !in s.w.blocked ==> forall q :: q in s.w.threads ==> !Owns(s.w.threads[q], o)
    ensures var (got, r) := (TryLock(s.w, o).1, Exec(s, TryLockOp(o)));
      && (got <==> o !in s.w.blocked) && (!got ==> r == Next(s))
      && (got && r.Next? ==>
            && r.s.w.Ok() && r.s.w.current == s.w.current && r.s.w.threads.Keys == s.w.threads.Keys
            && r.s.w.blocked == s.w.blocked + {o} && Me(r.s).locks.CountOf(o) == 1
            && forall q :: q in s.w.threads ==> (Owns(r.s.w.threads[q], o) <==> q == s.w.current))
  {
    hide RingsOk;
    hide SetMutex;
    hide LockTable.Holds;
    hide LockTable.CountOf;
    hide LockTable.Valid;
    hide CountsAs;
    hide Owns;
    TryLockLaw(s.w, o);
    if o !in s.w.blocked && TryLock(s.w, o).0.Ok? {
      GotIt(s.w, TryLock(s.w, o).0.world, o);
    }
  }

  lemma HasFrames(s: Sys, L: set<Obj>, owner: map<Obj, Ptr>)
    requires InvWith(s, L, owner)
    ensures s.w.Ok() && s.frames.Keys == s.w.threads.Keys && s.frames[s.w.current] != []
  {
    hide RingsOk;
    ThreadParts(s, L, owner, s.w.current);
  }

  lemma MyTable(s: Sys, L: set<Obj>, owner: map<Obj, Ptr>, o: Obj)
    requires InvWith(s, L, owner) && o in L
    ensures s.w.Ok() && Me(s).locks.Valid() && (o !in s.w.blocked ==> !Me(s).locks.Holds(o))
    ensures !Waiting(Me(s), o)
  {
    hide RingsOk;
    ThreadParts(s, L, owner, s.w.current);
    if o !in s.w.blocked {
      FreeNotHeld(s, L, owner, s.w.current, o);
    }
  }

  lemma GotIt(w: World, w2: World, o: Obj)
    requires w.Ok() && OnlyBlockOf(w, w2, w.current)
    requires w2.threads[w.current] == w.threads[w.current].(waitsFor := None, locks := w2.threads[w.current].locks)
    requires CountsAs(w.threads[w.current].locks, w2.threads[w.current].locks, o, 1)
    requires forall q :: q in w.threads ==> !Owns(w.threads[q], o)
    ensures w2.Ok() && w2.threads[w.current].locks.CountOf(o) == 1
    ensures w2.threads.Keys == w.threads.Keys
    ensures forall q :: q in w.threads ==> (Owns(w2.threads[q], o) <==> q == w.current)
  {
    hide RingsOk;
    SetKeepsOk(w, w.current, w2.threads[w.current]);
    hide LockTable.CountOf;
    hide LockTable.Valid;
  }
}
