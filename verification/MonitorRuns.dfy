/** What holds in every state that a run of the interpreter can reach. */
module MonitorRuns {
  import opened LockTables
  import opened ThreadSpec
  import opened ListLemmas
  import opened MonitorProtocol

  lemma ExecKeeps(s: Sys, L: set<Obj>, owner: map<Obj, Ptr>, op: Op)
    requires Ready(s, L, owner) && Legal(s, L, op)
    ensures s.frames[s.w.current] != []
    ensures Exec(s, op).Next? ==> Inv(Exec(s, op).s, L) && Exec(s, op).s.w.Ok()
  {
    hide Inv;
    hide InvWith;
    hide ThreadOk;
    hide RingsOk;
    hide SyncEnter;
    hide ExecReturn;
    hide NativeWait;
    hide Notify;
    hide NotifyAll;
    hide SetMutex;
    hide ReleaseMutex;
    hide Create;
    hide ThreadSpec.SetPriority;
    hide Yield;
    TopIsHeld(s, L, owner);
    HasInv(s, L, owner);
    match op {
      case Invoke(None) =>
        ThreadParts(s, L, owner, s.w.current);
        PlainPushOk(Me(s), s.frames[s.w.current], L, s.w.blocked);
        FramesKeep(s, L, owner, s.frames[s.w.current] + [None]);
        HasInv(Exec(s, op).s, L, owner);
      case Invoke(Some(o)) => InvokeKeeps(s, L, owner, o);
      case Return => ReturnKeeps(s, L, owner);
      case Wait(o) =>
        WaitKeeps(s, L, owner, o);
        HasInv(Exec(s, op).s, L, owner - {o});
      case NotifyOne(o) =>
        NotifyKeeps(s, L, owner, o);
        if Exec(s, op).Next? { HasInv(Exec(s, op).s, L, owner); }
      case NotifyEvery(o) =>
        NotifyAllKeeps(s, L, owner, o);
        if Exec(s, op).Next? { HasInv(Exec(s, op).s, L, owner); }
      case LockOp(o) => LockKeeps(s, L, owner, o);
      case TryLockOp(o) => LockKeeps(s, L, owner, o);
      case UnlockOp(o) => UnlockKeeps(s, L, owner, o);
      case Start(p, obj, priority) =>
        StartKeeps(s, L, owner, p, obj, priority);
        if Exec(s, op).Next? { HasInv(Exec(s, op).s, L, owner); }
      case ChangePriority(obj, priority) =>
        ChangePriorityKeeps(s, L, owner, obj, priority);
        if Exec(s, op).Next? { HasInv(Exec(s, op).s, L, owner); }
      case YieldOp =>
        YieldKeeps(s, L, owner);
        HasInv(Exec(s, op).s, L, owner);
      case Other =>
    }
    if Exec(s, op).Next? {
      var owner2 := InvOk(Exec(s, op).s, L);
    }
  }

  /** Is the only live thread about to run although it is blocked or waiting? */
  predicate LoneBlocked(s: Sys)
    requires s.w.current in s.w.threads
  {
    |s.w.threads| == 1 && !Running(s)
  }

  lemma StepKeeps(s: Sys, L: set<Obj>, owner: map<Obj, Ptr>, op: Op)
    requires Ready(s, L, owner) && Legal(s, L, op)
    ensures s.frames[s.w.current] != []
    ensures Step(s, op).Next? ==>
      && Inv(Step(s, op).s, L) && Step(s, op).s.w.Ok() && Step(s, op).s.frames.Keys == Step(s, op).s.w.threads.Keys
      && (Running(Step(s, op).s) || LoneBlocked(Step(s, op).s))
  {
    hide Inv;
    hide InvWith;
    hide RingsOk;
    hide Exec;
    hide Schedule;
    ExecKeeps(s, L, owner, op);
    if Exec(s, op).Next? {
      var s1 := Exec(s, op).s;
      var owner1 := InvOk(s1, L);
      ScheduleKeeps(s1, L, owner1);
      if Schedule(s1.w).Ok? {
        ScheduleKeepsThreads(s1.w);
        var owner2 := InvOk(s1.(w := Schedule(s1.w).world), L);
      }
    }
  }

  /** The same threads, with the same lock tables. */
  predicate SameLocks(threads: map<Ptr, Thread>, threads2: map<Ptr, Thread>) {
    threads2.Keys == threads.Keys && forall p :: p in threads ==> threads2[p].locks == threads[p].locks
  }

  lemma AdmitKeepsLocks(w: World, p: Ptr)
    requires w.Ok() && p in w.threads
    ensures SameLocks(w.threads, Admit(w, p).threads)
  {
    hide RingsOk;
  }

  lemma DispatchKeepsLocks(w: World, p: Ptr)
    requires w.Ok() && p in w.threads
    ensures Dispatch(w, p).Ok() && SameLocks(w.threads, Dispatch(w, p).threads)
  {
    hide RingsOk;
    hide RotateTo;
    DispatchKeepsOk(w, p);
  }

  lemma SwitchKeepsLocks(w: World)
    requires w.Ok()
    ensures Switch(w).Ok? ==> Switch(w).world.Ok() && SameLocks(w.threads, Switch(w).world.threads)
  {
    RingsLength(w);
    hide RingsOk;
    hide Admit;
    hide Dispatch;
    match Select(w, MAXPRIORITY) {
      case None =>
      case Some(p) =>
        AdmitKeepsLocks(w, p);
        DispatchKeepsLocks(Admit(w, p), p);
    }
  }

  lemma ScheduleKeepsThreads(w: World)
    requires w.Ok()
    ensures Schedule(w).Ok? ==>
      && Schedule(w).world.Ok() && SameLocks(w.threads, Schedule(w).world.threads)
      && |Schedule(w).world.threads| == |w.threads|
      && (|w.threads| == 1 ==> Schedule(w).world == w)
  {
    hide RingsOk;
    hide Switch;
    var w1 := Tick(w);
    assert SameLocks(w.threads, w1.threads);
    SwitchKeepsLocks(w1);
    if Schedule(w).Ok? {
      assert SameLocks(w.threads, Schedule(w).world.threads);
      assert |Schedule(w).world.threads.Keys| == |w.threads.Keys|;
    }
  }

  /** s2 is what a run of legal operations makes of s.  Every state the run goes on from has a running thread that
      is not blocked; a lone blocked thread, which the scheduler lets run all the same, ends the run. */
  ghost predicate Reaches(s: Sys, L: set<Obj>, ops: seq<Op>, s2: Sys)
    decreases |ops|
  {
    if ops == [] then s == s2
    else
      && s.w.Ok() && s.frames.Keys == s.w.threads.Keys && Running(s) && s.frames[s.w.current] != []
      && Legal(s, L, ops[0])
      && Step(s, ops[0]).Next? && Reaches(Step(s, ops[0]).s, L, ops[1..], s2)
  }

  /** The machine after createThread has made the main thread. */
  function Initial(main: Ptr): Sys {
    Sys(InitialWorld(main), map[main := [None]], {})
  }

  lemma InitialReady(main: Ptr, L: set<Obj>)
    requires main != NULL
    ensures Ready(Initial(main), L, map[])
  {
    InitialOk(main);
    hide RingsOk;
    hide ThreadOk;
    FreshOk(Initial(main).w.threads[main], L, {}, main, map[]);
    hide OwnsExactly;
  }

  /** The invariant holds in every reachable state, and whoever runs there is not blocked or is the only thread left. */
  lemma {:induction false} RunKeeps(s: Sys, L: set<Obj>, ops: seq<Op>, s2: Sys)
    requires Inv(s, L) && Reaches(s, L, ops, s2) && s.w.Ok() && (Running(s) || LoneBlocked(s))
    ensures Inv(s2, L) && s2.w.Ok() && s2.frames.Keys == s2.w.threads.Keys && (Running(s2) || LoneBlocked(s2))
    decreases |ops|
  {
    hide RingsOk;
    hide InvWith;
    var owner := InvOk(s, L);
    if ops != [] {
      StepKeeps(s, L, owner, ops[0]);
      RunKeeps(Step(s, ops[0]).s, L, ops[1..], s2);
    }
  }

  ghost predicate Reachable(main: Ptr, L: set<Obj>, s: Sys) {
    main != NULL && exists ops :: Reaches(Initial(main), L, ops, s)
  }

  /** A legal bytecode of a thread that is not blocked takes s to s2. */
  predicate StepsTo(s: Sys, L: set<Obj>, op: Op, s2: Sys) {
    && s.w.Ok() && s.frames.Keys == s.w.threads.Keys && Running(s) && s.frames[s.w.current] != [] && Legal(s, L, op)
    && Step(s, op) == Next(s2)
  }

  lemma {:induction false} RunGoesOn(s: Sys, L: set<Obj>, ops: seq<Op>, s1: Sys, op: Op, s2: Sys)
    requires Reaches(s, L, ops, s1) && StepsTo(s1, L, op, s2)
    ensures Reaches(s, L, ops + [op], s2)
    decreases |ops|
  {
    hide Step;
    hide RingsOk;
    if ops == [] {
      assert [op][1..] == [] && Reaches(s2, L, [], s2);
    } else {
      assert (ops + [op])[1..] == ops[1..] + [op];
      RunGoesOn(Step(s, ops[0]).s, L, ops[1..], s1, op, s2);
    }
  }

  lemma ReachableStart(main: Ptr, L: set<Obj>)
    requires main != NULL
    ensures Reachable(main, L, Initial(main))
  {
    hide Initial;
    assert Reaches(Initial(main), L, [], Initial(main));
  }

  lemma ReachableStep(main: Ptr, L: set<Obj>, s: Sys, op: Op, s2: Sys)
    requires Reachable(main, L, s) && StepsTo(s, L, op, s2)
    ensures Reachable(main, L, s2)
  {
    hide Initial;
    hide StepsTo;
    hide Reaches;
    var ops :| Reaches(Initial(main), L, ops, s);
    RunGoesOn(Initial(main), L, ops, s, op, s2);
  }

  /** The reachable states: the one in which main begins, and whatever a legal bytecode makes of one in which the
      running thread is not blocked. */
  lemma ReachableStates(main: Ptr, L: set<Obj>, s: Sys, op: Op, s2: Sys)
    requires main != NULL
    ensures Reachable(main, L, Initial(main))
    ensures Reachable(main, L, s) && StepsTo(s, L, op, s2) ==> Reachable(main, L, s2)
  {
    hide Reachable;
    hide StepsTo;
    ReachableStart(main, L);
    if Reachable(main, L, s) && StepsTo(s, L, op, s2) {
      ReachableStep(main, L, s, op, s2);
    }
  }

  lemma ReachableInv(main: Ptr, L: set<Obj>, s: Sys)
    requires Reachable(main, L, s)
    ensures Inv(s, L) && s.w.Ok() && s.frames.Keys == s.w.threads.Keys && (Running(s) || LoneBlocked(s))
  {
    InitialReady(main, L);
    HasInv(Initial(main), L, map[]);
    var ops :| Reaches(Initial(main), L, ops, s);
    RunKeeps(Initial(main), L, ops, s);
  }

  // The main results, in every reachable state

  /** No two threads own one object. */
  lemma MutualExclusion(main: Ptr, L: set<Obj>, s: Sys, p: Ptr, q: Ptr, o: Obj)
    requires Reachable(main, L, s) && p in s.w.threads && q in s.w.threads
    ensures s.w.Ok() && (Owns(s.w.threads[p], o) && Owns(s.w.threads[q], o) ==> p == q)
  {
    ReachableInv(main, L, s);
    hide RingsOk;
    hide Reachable;
    var owner := InvOk(s, L);
    ThreadParts(s, L, owner, p);
    ThreadParts(s, L, owner, q);
  }

  /** An object's mutex bit is BLOCKED iff some thread owns it, or it is a Lock whose holder exited. */
  lemma BlockedIffOwned(main: Ptr, L: set<Obj>, s: Sys, o: Obj)
    requires Reachable(main, L, s)
    ensures s.w.Ok() && (o in s.orphans ==> o in L)
    ensures o in s.w.blocked <==> o in s.orphans || exists p :: p in s.w.threads && Owns(s.w.threads[p], o)
    ensures o in s.orphans ==> forall p :: p in s.w.threads ==> !Owns(s.w.threads[p], o)
  {
    ReachableInv(main, L, s);
    hide RingsOk;
    hide Reachable;
    var owner := InvOk(s, L);
    forall p | p in s.w.threads ensures OwnsExactly(s.w.threads[p], p, owner) {
      ThreadParts(s, L, owner, p);
    }
    ThreadParts(s, L, owner, s.w.current);
    if o in owner {
      assert OwnsExactly(s.w.threads[owner[o]], owner[o], owner);
      assert Owns(s.w.threads[owner[o]], o);
    }
  }

  /** A free object has nobody blocked on it. */
  lemma NoLostWakeup(main: Ptr, L: set<Obj>, s: Sys, p: Ptr, o: Obj)
    requires Reachable(main, L, s) && p in s.w.threads && o !in s.w.blocked
    ensures !(s.w.threads[p].state == MutexBlocked && s.w.threads[p].waitsFor == Some(o))
  {
    ReachableInv(main, L, s);
    hide RingsOk;
    hide Reachable;
    var owner := InvOk(s, L);
    ThreadParts(s, L, owner, p);
  }

  /** The lock count of a monitor is the number of active synchronized methods of the thread on that object, so
      every release finds its entry; nobody holds a Lock more than once. */
  lemma CountsAreFrames(main: Ptr, L: set<Obj>, s: Sys, p: Ptr, o: Obj)
    requires Reachable(main, L, s) && p in s.w.threads
    ensures s.w.Ok() && s.frames.Keys == s.w.threads.Keys
    ensures o !in L ==> s.w.threads[p].locks.CountOf(o) == Entered(s.frames[p], o) <= 0xFF
    ensures o in L ==> s.w.threads[p].locks.CountOf(o) <= 1
  {
    ReachableInv(main, L, s);
    hide RingsOk;
    hide Reachable;
    var owner := InvOk(s, L);
    ThreadParts(s, L, owner, p);
    EnteredAtMost(s.frames[p], o);
  }

  // Hand-off

  predicate BlockedOn(w: World, q: Ptr, o: Obj) {
    q in w.threads && w.threads[q].state == MutexBlocked && w.threads[q].waitsFor == Some(o)
  }

  /** Everything but the table of p and the control block of q is as before, and q has taken o over from p. */
  ghost predicate HandedTo(w: World, w2: World, p: Ptr, q: Ptr, o: Obj) {
    && BlockedOn(w, q, o) && p in w.threads && q != p && w2.threads.Keys == w.threads.Keys && w2.blocked == w.blocked
    && |w2.threads[q].locks.objs| == |w2.threads[q].locks.counts|
    && w2.threads[q].state == NotBlocked && w2.threads[q].locks.CountOf(o) == 1
    && w2.threads[p] == w.threads[p].(locks := w2.threads[p].locks) && !w2.threads[p].locks.Holds(o)
    && forall r :: r in w.threads && r != p && r != q ==> w2.threads[r] == w.threads[r]
  }

  /** Unlocking by the owner either leaves the Lock free, when nobody is blocked on it, or makes exactly one of the
      blocked threads its owner in the same step, while all the others stay blocked. */
  lemma HandOff(s: Sys, L: set<Obj>, owner: map<Obj, Ptr>, o: Obj)
    requires Ready(s, L, owner) && o in L && Me(s).locks.Holds(o)
    ensures var r := ReleaseMutex(s.w, s.w.current, o);
      r.Ok? ==>
        if exists q :: BlockedOn(s.w, q, o) then exists q :: HandedTo(s.w, r.world, s.w.current, q, o)
        else o !in r.world.blocked && r.world.blocked == s.w.blocked - {o}
             && r.world.threads == s.w.threads[s.w.current := Me(s).(locks := Me(s).locks.Clear(o))]
  {
    hide InvWith;
    hide RingsOk;
    hide ThreadOk;
    hide OwnsExactly;
    hide Core;
    var me, t := s.w.current, Me(s);
    ThreadParts(s, L, owner, me);
    CoreReleased(s, L, owner, o);
    var t2 := t.(locks := t.locks.Clear(o));
    SetKeepsOk(s.w, me, t2);
    assert o in s.w.blocked;
    var w1 := s.w.(threads := s.w.threads[me := t2], blocked := s.w.blocked - {o});
    assert ReleaseMutex(s.w, me, o) == AwakeFromMutex(w1, o);
    FirstForFound(w1.threads, Order(w1.rings), MutexBlocked, o);
    match FirstFor(w1.threads, Order(w1.rings), MutexBlocked, o) {
      case None =>
        NobodyBlocked(w1, o);
        forall q ensures !BlockedOn(s.w, q, o) {
          assert q in s.w.threads && q != me ==> w1.threads[q] == s.w.threads[q];
        }
      case Some(q) =>
        HandOffResult(w1, o, q);
        assert BlockedOn(s.w, q, o);
        if !w1.threads[q].locks.Full() {
          TakesOver(s, L, owner, o, q);
          ClearedNotHeld(t, s.frames[me], L, s.w.blocked, o);
          assert s.w.blocked - {o} + {o} == s.w.blocked;
          assert HandedTo(s.w, AwakeFromMutex(w1, o).world, me, q, o);
        }
    }
  }

  lemma TakesOver(s: Sys, L: set<Obj>, owner: map<Obj, Ptr>, o: Obj, q: Ptr)
    requires InvWith(s, L, owner) && BlockedOn(s.w, q, o) && !s.w.threads[q].locks.Full()
    requires o in owner && owner[o] != q
    ensures |s.w.threads[q].locks.objs| == |s.w.threads[q].locks.counts| && s.w.threads[q].locks.Take(o).CountOf(o) == 1
  {
    hide RingsOk;
    ThreadParts(s, L, owner, q);
    hide InvWith;
    var t := s.w.threads[q];
    assert !Owns(t, o);
    t.locks.HoldsIff(o);
    t.locks.TakeEffect(o, o);
  }

  lemma ClearedNotHeld(t: Thread, f: Frames, L: set<Obj>, b: set<Obj>, o: Obj)
    requires ThreadOk(t, f, L, b) && t.locks.Holds(o)
    ensures !t.locks.Clear(o).Holds(o)
  {
    t.locks.ClearEffect(o, o);
    t.locks.Clear(o).HoldsIff(o);
  }

  // Waiting

  lemma ExecKeepsOtherFrames(s: Sys, L: set<Obj>, owner: map<Obj, Ptr>, op: Op, p: Ptr)
    requires s.w.Ok() && s.frames.Keys == s.w.threads.Keys && s.frames[s.w.current] != [] && Legal(s, L, op)
    requires p in s.w.threads && p != s.w.current && Ready(s, L, owner)
    ensures Exec(s, op).Next? ==> p in Exec(s, op).s.frames && Exec(s, op).s.frames[p] == s.frames[p]
  {
    hide InvWith;
    hide RingsOk;
    hide SyncExit;
    hide SyncEnter;
    hide Delete;
    hide HeldBy;
    TopIsHeld(s, L, owner);
  }

  lemma StepKeepsOtherFrames(s: Sys, L: set<Obj>, owner: map<Obj, Ptr>, op: Op, p: Ptr)
    requires s.w.Ok() && s.frames.Keys == s.w.threads.Keys && s.frames[s.w.current] != [] && Legal(s, L, op)
    requires p in s.w.threads && p != s.w.current && Ready(s, L, owner)
    ensures Step(s, op).Next? ==>
      p in Step(s, op).s.w.threads && p in Step(s, op).s.frames && Step(s, op).s.frames[p] == s.frames[p]
  {
    hide InvWith;
    hide Inv;
    hide RingsOk;
    hide Exec;
    hide Schedule;
    ExecKeepsOtherFrames(s, L, owner, op, p);
    StepKeeps(s, L, owner, op);
  }

  /** A run in which p is not chosen in any state before the last. */
  ghost predicate ReachesWithout(s: Sys, L: set<Obj>, ops: seq<Op>, s2: Sys, p: Ptr)
    decreases |ops|
  {
    if ops == [] then s == s2
    else
      && s.w.Ok() && s.frames.Keys == s.w.threads.Keys && Running(s) && s.frames[s.w.current] != []
      && Legal(s, L, ops[0])
      && s.w.current != p && Step(s, ops[0]).Next? && ReachesWithout(Step(s, ops[0]).s, L, ops[1..], s2, p)
  }

  lemma {:induction false} RunKeepsOtherFrames(s: Sys, L: set<Obj>, ops: seq<Op>, s2: Sys, p: Ptr)
    requires Inv(s, L) && s.w.Ok() && (Running(s) || LoneBlocked(s)) && s.frames.Keys == s.w.threads.Keys
    requires ReachesWithout(s, L, ops, s2, p) && p in s.w.threads
    ensures p in s2.w.threads && p in s2.frames && s2.frames[p] == s.frames[p] && Reaches(s, L, ops, s2)
    decreases |ops|
  {
    hide RingsOk;
    hide InvWith;
    if ops != [] {
      var owner := InvOk(s, L);
      StepKeeps(s, L, owner, ops[0]);
      StepKeepsOtherFrames(s, L, owner, ops[0], p);
      RunKeepsOtherFrames(Step(s, ops[0]).s, L, ops[1..], s2, p);
    }
  }

  /** A thread that comes back from wait owns the object again, with the lock count it had when it called wait. */
  lemma WaitRestoresCount(s: Sys, L: set<Obj>, owner: map<Obj, Ptr>, o: Obj, ops: seq<Op>, s2: Sys)
    requires Ready(s, L, owner) && Legal(s, L, Wait(o)) && s.frames[s.w.current] != [] && Step(s, Wait(o)).Next?
    requires ReachesWithout(Step(s, Wait(o)).s, L, ops, s2, s.w.current)
    requires s2.w.Ok() && s2.w.current == s.w.current && Running(s2)
    ensures Me(s2).locks.CountOf(o) == Me(s).locks.CountOf(o) && Owns(Me(s2), o)
  {
    hide RingsOk;
    hide InvWith;
    hide Inv;
    hide Reaches;
    hide ReachesWithout;
    hide Schedule;
    var p, s1 := s.w.current, Step(s, Wait(o)).s;
    StepKeeps(s, L, owner, Wait(o));
    WaitKeepsFrames(s, o);
    RunKeepsOtherFrames(s1, L, ops, s2, p);
    RunKeeps(s1, L, ops, s2);
    var owner2 := InvOk(s2, L);
    ThreadParts(s, L, owner, p);
    ThreadParts(s2, L, owner2, p);
  }

  lemma WaitKeepsFrames(s: Sys, o: Obj)
    requires s.w.Ok() && s.frames.Keys == s.w.threads.Keys && s.frames[s.w.current] != [] && Step(s, Wait(o)).Next?
    ensures Step(s, Wait(o)).s.frames == s.frames
  {
    hide RingsOk;
    hide Schedule;
  }

  // The lone thread

  /** The cases in which the scheduler leaves a blocked or waiting thread running: it is the only one left, and it
      has just called wait or asked for a Lock that is taken, or the thread before it has just exited. */
  predicate LosesItsPartner(s: Sys, op: Op)
    requires s.w.Ok() && s.frames.Keys == s.w.threads.Keys
  {
    || (|s.w.threads| == 1 && (op.Wait? || (op.LockOp? && op.o in s.w.blocked)))
    || (|s.w.threads| == 2 && op.Return? && |s.frames[s.w.current]| == 1
        && exists q :: q in s.w.threads && q != s.w.current && s.w.threads[q].state != NotBlocked)
  }

  lemma OnlyMe(threads: map<Ptr, Thread>, c: Ptr, q: Ptr)
    requires |threads| == 1 && c in threads && q in threads
    ensures q == c
  {
    if q != c {
      assert {c, q} <= threads.Keys;
      assert |{c, q}| <= |threads.Keys| by { SubsetSize({c, q}, threads.Keys); }
    }
  }

  lemma {:induction false} SubsetSize(a: set<Ptr>, b: set<Ptr>)
    requires a <= b
    ensures |a| <= |b|
  {
    if a != {} {
      var x :| x in a;
      SubsetSize(a - {x}, b - {x});
    }
  }

  /** A lone running thread is still the current one, and still not blocked. */
  predicate StillRuns(s: Sys, s1: Sys)
    requires s.w.Ok()
  {
    && s1.w.Ok() && s1.w.current == s.w.current && s1.w.threads.Keys == s.w.threads.Keys
    && Me(s1).state == NotBlocked
  }

  lemma MonitorHeldAlone(s: Sys, L: set<Obj>, owner: map<Obj, Ptr>, o: Obj)
    requires Ready(s, L, owner) && |s.w.threads| == 1 && o in s.w.blocked && o !in L
    ensures Me(s).locks.Holds(o)
  {
    hide RingsOk;
    ThreadParts(s, L, owner, s.w.current);
    hide InvWith;
    OnlyMe(s.w.threads, s.w.current, owner[o]);
    assert Owns(Me(s), o);
    Me(s).locks.HoldsIff(o);
  }

  lemma AloneInvoke(s: Sys, L: set<Obj>, owner: map<Obj, Ptr>, o: Obj)
    requires Ready(s, L, owner) && |s.w.threads| == 1 && o !in L
    ensures SyncEnter(s.w, o).0.Ok? ==> StillRuns(s, s.(w := SyncEnter(s.w, o).0.world))
  {
    hide InvWith;
    hide RingsOk;
    if o in s.w.blocked {
      MonitorHeldAlone(s, L, owner, o);
      SetKeepsOk(s.w, s.w.current, Me(s).(locks := Me(s).locks.Add(o, 1)));
    } else if !Me(s).locks.Full() {
      SetKeepsOk(s.w, s.w.current, Me(s).(waitsFor := None, locks := Me(s).locks.Take(o)));
    }
  }

  lemma AloneReturn(s: Sys, o: Obj)
    requires s.w.Ok() && Running(s) && Me(s).locks.Holds(o)
    ensures StillRuns(s, s.(w := SyncExit(s.w, o)))
  {
    SyncExitKeepsOk(s.w, Some(o));
    hide RingsOk;
  }

  lemma AloneNotify(s: Sys, L: set<Obj>, owner: map<Obj, Ptr>, o: Obj)
    requires Ready(s, L, owner) && |s.w.threads| == 1 && Notify(s.w, o).Ok?
    ensures StillRuns(s, s.(w := Notify(s.w, o).world))
  {
    hide InvWith;
    hide RingsOk;
    FirstForFound(s.w.threads, Order(s.w.rings), WaitBlocked, o);
    match FirstFor(s.w.threads, Order(s.w.rings), WaitBlocked, o) {
      case None =>
      case Some(q) => OnlyMe(s.w.threads, s.w.current, q);
    }
  }

  lemma AloneNotifyAll(s: Sys, o: Obj)
    requires s.w.Ok() && Running(s) && NotifyAll(s.w, o).Ok?
    ensures StillRuns(s, s.(w := NotifyAll(s.w, o).world))
  {
    hide RingsOk;
    assert AwakenAll(s.w.threads, o).Keys == s.w.threads.Keys;
    SamePrioritiesKeepRings(s.w.rings, s.w.threads, AwakenAll(s.w.threads, o));
  }

  lemma AloneLock(s: Sys, o: Obj)
    requires s.w.Ok() && Running(s) && SetMutex(s.w, s.w.current, o).Ok?
    ensures var s1 := s.(w := SetMutex(s.w, s.w.current, o).world);
      && s1.w.Ok() && s1.w.current == s.w.current && s1.w.threads.Keys == s.w.threads.Keys
      && (StillRuns(s, s1) <==> o !in s.w.blocked)
  {
    hide RingsOk;
    if o in s.w.blocked {
      SetKeepsOk(s.w, s.w.current, Me(s).(state := MutexBlocked, waitsFor := Some(o), numTicks := 0));
    } else {
      SetKeepsOk(s.w, s.w.current, Me(s).(waitsFor := None, locks := Me(s).locks.Take(o)));
    }
  }

  lemma AloneUnlock(s: Sys, L: set<Obj>, owner: map<Obj, Ptr>, o: Obj)
    requires Ready(s, L, owner) && |s.w.threads| == 1 && o in L && ReleaseMutex(s.w, s.w.current, o).Ok?
    ensures StillRuns(s, s.(w := ReleaseMutex(s.w, s.w.current, o).world))
  {
    hide InvWith;
    hide RingsOk;
    hide ThreadOk;
    hide OwnsExactly;
    hide Core;
    if o in s.w.blocked && Me(s).locks.Holds(o) {
      HandOff(s, L, owner, o);
      CoreReleased(s, L, owner, o);
      SetKeepsOk(s.w, s.w.current, Me(s).(locks := Me(s).locks.Clear(o)));
      if q :| BlockedOn(s.w, q, o) {
        OnlyMe(s.w.threads, s.w.current, q);
      }
    }
  }

  lemma AloneWait(s: Sys, L: set<Obj>, owner: map<Obj, Ptr>, o: Obj)
    requires Ready(s, L, owner) && o !in L && Me(s).locks.CountOf(o) > 0
    ensures NativeWait(s.w, o).Ok? ensures var w1 := NativeWait(s.w, o).world;
      && w1.current == s.w.current && w1.threads.Keys == s.w.threads.Keys && w1.threads[w1.current].state == WaitBlocked
      && w1.threads[w1.current].locks == Me(s).locks && o !in w1.blocked
  {
    hide InvWith;
    hide RingsOk;
    WaitKeeps(s, L, owner, o);
    assert WakeAll(s.w.threads, o).Keys == s.w.threads.Keys;
  }

  predicate SameThreads(w: World, w1: World) {
    w1.threads.Keys == w.threads.Keys && w1.current == w.current
  }

  lemma NotifyThreads(w: World, o: Obj)
    ensures Notify(w, o).Ok? ==> SameThreads(w, Notify(w, o).world)
    ensures NotifyAll(w, o).Ok? ==> SameThreads(w, NotifyAll(w, o).world)
  {
    FirstForFound(w.threads, Order(w.rings), WaitBlocked, o);
    assert AwakenAll(w.threads, o).Keys == w.threads.Keys;
  }

  lemma WaitThreads(w: World, o: Obj)
    requires w.Ok()
    ensures NativeWait(w, o).Ok? ==> SameThreads(w, NativeWait(w, o).world)
  {
    hide RingsOk;
    assert WakeAll(w.threads, o).Keys == w.threads.Keys;
  }

  lemma EnterThreads(w: World, o: Obj)
    requires w.Ok()
    ensures SyncEnter(w, o).0.Ok? ==> SameThreads(w, SyncEnter(w, o).0.world)
    ensures SetMutex(w, w.current, o).Ok? ==> SameThreads(w, SetMutex(w, w.current, o).world)
    ensures SameThreads(w, Yield(w))
  {
    hide RingsOk;
  }

  lemma UnlockThreads(w: World, p: Ptr, o: Obj)
    requires w.Ok() && p in w.threads
    ensures ReleaseMutex(w, p, o).Ok? ==>
      ReleaseMutex(w, p, o).world.threads.Keys == w.threads.Keys && ReleaseMutex(w, p, o).world.current == w.current
  {
    hide RingsOk;
    if o in w.blocked && w.threads[p].locks.Holds(o) {
      var t2 := w.threads[p].(locks := w.threads[p].locks.Clear(o));
      SetKeepsOk(w, p, t2);
      var w1 := w.(threads := w.threads[p := t2], blocked := w.blocked - {o});
      FirstForFound(w1.threads, Order(w1.rings), MutexBlocked, o);
      match FirstFor(w1.threads, Order(w1.rings), MutexBlocked, o) {
        case None =>
        case Some(q) => HandOffResult(w1, o, q);
      }
    }
  }

  /** Only a start and the exit of a thread change which threads there are, or who runs before the scheduler acts. */
  lemma ExecThreads(s: Sys, L: set<Obj>, owner: map<Obj, Ptr>, op: Op)
    requires s.w.Ok() && s.frames.Keys == s.w.threads.Keys && s.frames[s.w.current] != [] && Legal(s, L, op)
    requires Ready(s, L, owner)
    ensures Exec(s, op).Next? && !op.Start? && !(op.Return? && |s.frames[s.w.current]| == 1) ==>
      SameThreads(s.w, Exec(s, op).s.w)
  {
    hide Inv;
    hide InvWith;
    hide ThreadOk;
    hide RingsOk;
    hide SyncEnter;
    hide SyncExit;
    hide NativeWait;
    hide Notify;
    hide NotifyAll;
    hide SetMutex;
    hide ReleaseMutex;
    hide Create;
    hide Delete;
    hide HeldBy;
    hide ThreadSpec.SetPriority;
    hide Yield;
    hide LockTable.Holds;
    TopIsHeld(s, L, owner);
    match op {
      case Invoke(Some(o)) => EnterThreads(s.w, o);
      case Return => SyncExitKeepsOk(s.w, Top(s));
      case Wait(o) => WaitThreads(s.w, o);
      case NotifyOne(o) => NotifyThreads(s.w, o);
      case NotifyEvery(o) => NotifyThreads(s.w, o);
      case LockOp(o) => EnterThreads(s.w, o);
      case TryLockOp(o) => EnterThreads(s.w, o);
      case UnlockOp(o) => UnlockThreads(s.w, s.w.current, o);
      case ChangePriority(obj, priority) => SetPriorityKeepsOk(s.w, obj, priority);
      case YieldOp => EnterThreads(s.w, 0);
      case _ =>
    }
  }

  lemma AlonePriority(s: Sys, obj: Obj, priority: int)
    requires s.w.Ok() && Running(s) && 1 <= priority <= MAXPRIORITY
    ensures ThreadSpec.SetPriority(s.w, obj, priority).Ok? ==>
      StillRuns(s, s.(w := ThreadSpec.SetPriority(s.w, obj, priority).world))
    ensures StillRuns(s, s.(w := Yield(s.w)))
  {
    SetPriorityKeepsOk(s.w, obj, priority);
    SetKeepsOk(s.w, s.w.current, Me(s).(numTicks := 0));
    hide RingsOk;
    hide ThreadSpec.SetPriority;
  }

  lemma StillRunning(s: Sys, s1: Sys)
    requires s.w.Ok() && StillRuns(s, s1)
    ensures s1.w.current in s1.w.threads && Running(s1)
  {
    hide RingsOk;
  }

  lemma LockBlocks(s: Sys, o: Obj)
    requires s.w.Ok() && o in s.w.blocked
    ensures SetMutex(s.w, s.w.current, o).Ok?
    ensures SetMutex(s.w, s.w.current, o).world.threads[s.w.current].state == MutexBlocked
  {
    hide RingsOk;
  }

  /** What the bytecodes that could block do to a lone running thread. */
  lemma AloneExec(s: Sys, L: set<Obj>, owner: map<Obj, Ptr>, op: Op)
    requires s.w.Ok() && s.frames.Keys == s.w.threads.Keys && s.frames[s.w.current] != [] && |s.w.threads| == 1
    requires Legal(s, L, op) && !op.Start? && Exec(s, op).Next?
    requires Ready(s, L, owner)
    ensures Exec(s, op).s.w.current in Exec(s, op).s.w.threads
    ensures Running(Exec(s, op).s) <==> !LosesItsPartner(s, op)
  {
    hide Inv;
    hide InvWith;
    hide ThreadOk;
    hide RingsOk;
    hide SyncEnter;
    hide SyncExit;
    hide NativeWait;
    hide Notify;
    hide NotifyAll;
    hide SetMutex;
    hide ReleaseMutex;
    hide Create;
    hide Delete;
    hide HeldBy;
    hide ThreadSpec.SetPriority;
    hide Yield;
    hide LockTable.Holds;
    hide StillRuns;
    TopIsHeld(s, L, owner);
    ExecThreads(s, L, owner, op);
    var s1 := Exec(s, op).s;
    match op {
      case Invoke(Some(o)) => AloneInvoke(s, L, owner, o); StillRunning(s, s.(w := s1.w));
      case Return =>
        if Top(s).Some? {
          AloneReturn(s, Top(s).value);
          StillRunning(s, s.(w := s1.w));
        }
      case Wait(o) => AloneWait(s, L, owner, o);
      case NotifyOne(o) => AloneNotify(s, L, owner, o); StillRunning(s, s1);
      case NotifyEvery(o) => AloneNotifyAll(s, o); StillRunning(s, s1);
      case LockOp(o) =>
        AloneLock(s, o);
        if o !in s.w.blocked { StillRunning(s, s1); } else { LockBlocks(s, o); }
      case TryLockOp(o) =>
        if o !in s.w.blocked {
          AloneLock(s, o);
          StillRunning(s, s1);
        }
      case UnlockOp(o) => AloneUnlock(s, L, owner, o); StillRunning(s, s1);
      case ChangePriority(obj, priority) => AlonePriority(s, obj, priority); StillRunning(s, s1);
      case YieldOp => AlonePriority(s, 0, 1); StillRunning(s, s1);
      case _ =>
    }
  }

  lemma ExitThreads(s: Sys, L: set<Obj>, owner: map<Obj, Ptr>)
    requires Ready(s, L, owner) && |s.w.threads| > 1 && |s.frames[s.w.current]| == 1
    ensures ExecReturn(s).Next? && ExecReturn(s).s.w == Delete(s.w)
    ensures Delete(s.w).threads == s.w.threads - {s.w.current} && Delete(s.w).current in Delete(s.w).threads
    ensures |Delete(s.w).threads| == |s.w.threads| - 1
  {
    hide InvWith;
    hide RingsOk;
    hide Delete;
    OutermostIsPlain(s, L, owner);
    DeleteKeepsOk(s.w);
    assert |(s.w.threads - {s.w.current}).Keys| == |s.w.threads.Keys - {s.w.current}| == |s.w.threads.Keys| - 1;
  }

  /** After a step the running thread is blocked or waiting exactly if it is the only thread and has lost its partner
      in one of the listed ways; in every other case the step ends with a thread that may run. */
  lemma RunsBlockedIff(s: Sys, L: set<Obj>, owner: map<Obj, Ptr>, op: Op)
    requires Ready(s, L, owner) && Legal(s, L, op)
    ensures s.frames[s.w.current] != []
    ensures Step(s, op).Next? ==>
      Step(s, op).s.w.current in Step(s, op).s.w.threads && (!Running(Step(s, op).s) <==> LosesItsPartner(s, op))
  {
    hide Inv;
    hide InvWith;
    hide ThreadOk;
    hide RingsOk;
    hide SyncEnter;
    hide SyncExit;
    hide NativeWait;
    hide Notify;
    hide NotifyAll;
    hide SetMutex;
    hide ReleaseMutex;
    hide Create;
    hide Delete;
    hide HeldBy;
    hide ThreadSpec.SetPriority;
    hide Yield;
    hide LockTable.Holds;
    hide Exec;
    hide Schedule;
    TopIsHeld(s, L, owner);
    StepKeeps(s, L, owner, op);
    if Step(s, op).Next? {
      var s1 := Exec(s, op).s;
      ExecKeeps(s, L, owner, op);
      var owner1 := InvOk(s1, L);
      ScheduleKeeps(s1, L, owner1);
      ExecCounts(s, L, owner, op);
    }
  }

  /** The exit of one of two threads. */
  lemma ExitCounts(s: Sys, L: set<Obj>, owner: map<Obj, Ptr>)
    requires Ready(s, L, owner) && s.frames[s.w.current] != [] && |s.frames[s.w.current]| == 1
    requires ExecReturn(s).Next? && ExecReturn(s).s.w.Ok()
    ensures |ExecReturn(s).s.w.threads| == 1 && !Running(ExecReturn(s).s) <==> LosesItsPartner(s, Return)
  {
    hide InvWith;
    hide RingsOk;
    hide SyncExit;
    hide Delete;
    hide HeldBy;
    hide LockTable.Holds;
    OutermostIsPlain(s, L, owner);
    ExitThreads(s, L, owner);
    hide ExecReturn;
    var s1 := ExecReturn(s).s;
    if |s1.w.threads| == 1 {
      forall q | q in s.w.threads && q != s.w.current ensures q == s1.w.current {
        OnlyMe(s1.w.threads, s1.w.current, q);
      }
      assert s1.w.threads[s1.w.current] == s.w.threads[s1.w.current];
    }
  }

  /** Who is alone after the bytecode, before the scheduler acts. */
  lemma ExecCounts(s: Sys, L: set<Obj>, owner: map<Obj, Ptr>, op: Op)
    requires s.w.Ok() && s.frames.Keys == s.w.threads.Keys && s.frames[s.w.current] != []
    requires Legal(s, L, op) && Exec(s, op).Next? && Exec(s, op).s.w.Ok()
    requires Ready(s, L, owner)
    ensures |Exec(s, op).s.w.threads| == 1 && !Running(Exec(s, op).s) <==> LosesItsPartner(s, op)
  {
    hide InvWith;
    hide RingsOk;
    var s1 := Exec(s, op).s;
    if op.Start? {
      hide Create;
      StartThreads(s, op.p, op.obj, op.priority);
    } else if op.Return? && |s.frames[s.w.current]| == 1 {
      hide ExecReturn;
      ExitCounts(s, L, owner);
    } else {
      ExecThreads(s, L, owner, op);
      hide Exec;
      assert |s1.w.threads.Keys| == |s.w.threads.Keys|;
      if |s.w.threads| == 1 {
        AloneExec(s, L, owner, op);
      }
    }
  }

  lemma StartThreads(s: Sys, p: Ptr, obj: Obj, priority: int)
    requires s.w.Ok() && p !in s.w.threads && 1 <= priority <= MAXPRIORITY && Create(s.w, p, obj, priority).Ok?
    ensures |Create(s.w, p, obj, priority).world.threads| == |s.w.threads| + 1
  {
    hide RingsOk;
    hide InsertRing;
    assert Create(s.w, p, obj, priority).world.threads.Keys == s.w.threads.Keys + {p};
    assert |s.w.threads.Keys + {p}| == |s.w.threads.Keys| + 1;
  }

  /** After the main thread has entered a synchronized method of o. */
  function InMonitor(main: Ptr, o: Obj): Sys {
    var t := FreshThread(None, NORMPRIORITY);
    Sys(World(InitialWorld(main).rings, map[main := t.(locks := t.locks.Take(o))], main, {o}),
        map[main := [None, Some(o)]], {})
  }

  /** After it has called wait there. */
  function InWait(main: Ptr, o: Obj): Sys {
    var s := InMonitor(main, o);
    var t := s.w.threads[main];
    s.(w := s.w.(threads := map[main := t.(state := WaitBlocked, waitsFor := Some(o))], blocked := {}))
  }

  /** A bytecode and the choice of the scheduler after it make a step. */
  lemma StepOf(s: Sys, L: set<Obj>, op: Op, s1: Sys, w2: World)
    requires s.w.Ok() && s.frames.Keys == s.w.threads.Keys && Running(s) && s.frames[s.w.current] != []
    requires Legal(s, L, op)
    requires Exec(s, op) == Next(s1) && s1.w.Ok() && Schedule(s1.w) == Ok(w2)
    ensures StepsTo(s, L, op, s1.(w := w2))
  {
    hide RingsOk;
    hide Exec;
    hide Schedule;
  }

  /** With one thread left the scheduler does nothing. */
  lemma StepAlone(s: Sys, L: set<Obj>, op: Op, s1: Sys)
    requires s.w.Ok() && s.frames.Keys == s.w.threads.Keys && Running(s) && s.frames[s.w.current] != []
    requires Legal(s, L, op)
    requires Exec(s, op) == Next(s1) && s1.w.Ok() && |s1.w.threads| == 1
    ensures StepsTo(s, L, op, s1)
  {
    hide RingsOk;
    hide Exec;
  }

  lemma EnterFresh(main: Ptr, o: Obj)
    requires InitialWorld(main).Ok()
    ensures SyncEnter(InitialWorld(main), o) == (Ok(InMonitor(main, o).w), true) && InMonitor(main, o).w.Ok()
  {
    hide RingsOk;
    var w := InitialWorld(main);
    var t := w.threads[main];
    SetKeepsOk(w, main, t.(locks := t.locks.Take(o)));
    assert t == FreshThread(None, NORMPRIORITY) && t.locks.objs[0] == None;
    assert w.threads[main := t.(waitsFor := None, locks := t.locks.Take(o))] == InMonitor(main, o).w.threads;
    assert w.blocked + {o} == InMonitor(main, o).w.blocked;
  }

  lemma InitialRuns(main: Ptr)
    requires main != NULL
    ensures Initial(main) == Sys(InitialWorld(main), map[main := [None]], {})
    ensures Initial(main).w.Ok() && Initial(main).w.current == main && Initial(main).w.threads.Keys == {main}
    ensures Running(Initial(main))
  {
    InitialReady(main, {});
    hide InvWith;
    hide RingsOk;
  }

  lemma EntersAlone(main: Ptr, L: set<Obj>, o: Obj)
    requires main != NULL && o !in L
    ensures StepsTo(Initial(main), L, Invoke(Some(o)), InMonitor(main, o))
  {
    hide RingsOk;
    hide SyncEnter;
    hide Schedule;
    InitialRuns(main);
    EnterFresh(main, o);
    hide Initial;
    hide Running;
    hide InitialWorld;
    hide FreshThread;
    hide LockTable.Take;
    hide StepsTo;
    var s := Initial(main);
    assert s.frames[main] + [Some(o)] == [None, Some(o)];
    assert s.frames[main := [None, Some(o)]] == InMonitor(main, o).frames;
    StepAlone(s, L, Invoke(Some(o)), InMonitor(main, o));
  }

  lemma WaitsAlone(main: Ptr, L: set<Obj>, o: Obj)
    requires o !in L && InMonitor(main, o).w.Ok() && InMonitor(main, o).w.threads[main].locks.CountOf(o) > 0
    ensures StepsTo(InMonitor(main, o), L, Wait(o), InWait(main, o))
  {
    hide RingsOk;
    var s, s1 := InMonitor(main, o), InWait(main, o);
    var t := s.w.threads[main];
    SetKeepsOk(s.w, main, t.(state := WaitBlocked, waitsFor := Some(o)));
    assert WakeAll(s.w.threads, o) == s.w.threads;
    assert s.w.threads[main := t.(state := WaitBlocked, waitsFor := Some(o))] == s1.w.threads;
    assert s.w.blocked - {o} == s1.w.blocked;
    hide LockTable.Holds;
    StepAlone(s, L, Wait(o), s1);
  }

  /** A run in which the only thread goes on although it waits: main enters a synchronized method and calls wait. */
  lemma LoneWaitGoesOn(main: Ptr, L: set<Obj>, o: Obj)
    requires main != NULL && o !in L
    ensures Reachable(main, L, InWait(main, o)) && InWait(main, o).w.current in InWait(main, o).w.threads
    ensures !Running(InWait(main, o))
  {
    EntersAlone(main, L, o);
    ReachableStates(main, L, Initial(main), Invoke(Some(o)), InMonitor(main, o));
    CountsAreFrames(main, L, InMonitor(main, o), main, o);
    WaitsAlone(main, L, o);
    ReachableStates(main, L, InMonitor(main, o), Wait(o), InWait(main, o));
  }

  /** Every awakened thread names an object when the scheduler searches, in any run. */
  lemma SearchedThreadsHaveObjects(main: Ptr, L: set<Obj>, s: Sys, op: Op, s2: Sys)
    requires Reachable(main, L, s) && StepsTo(s, L, op, s2)
    ensures Exec(s, op).Next? && AwakenedHaveObjects(Exec(s, op).s.w.threads)
  {
    hide RingsOk;
    hide InvWith;
    hide Reachable;
    hide Exec;
    ReachableInv(main, L, s);
    var owner := InvOk(s, L);
    ExecKeeps(s, L, owner, op);
    InvAwakened(Exec(s, op).s, L);
  }
}
