/** Runs of the monitor and Lock protocols: who owns which object after any sequence of bytecodes. */
module MonitorProtocol {
  import opened LockTables
  import opened ThreadSpec
  import opened ListLemmas

  /** The monitors that a thread's active methods release on return, outermost method first. */
  type Frames = seq<Option<Obj>>

  const MAXDEPTH := 255

  /** orphans are the Locks whose holder has exited. */
  datatype Sys = Sys(w: World, frames: map<Ptr, Frames>, orphans: set<Obj>)

  datatype Op =
    | Invoke(sync: Option<Obj>)      // a call; synchronized on an object or not
    | Return
    | Wait(o: Obj)
    | NotifyOne(o: Obj)
    | NotifyEvery(o: Obj)
    | LockOp(o: Obj)
    | TryLockOp(o: Obj)
    | UnlockOp(o: Obj)
    | Start(p: Ptr, obj: Obj, priority: int)
    | ChangePriority(obj: Obj, priority: int)
    | YieldOp
    | Other                          // any bytecode that leaves threads and mutexes alone

  datatype Outcome = Next(s: Sys) | Stopped(why: Halt)

  function Lift(r: Result, frames: map<Ptr, Frames>, orphans: set<Obj>): Outcome {
    match r
    case Ok(w) => Next(Sys(w, frames, orphans))
    case Halted(why) => Stopped(why)
  }

  function Top(s: Sys): Option<Obj>
    requires s.w.current in s.frames && s.frames[s.w.current] != []
  {
    s.frames[s.w.current][|s.frames[s.w.current]| - 1]
  }

  function Push(s: Sys, f: Option<Obj>): map<Ptr, Frames>
    requires s.w.current in s.frames
  {
    s.frames[s.w.current := s.frames[s.w.current] + [f]]
  }

  function Pop(s: Sys): map<Ptr, Frames>
    requires s.w.current in s.frames && s.frames[s.w.current] != []
  {
    s.frames[s.w.current := s.frames[s.w.current][..|s.frames[s.w.current]| - 1]]
  }

  /** What the programmer and the virtual machine's own callers provide: Locks and monitors are different objects,
      wait and notify are called by the owner, a Java thread object is started once, priorities are 1..10,
      and calls nest less than 255 deep. */
  predicate Legal(s: Sys, L: set<Obj>, op: Op)
    requires s.w.Ok() && s.frames.Keys == s.w.threads.Keys
  {
    var me := s.w.threads[s.w.current];
    match op
    case Invoke(sync) => |s.frames[s.w.current]| < MAXDEPTH && (sync.Some? ==> sync.value !in L)
    case Wait(o) => o !in L && me.locks.CountOf(o) > 0
    case NotifyOne(o) => o !in L && me.locks.CountOf(o) > 0
    case NotifyEvery(o) => o !in L && me.locks.CountOf(o) > 0
    case LockOp(o) => o in L
    case TryLockOp(o) => o in L
    case UnlockOp(o) => o in L
    case Start(p, obj, priority) =>
      && p !in s.w.threads && p != NULL && 1 <= priority <= MAXPRIORITY
      && forall q :: q in s.w.threads ==> s.w.threads[q].obj != Some(obj)
    case ChangePriority(_, priority) => 1 <= priority <= MAXPRIORITY
    case _ => true
  }

  /** The bytecode itself. */
  function Exec(s: Sys, op: Op): Outcome
    requires s.w.Ok() && s.frames.Keys == s.w.threads.Keys && s.frames[s.w.current] != []
    requires op.Start? ==> op.p !in s.w.threads && 1 <= op.priority <= MAXPRIORITY
    requires op.ChangePriority? ==> 1 <= op.priority <= MAXPRIORITY
  {
    match op
    case Invoke(None) => Next(s.(frames := Push(s, None)))
    case Invoke(Some(o)) =>
      var (r, entered) := SyncEnter(s.w, o);
      Lift(r, if entered then Push(s, Some(o)) else s.frames, s.orphans)
    case Return => ExecReturn(s)
    case Wait(o) => Lift(NativeWait(s.w, o), s.frames, s.orphans)
    case NotifyOne(o) => Lift(Notify(s.w, o), s.frames, s.orphans)
    case NotifyEvery(o) => Lift(NotifyAll(s.w, o), s.frames, s.orphans)
    case LockOp(o) => Lift(SetMutex(s.w, s.w.current, o), s.frames, s.orphans)
    case TryLockOp(o) => Lift(TryLock(s.w, o).0, s.frames, s.orphans)
    case UnlockOp(o) => Lift(ReleaseMutex(s.w, s.w.current, o), s.frames, s.orphans)
    case Start(p, obj, priority) => Lift(Create(s.w, p, obj, priority), s.frames[p := [None]], s.orphans)
    case ChangePriority(obj, priority) => Lift(ThreadSpec.SetPriority(s.w, obj, priority), s.frames, s.orphans)
    case YieldOp => Next(s.(w := Yield(s.w)))
    case Other => Next(s)
  }

  /** Return: release the method's monitor, then leave the method, or the thread if it was the outermost one. */
  function ExecReturn(s: Sys): Outcome
    requires s.w.Ok() && s.frames.Keys == s.w.threads.Keys && s.frames[s.w.current] != []
  {
    var me := s.w.current;
    if Top(s).Some? && !s.w.threads[me].locks.Holds(Top(s).value) then Stopped(UnlockException)
    else
      var w := if Top(s).Some? then SyncExit(s.w, Top(s).value) else s.w;
      if |s.frames[me]| > 1 then Next(Sys(w, Pop(s), s.orphans))
      else if |w.threads| == 1 then Stopped(Terminated)
      else
        SyncExitKeepsOk(s.w, Top(s));
        Next(Sys(Delete(w), s.frames - {me}, s.orphans + HeldBy(w.threads[me].locks)))
  }

  function HeldBy(t: LockTable): set<Obj> {
    set i | 0 <= i < |t.objs| && t.objs[i].Some? :: t.objs[i].value
  }

  lemma WakeAllKeepsOk(w: World, o: Obj)
    requires w.Ok()
    ensures w.(threads := WakeAll(w.threads, o)).Ok() && WakeAll(w.threads, o).Keys == w.threads.Keys
  {
    hide RingsOk;
    assert WakeAll(w.threads, o).Keys == w.threads.Keys;
    SamePrioritiesKeepRings(w.rings, w.threads, WakeAll(w.threads, o));
  }

  lemma SyncExitKeepsOk(w: World, top: Option<Obj>)
    requires w.Ok() && (top.Some? ==> w.threads[w.current].locks.Holds(top.value))
    ensures top.Some? ==> SyncExit(w, top.value).Ok() && SyncExit(w, top.value).threads.Keys == w.threads.Keys
    ensures top.Some? ==> SyncExit(w, top.value).current == w.current
  {
    if top.Some? {
      var t := w.threads[w.current];
      if t.locks.CountOf(top.value) > 1 {
        SetKeepsOk(w, w.current, t.(locks := t.locks.Add(top.value, -1)));
      } else {
        var t1 := t.(waitsFor := None, locks := t.locks.Clear(top.value));
        SetKeepsOk(w, w.current, t1);
        WakeAllKeepsOk(w.Set(w.current, t1), top.value);
      }
    }
  }

  /** One turn of the interpreter loop: a bytecode, then the scheduler. */
  function Step(s: Sys, op: Op): Outcome
    requires s.w.Ok() && s.frames.Keys == s.w.threads.Keys && s.frames[s.w.current] != []
    requires op.Start? ==> op.p !in s.w.threads && 1 <= op.priority <= MAXPRIORITY
    requires op.ChangePriority? ==> 1 <= op.priority <= MAXPRIORITY
  {
    match Exec(s, op)
    case Stopped(why) => Stopped(why)
    case Next(s1) => if s1.w.Ok() then Lift(Schedule(s1.w), s1.frames, s1.orphans) else Stopped(SchedulingError)
  }

  // Invariant

  function Entered(frames: Frames, o: Obj): nat {
    if frames == [] then 0
    else Entered(frames[..|frames| - 1], o) + if frames[|frames| - 1] == Some(o) then 1 else 0
  }

  predicate Waiting(t: Thread, o: Obj) {
    (t.state == WaitBlocked || t.state == WaitAwakened) && t.waitsFor == Some(o)
  }

  /** t has o in its lock table and is not waiting on it. */
  predicate Owns(t: Thread, o: Obj)
    requires |t.locks.objs| == |t.locks.counts|
  {
    t.locks.CountOf(o) > 0 && !Waiting(t, o)
  }

  ghost predicate ThreadOk(t: Thread, frames: Frames, L: set<Obj>, blocked: set<Obj>) {
    && t.locks.Valid() && |t.locks.objs| == MAXLOCKEDTHREADOBJECTS
    && 1 <= |frames| <= MAXDEPTH && frames[0] == None
    && (forall o :: o !in L ==> t.locks.CountOf(o) == Entered(frames, o))
    && (forall o :: o in L ==> t.locks.CountOf(o) <= 1 && Entered(frames, o) == 0)
    && match t.state {
      case NotBlocked => t.waitsFor == None
      case MutexBlocked =>
        && t.waitsFor.Some? && t.waitsFor.value in blocked
        && (t.waitsFor.value !in L ==> t.locks.CountOf(t.waitsFor.value) == 0)
      case _ => t.waitsFor.Some? && t.waitsFor.value !in L && t.locks.CountOf(t.waitsFor.value) > 0
    }
  }

  ghost predicate OwnsExactly(t: Thread, p: Ptr, owner: map<Obj, Ptr>)
    requires |t.locks.objs| == |t.locks.counts|
  {
    forall o :: Owns(t, o) <==> o in owner && owner[o] == p
  }

  /** The mutex bits agree with the lock tables: `owner` names the one owner of each owned object. */
  ghost predicate OwnersOk(threads: map<Ptr, Thread>, blocked: set<Obj>, orphans: set<Obj>, L: set<Obj>, owner: map<Obj,
                           Ptr>)
    requires forall p :: p in threads ==> |threads[p].locks.objs| == |threads[p].locks.counts|
  {
    && blocked == owner.Keys + orphans && owner.Keys !! orphans && orphans <= L
    && (forall o :: o in owner ==> owner[o] in threads)
    && (forall p :: p in threads ==> OwnsExactly(threads[p], p, owner))
  }

  /** Every thread is right with respect to bT, and the lock tables agree with the mutex bits bO. */
  ghost predicate Core(threads: map<Ptr, Thread>, frames: map<Ptr, Frames>, orphans: set<Obj>, L: set<Obj>,
                       bT: set<Obj>, bO: set<Obj>, owner: map<Obj, Ptr>)
  {
    && frames.Keys == threads.Keys
    && (forall p :: p in threads ==> |threads[p].locks.objs| == |threads[p].locks.counts|)
    && (forall p :: p in threads ==> ThreadOk(threads[p], frames[p], L, bT))
    && OwnersOk(threads, bO, orphans, L, owner)
  }

  ghost predicate InvWith(s: Sys, L: set<Obj>, owner: map<Obj, Ptr>) {
    s.w.Ok() && Core(s.w.threads, s.frames, s.orphans, L, s.w.blocked, s.w.blocked, owner)
  }

  ghost predicate Inv(s: Sys, L: set<Obj>) {
    exists owner :: InvWith(s, L, owner)
  }

  predicate Running(s: Sys)
    requires s.w.current in s.w.threads
  {
    s.w.threads[s.w.current].state == NotBlocked
  }

  // Preservation, one change at a time

  lemma {:induction false} EnteredPush(frames: Frames, f: Option<Obj>, o: Obj)
    ensures Entered(frames + [f], o) == Entered(frames, o) + if f == Some(o) then 1 else 0
  {
    assert (frames + [f])[..|frames|] == frames;
  }

  lemma {:induction false} EnteredAtMost(frames: Frames, o: Obj)
    ensures Entered(frames, o) <= |frames|
  {
    if frames != [] {
      EnteredAtMost(frames[..|frames| - 1], o);
    }
  }

  predicate StaysBlocked(t: Thread, blocked: set<Obj>) {
    t.state == MutexBlocked ==> t.waitsFor.Some? && t.waitsFor.value in blocked
  }

  lemma ThreadOkElsewhere(t: Thread, f: Frames, L: set<Obj>, blocked: set<Obj>, blocked2: set<Obj>)
    requires ThreadOk(t, f, L, blocked)
    requires StaysBlocked(t, blocked2)
    ensures ThreadOk(t, f, L, blocked2)
  {
  }

  lemma OwnsElsewhere(t: Thread, q: Ptr, owner: map<Obj, Ptr>, owner2: map<Obj, Ptr>)
    requires |t.locks.objs| == |t.locks.counts| && OwnsExactly(t, q, owner)
    requires forall o :: (o in owner2 && owner2[o] == q) <==> (o in owner && owner[o] == q)
    ensures OwnsExactly(t, q, owner2)
  {
  }

  /** Only p gains or loses objects between the two owner maps. */
  ghost predicate OwnersDifferAt(owner: map<Obj, Ptr>, owner2: map<Obj, Ptr>, p: Ptr) {
    && (forall o :: o in owner2 && owner2[o] != p ==> o in owner && owner[o] == owner2[o])
    && (forall o :: o in owner && owner[o] != p ==> o in owner2 && owner[o] == owner2[o])
  }

  /** Replacing one control block keeps the invariant when the new block is right and owns what `owner2` says. */
  lemma CoreReplace(threads: map<Ptr, Thread>, frames: map<Ptr, Frames>, orphans: set<Obj>, L: set<Obj>,
                    bT: set<Obj>, bO: set<Obj>, owner: map<Obj, Ptr>,
                    p: Ptr, t: Thread, f: Frames, bT2: set<Obj>, bO2: set<Obj>, owner2: map<Obj, Ptr>)
    requires Core(threads, frames, orphans, L, bT, bO, owner) && p in threads
    requires |t.locks.objs| == |t.locks.counts|
    requires ThreadOk(t, f, L, bT2) && OwnsExactly(t, p, owner2) && OwnersDifferAt(owner, owner2, p)
    requires bO2 == owner2.Keys + orphans && owner2.Keys !! orphans
    requires forall q :: q in threads && q != p ==> StaysBlocked(threads[q], bT2)
    ensures Core(threads[p := t], frames[p := f], orphans, L, bT2, bO2, owner2)
  {
    hide ThreadOk;
    hide OwnsExactly;
    hide StaysBlocked;
    var threads2 := threads[p := t];
    var frames2 := frames[p := f];
    assert threads2.Keys == threads.Keys && frames2.Keys == frames.Keys;
    forall q | q in threads2
      ensures ThreadOk(threads2[q], frames2[q], L, bT2) && OwnsExactly(threads2[q], q, owner2)
    {
      if q != p {
        ThreadOkElsewhere(threads[q], frames[q], L, bT, bT2);
        OwnsElsewhere(threads[q], q, owner, owner2);
      }
    }
  }

  lemma CoreThread(threads: map<Ptr, Thread>, frames: map<Ptr, Frames>, orphans: set<Obj>, L: set<Obj>,
                   bT: set<Obj>, bO: set<Obj>, owner: map<Obj, Ptr>, p: Ptr)
    requires Core(threads, frames, orphans, L, bT, bO, owner) && p in threads
    ensures p in frames && |threads[p].locks.objs| == |threads[p].locks.counts|
    ensures ThreadOk(threads[p], frames[p], L, bT) && OwnsExactly(threads[p], p, owner)
    ensures bO == owner.Keys + orphans && owner.Keys !! orphans && orphans <= L
    ensures forall o :: o in owner ==> owner[o] in threads
  {
    hide ThreadOk;
    hide OwnsExactly;
  }

  lemma CoreStaysBlocked(threads: map<Ptr, Thread>, frames: map<Ptr, Frames>, orphans: set<Obj>, L: set<Obj>,
                         bT: set<Obj>, bO: set<Obj>, owner: map<Obj, Ptr>, bT2: set<Obj>)
    requires Core(threads, frames, orphans, L, bT, bO, owner) && bT <= bT2
    ensures forall q :: q in threads ==> StaysBlocked(threads[q], bT2)
  {
    forall q | q in threads ensures StaysBlocked(threads[q], bT2) {
      CoreThread(threads, frames, orphans, L, bT, bO, owner, q);
    }
  }

  lemma WokenOk(t: Thread, t2: Thread, f: Frames, L: set<Obj>, o: Obj, bT: set<Obj>, p: Ptr, owner: map<Obj, Ptr>)
    requires ThreadOk(t, f, L, bT) && OwnsExactly(t, p, owner)
    requires t2 == Woken(t, o)
    ensures ThreadOk(t2, f, L, bT - {o}) && OwnsExactly(t2, p, owner) && t2.locks == t.locks
  {
    forall x ensures Owns(t2, x) <==> Owns(t, x) {
    }
  }

  /** No thread blocked on o is left behind when o is freed by waking all of them. */
  lemma CoreWakeAll(threads: map<Ptr, Thread>, frames: map<Ptr, Frames>, orphans: set<Obj>, L: set<Obj>,
                    bT: set<Obj>, bO: set<Obj>, owner: map<Obj, Ptr>, o: Obj)
    requires Core(threads, frames, orphans, L, bT, bO, owner)
    ensures Core(WakeAll(threads, o), frames, orphans, L, bT - {o}, bO, owner)
  {
    hide ThreadOk;
    hide OwnsExactly;
    var threads2 := WakeAll(threads, o);
    assert threads2.Keys == threads.Keys;
    forall p | p in threads2
      ensures ThreadOk(threads2[p], frames[p], L, bT - {o}) && OwnsExactly(threads2[p], p, owner)
    {
      WokenOk(threads[p], threads2[p], frames[p], L, o, bT, p, owner);
    }
  }

  /** What every step starts from: the invariant, with the running thread not blocked. */
  ghost predicate Ready(s: Sys, L: set<Obj>, owner: map<Obj, Ptr>) {
    && s.w.Ok() && s.frames.Keys == s.w.threads.Keys && InvWith(s, L, owner) && Running(s)
  }

  function Me(s: Sys): Thread
    requires s.w.Ok()
  {
    s.w.threads[s.w.current]
  }

  /** Replacing the control block of p, its frames and the mutex bits, all at once. */
  lemma ReplaceKeeps(s: Sys, L: set<Obj>, owner: map<Obj, Ptr>, p: Ptr, t: Thread, f: Frames, blocked: set<Obj>,
                     owner2: map<Obj, Ptr>)
    requires InvWith(s, L, owner) && p in s.w.threads && t.priority == s.w.threads[p].priority
    requires |t.locks.objs| == |t.locks.counts| == MAXLOCKEDTHREADOBJECTS
    requires ThreadOk(t, f, L, blocked) && OwnsExactly(t, p, owner2) && OwnersDifferAt(owner, owner2, p)
    requires blocked == owner2.Keys + s.orphans && owner2.Keys !! s.orphans
    requires forall q :: q in s.w.threads && q != p ==> StaysBlocked(s.w.threads[q], blocked)
    ensures InvWith(Sys(s.w.(threads := s.w.threads[p := t], blocked := blocked), s.frames[p := f], s.orphans), L,
                    owner2)
  {
    hide RingsOk;
    hide Core;
    hide ThreadOk;
    hide OwnsExactly;
    hide StaysBlocked;
    hide OwnersDifferAt;
    SetKeepsOk(s.w, p, t);
    CoreReplace(s.w.threads, s.frames, s.orphans, L, s.w.blocked, s.w.blocked, owner, p, t, f, blocked, blocked,
                owner2);
  }

  lemma ThreadParts(s: Sys, L: set<Obj>, owner: map<Obj, Ptr>, p: Ptr)
    requires InvWith(s, L, owner) && p in s.w.threads
    ensures s.w.Ok() && s.frames.Keys == s.w.threads.Keys
    ensures ThreadOk(s.w.threads[p], s.frames[p], L, s.w.blocked) && OwnsExactly(s.w.threads[p], p, owner)
    ensures s.w.blocked == owner.Keys + s.orphans && owner.Keys !! s.orphans && s.orphans <= L
    ensures forall o :: o in owner ==> owner[o] in s.w.threads
  {
    hide RingsOk;
    hide ThreadOk;
    hide OwnsExactly;
  }

  /** What the search for the next thread relies on. */
  lemma InvAwakened(s: Sys, L: set<Obj>)
    requires Inv(s, L)
    ensures AwakenedHaveObjects(s.w.threads)
  {
    hide RingsOk;
    hide InvWith;
    var owner :| InvWith(s, L, owner);
    forall p | p in s.w.threads && s.w.threads[p].state == WaitAwakened ensures s.w.threads[p].waitsFor.Some? {
      ThreadParts(s, L, owner, p);
    }
  }

  lemma OthersStayBlocked(s: Sys, L: set<Obj>, owner: map<Obj, Ptr>, blocked: set<Obj>)
    requires InvWith(s, L, owner) && s.w.blocked <= blocked
    ensures forall q :: q in s.w.threads ==> StaysBlocked(s.w.threads[q], blocked)
  {
    hide RingsOk;
    hide Core;
    CoreStaysBlocked(s.w.threads, s.frames, s.orphans, L, s.w.blocked, s.w.blocked, owner, blocked);
  }

  /** A free object is in the table of no thread but those that wait on it. */
  lemma FreeNotHeld(s: Sys, L: set<Obj>, owner: map<Obj, Ptr>, p: Ptr, o: Obj)
    requires InvWith(s, L, owner) && p in s.w.threads && o !in s.w.blocked && !Waiting(s.w.threads[p], o)
    ensures s.w.threads[p].locks.CountOf(o) == 0 && !s.w.threads[p].locks.Holds(o) && o !in owner && o !in s.orphans
  {
    hide InvWith;
    ThreadParts(s, L, owner, p);
    assert !Owns(s.w.threads[p], o);
    s.w.threads[p].locks.HoldsIff(o);
  }
  /** A thread takes a free object, as a monitor with a new frame or as a Lock without one. */
  lemma TakeOk(t: Thread, f: Frames, f2: Frames, L: set<Obj>, blocked: set<Obj>, o: Obj, p: Ptr, owner: map<Obj, Ptr>)
    requires ThreadOk(t, f, L, blocked) && OwnsExactly(t, p, owner) && !t.locks.Holds(o) && !t.locks.Full()
    requires t.state == NotBlocked || (t.state == MutexBlocked && o in L)
    requires f2 == if o in L then f else f + [Some(o)]
    requires |f2| <= MAXDEPTH
    ensures
      var t2 := t.(state := NotBlocked, waitsFor := None, locks := t.locks.Take(o));
      && |t2.locks.objs| == |t2.locks.counts| == MAXLOCKEDTHREADOBJECTS
      && ThreadOk(t2, f2, L, blocked + {o}) && OwnsExactly(t2, p, owner[o := p])
  {
    var t2 := t.(state := NotBlocked, waitsFor := None, locks := t.locks.Take(o));
    t.locks.HoldsIff(o);
    t.locks.TakeEffect(o, o);
    forall x ensures t2.locks.CountOf(x) == if x == o then 1 else t.locks.CountOf(x) {
      t.locks.TakeEffect(o, x);
    }
    forall x ensures Entered(f2, x) == Entered(f, x) + if o !in L && x == o then 1 else 0 {
      EnteredPush(f, Some(o), x);
    }
    hide LockTable.Take;
    hide LockTable.CountOf;
    forall x ensures Owns(t2, x) <==> x in owner[o := p] && owner[o := p][x] == p {
      assert Owns(t, x) <==> x in owner && owner[x] == p;
      if x != o && t.state == MutexBlocked {
        assert Owns(t2, x) <==> Owns(t, x);
      }
    }
  }

  lemma EnterFreeKeeps(s: Sys, L: set<Obj>, owner: map<Obj, Ptr>, o: Obj, f2: Frames)
    requires Ready(s, L, owner) && o !in s.w.blocked && !Me(s).locks.Full() && |f2| <= MAXDEPTH
    requires f2 == if o in L then s.frames[s.w.current] else s.frames[s.w.current] + [Some(o)]
    ensures var t2 := Me(s).(waitsFor := None, locks := Me(s).locks.Take(o));
      InvWith(Sys(s.w.(threads := s.w.threads[s.w.current := t2], blocked := s.w.blocked + {o}),
                  s.frames[s.w.current := f2], s.orphans), L, owner[o := s.w.current])
  {
    hide InvWith;
    hide RingsOk;
    hide ThreadOk;
    hide OwnsExactly;
    var me, t, f := s.w.current, Me(s), s.frames[s.w.current];
    ThreadParts(s, L, owner, me);
    FreeNotHeld(s, L, owner, me, o);
    OthersStayBlocked(s, L, owner, s.w.blocked + {o});
    TakeOk(t, f, f2, L, s.w.blocked, o, me, owner);
    var t2 := t.(waitsFor := None, locks := t.locks.Take(o));
    assert t2 == t.(state := NotBlocked, waitsFor := None, locks := t.locks.Take(o));
    ReplaceKeeps(s, L, owner, me, t2, f2, s.w.blocked + {o}, owner[o := me]);
  }

  lemma BlockKeeps(s: Sys, L: set<Obj>, owner: map<Obj, Ptr>, o: Obj, ticks: int)
    requires Ready(s, L, owner) && o in s.w.blocked && (o !in L ==> Me(s).locks.CountOf(o) == 0)
    ensures InvWith(s.(w := s.w.Set(s.w.current,
                                    Me(s).(state := MutexBlocked, waitsFor := Some(o), numTicks := ticks))),
                    L, owner)
  {
    hide InvWith;
    hide RingsOk;
    hide ThreadOk;
    hide OwnsExactly;
    var me, t, f := s.w.current, Me(s), s.frames[s.w.current];
    ThreadParts(s, L, owner, me);
    OthersStayBlocked(s, L, owner, s.w.blocked);
    BlockOk(t, f, L, s.w.blocked, o, me, owner);
    ReplaceKeeps(s, L, owner, me, t.(state := MutexBlocked, waitsFor := Some(o), numTicks := ticks), f, s.w.blocked,
                 owner);
    assert s.frames[me := f] == s.frames;
  }

  lemma CountKeeps(s: Sys, L: set<Obj>, owner: map<Obj, Ptr>, o: Obj, d: int, f2: Frames)
    requires Ready(s, L, owner) && o !in L && Me(s).locks.Holds(o)
    requires var f := s.frames[s.w.current];
      (d == 1 && f2 == f + [Some(o)] && |f2| <= MAXDEPTH) ||
      (d == -1 && f == f2 + [Some(o)] && f2 != [] && Me(s).locks.CountOf(o) > 1)
    ensures InvWith(s.(w := s.w.Set(s.w.current, Me(s).(locks := Me(s).locks.Add(o, d))),
                       frames := s.frames[s.w.current := f2]), L, owner)
  {
    hide InvWith;
    hide RingsOk;
    hide ThreadOk;
    hide OwnsExactly;
    var me, t, f := s.w.current, Me(s), s.frames[s.w.current];
    ThreadParts(s, L, owner, me);
    OthersStayBlocked(s, L, owner, s.w.blocked);
    AddOk(t, f, f2, L, s.w.blocked, o, d, me, owner);
    ReplaceKeeps(s, L, owner, me, t.(locks := t.locks.Add(o, d)), f2, s.w.blocked, owner);
  }

  lemma InvokeKeeps(s: Sys, L: set<Obj>, owner: map<Obj, Ptr>, o: Obj)
    requires Ready(s, L, owner) && o !in L && |s.frames[s.w.current]| < MAXDEPTH
    ensures var out := Exec(s, Invoke(Some(o))); out.Next? ==> Inv(out.s, L)
  {
    hide InvWith;
    hide RingsOk;
    hide ThreadOk;
    hide OwnsExactly;
    ThreadParts(s, L, owner, s.w.current);
    if o !in s.w.blocked {
      if !Me(s).locks.Full() {
        EnterFreeKeeps(s, L, owner, o, s.frames[s.w.current] + [Some(o)]);
      }
    } else if !Me(s).locks.Holds(o) {
      Me(s).locks.HoldsIff(o);
      BlockKeeps(s, L, owner, o, Me(s).numTicks);
    } else {
      CountKeeps(s, L, owner, o, 1, s.frames[s.w.current] + [Some(o)]);
    }
  }

  /** A running thread that does not hold a blocked object, or asks again for a Lock, blocks on it. */
  lemma BlockOk(t: Thread, f: Frames, L: set<Obj>, blocked: set<Obj>, o: Obj, p: Ptr, owner: map<Obj, Ptr>)
    requires ThreadOk(t, f, L, blocked) && OwnsExactly(t, p, owner) && t.state == NotBlocked
    requires o in blocked && (o !in L ==> t.locks.CountOf(o) == 0)
    ensures forall ticks :: var t2 := t.(state := MutexBlocked, waitsFor := Some(o), numTicks := ticks);
      ThreadOk(t2, f, L, blocked) && OwnsExactly(t2, p, owner)
  {
    hide LockTable.CountOf;
    forall ticks ensures var t2 := t.(state := MutexBlocked, waitsFor := Some(o), numTicks := ticks);
      ThreadOk(t2, f, L, blocked) && OwnsExactly(t2, p, owner)
    {
      var t2 := t.(state := MutexBlocked, waitsFor := Some(o), numTicks := ticks);
      forall x ensures Owns(t2, x) <==> Owns(t, x) {
      }
    }
  }

  /** Entering again, or leaving one of several entries, changes only the count. */
  lemma AddOk(t: Thread, f: Frames, f2: Frames, L: set<Obj>, blocked: set<Obj>, o: Obj, d: int, p: Ptr, owner: map<Obj,
              Ptr>)
    requires ThreadOk(t, f, L, blocked) && OwnsExactly(t, p, owner) && t.locks.Holds(o) && o !in L
    requires t.state == NotBlocked
    requires (d == 1 && f2 == f + [Some(o)] && |f2| <= MAXDEPTH) ||
             (d == -1 && f == f2 + [Some(o)] && f2 != [] && t.locks.CountOf(o) > 1)
    ensures var t2 := t.(locks := t.locks.Add(o, d));
      && |t2.locks.objs| == |t2.locks.counts| == MAXLOCKEDTHREADOBJECTS
      && ThreadOk(t2, f2, L, blocked) && OwnsExactly(t2, p, owner)
  {
    var t2 := t.(locks := t.locks.Add(o, d));
    t.locks.HoldsIff(o);
    EnteredAtMost(f, o);
    t.locks.AddEffect(o, d, o);
    forall x ensures t2.locks.CountOf(x) == if x == o then t.locks.CountOf(o) + d else t.locks.CountOf(x) {
      t.locks.AddEffect(o, d, x);
    }
    forall x ensures Entered(f2, x) == Entered(f, x) + if x == o then d else 0 {
      EnteredPush(if d == 1 then f else f2, Some(o), x);
    }
    hide LockTable.Add;
    hide LockTable.CountOf;
    forall x ensures Owns(t2, x) <==> Owns(t, x) {
    }
  }

  /** Giving up the last entry of o: the table forgets it. */
  lemma ClearOk(t: Thread, f: Frames, f2: Frames, L: set<Obj>, blocked: set<Obj>, o: Obj, p: Ptr, owner: map<Obj, Ptr>)
    requires ThreadOk(t, f, L, blocked) && OwnsExactly(t, p, owner) && t.locks.CountOf(o) == 1 && t.state == NotBlocked
    requires if o in L then f2 == f else f == f2 + [Some(o)] && f2 != []
    ensures t.locks.Holds(o)
    ensures var t2 := t.(locks := t.locks.Clear(o));
      && |t2.locks.objs| == |t2.locks.counts| == MAXLOCKEDTHREADOBJECTS
      && ThreadOk(t2, f2, L, blocked) && OwnsExactly(t2, p, owner - {o})
  {
    t.locks.HoldsIff(o);
    var t2 := t.(locks := t.locks.Clear(o));
    t.locks.ClearEffect(o, o);
    forall x ensures t2.locks.CountOf(x) == if x == o then 0 else t.locks.CountOf(x) {
      t.locks.ClearEffect(o, x);
    }
    forall x ensures Entered(f, x) == Entered(f2, x) + if o !in L && x == o then 1 else 0 {
      EnteredPush(f2, Some(o), x);
    }
    hide LockTable.Clear;
    hide LockTable.CountOf;
    forall x ensures Owns(t2, x) <==> x in owner - {o} && (owner - {o})[x] == p {
      assert Owns(t, x) <==> x in owner && owner[x] == p;
    }
  }

  // Return

  lemma {:induction false} PopEntered(f: Frames, o: Obj)
    requires f != []
    ensures f == f[..|f| - 1] + [f[|f| - 1]]
    ensures Entered(f, o) == Entered(f[..|f| - 1], o) + if f[|f| - 1] == Some(o) then 1 else 0
  {
  }

  lemma {:induction false} PlainPopOk(t: Thread, f: Frames, L: set<Obj>, blocked: set<Obj>)
    requires ThreadOk(t, f, L, blocked) && |f| > 1 && f[|f| - 1] == None
    ensures ThreadOk(t, f[..|f| - 1], L, blocked)
  {
    forall o ensures Entered(f, o) == Entered(f[..|f| - 1], o) {
      PopEntered(f, o);
    }
  }

  lemma {:induction false} PlainPushOk(t: Thread, f: Frames, L: set<Obj>, blocked: set<Obj>)
    requires ThreadOk(t, f, L, blocked) && |f| < MAXDEPTH
    ensures ThreadOk(t, f + [None], L, blocked)
  {
    forall o ensures Entered(f + [None], o) == Entered(f, o) {
      EnteredPush(f, None, o);
    }
  }

  /** A frame that is not synchronized comes and goes without any effect on ownership. */
  lemma FramesKeep(s: Sys, L: set<Obj>, owner: map<Obj, Ptr>, f2: Frames)
    requires Ready(s, L, owner) && ThreadOk(Me(s), f2, L, s.w.blocked)
    ensures InvWith(s.(frames := s.frames[s.w.current := f2]), L, owner)
  {
    hide InvWith;
    hide RingsOk;
    hide ThreadOk;
    hide OwnsExactly;
    var me := s.w.current;
    ThreadParts(s, L, owner, me);
    OthersStayBlocked(s, L, owner, s.w.blocked);
    ReplaceKeeps(s, L, owner, me, Me(s), f2, s.w.blocked, owner);
    assert s.w.threads[me := Me(s)] == s.w.threads;
  }

  /** The innermost synchronized frame's object is in the table: its release always finds it. */
  lemma TopIsHeld(s: Sys, L: set<Obj>, owner: map<Obj, Ptr>)
    requires Ready(s, L, owner)
    ensures s.frames[s.w.current] != []
    ensures Top(s).Some? ==>
      && Top(s).value !in L && |s.frames[s.w.current]| > 1
      && Me(s).locks.Holds(Top(s).value) && Me(s).locks.CountOf(Top(s).value) > 0 && Top(s).value in s.w.blocked
  {
    hide InvWith;
    hide RingsOk;
    ThreadParts(s, L, owner, s.w.current);
    var f := s.frames[s.w.current];
    if Top(s).Some? {
      PopEntered(f, Top(s).value);
      Me(s).locks.HoldsIff(Top(s).value);
      assert Owns(Me(s), Top(s).value);
    }
  }

  lemma LastExitKeeps(s: Sys, L: set<Obj>, owner: map<Obj, Ptr>, o: Obj, f2: Frames)
    requires Ready(s, L, owner) && o !in L && o in s.w.blocked && Me(s).locks.CountOf(o) == 1
    requires s.frames[s.w.current] == f2 + [Some(o)] && f2 != []
    ensures Me(s).locks.Holds(o)
    ensures InvWith(s.(w := SyncExit(s.w, o), frames := s.frames[s.w.current := f2]), L, owner - {o})
  {
    hide InvWith;
    hide RingsOk;
    hide ThreadOk;
    hide OwnsExactly;
    hide Core;
    var me, t, f := s.w.current, Me(s), s.frames[s.w.current];
    ThreadParts(s, L, owner, me);
    ClearOk(t, f, f2, L, s.w.blocked, o, me, owner);
    var t2 := t.(waitsFor := None, locks := t.locks.Clear(o));
    assert t2 == t.(locks := t.locks.Clear(o)) by {
      RunningWaitsForNothing(t, f, L, s.w.blocked);
    }
    InvCore(s, L, owner);
    CoreStaysBlocked(s.w.threads, s.frames, s.orphans, L, s.w.blocked, s.w.blocked, owner, s.w.blocked);
    OwnedByMe(t, me, owner, o);
    CoreReplace(s.w.threads, s.frames, s.orphans, L, s.w.blocked, s.w.blocked, owner,
                me, t2, f2, s.w.blocked, s.w.blocked - {o}, owner - {o});
    CoreWakeAll(s.w.threads[me := t2], s.frames[me := f2], s.orphans, L, s.w.blocked, s.w.blocked - {o}, owner - {o},
                o);
    SyncExitKeepsOk(s.w, Some(o));
    CoreInv(s.(w := SyncExit(s.w, o), frames := s.frames[me := f2]), L, owner - {o});
  }

  lemma RunningWaitsForNothing(t: Thread, f: Frames, L: set<Obj>, blocked: set<Obj>)
    requires ThreadOk(t, f, L, blocked) && t.state == NotBlocked
    ensures t.waitsFor == None
  {
  }

  lemma OwnedByMe(t: Thread, p: Ptr, owner: map<Obj, Ptr>, o: Obj)
    requires |t.locks.objs| == |t.locks.counts| && OwnsExactly(t, p, owner) && t.locks.CountOf(o) > 0
    requires t.state == NotBlocked
    ensures o in owner && owner[o] == p
  {
    assert Owns(t, o);
  }

  lemma InvCore(s: Sys, L: set<Obj>, owner: map<Obj, Ptr>)
    requires InvWith(s, L, owner)
    ensures s.w.Ok() && Core(s.w.threads, s.frames, s.orphans, L, s.w.blocked, s.w.blocked, owner)
  {
  }

  lemma HasInv(s: Sys, L: set<Obj>, owner: map<Obj, Ptr>)
    requires InvWith(s, L, owner)
    ensures Inv(s, L) && s.w.Ok() && s.frames.Keys == s.w.threads.Keys
  {
    hide RingsOk;
  }

  lemma InvOk(s: Sys, L: set<Obj>) returns (owner: map<Obj, Ptr>)
    requires Inv(s, L)
    ensures InvWith(s, L, owner) && s.w.Ok() && s.frames.Keys == s.w.threads.Keys
  {
    hide RingsOk;
    owner :| InvWith(s, L, owner);
  }

  lemma CoreInv(s: Sys, L: set<Obj>, owner: map<Obj, Ptr>)
    requires s.w.Ok() && Core(s.w.threads, s.frames, s.orphans, L, s.w.blocked, s.w.blocked, owner)
    ensures InvWith(s, L, owner)
  {
  }

  // Exit

  lemma HeldByIff(t: LockTable, o: Obj)
    requires t.Valid()
    ensures o in HeldBy(t) <==> t.CountOf(o) > 0
  {
    t.HoldsIff(o);
    if Some(o) in t.objs {
      var i :| 0 <= i < |t.objs| && t.objs[i] == Some(o);
      assert t.objs[i].value == o;
    }
  }

  function Without(owner: map<Obj, Ptr>, p: Ptr): map<Obj, Ptr> {
    map o | o in owner && owner[o] != p :: owner[o]
  }

  /** A thread that leaves its outermost method holds Locks only. */
  lemma ExitHolds(t: Thread, L: set<Obj>, blocked: set<Obj>, p: Ptr, owner: map<Obj, Ptr>)
    requires ThreadOk(t, [None], L, blocked) && OwnsExactly(t, p, owner) && t.state == NotBlocked
    ensures HeldBy(t.locks) <= L && forall o :: o in HeldBy(t.locks) <==> o in owner && owner[o] == p
  {
    forall o ensures o in HeldBy(t.locks) <==> o in owner && owner[o] == p
      ensures o in HeldBy(t.locks) ==> o in L
    {
      HeldByIff(t.locks, o);
      PopEntered([None], o);
      assert Owns(t, o) <==> o in owner && owner[o] == p;
    }
  }

  lemma CoreRemove(threads: map<Ptr, Thread>, frames: map<Ptr, Frames>, orphans: set<Obj>, L: set<Obj>,
                   b: set<Obj>, owner: map<Obj, Ptr>, p: Ptr, held: set<Obj>)
    requires Core(threads, frames, orphans, L, b, b, owner) && p in threads && held <= L
    requires forall o :: o in held <==> o in owner && owner[o] == p
    ensures Core(threads - {p}, frames - {p}, orphans + held, L, b, b, Without(owner, p))
  {
    hide ThreadOk;
    hide OwnsExactly;
    var threads2, frames2, owner2 := threads - {p}, frames - {p}, Without(owner, p);
    assert threads2.Keys == threads.Keys - {p} && frames2.Keys == frames.Keys - {p};
    assert owner.Keys == owner2.Keys + held;
    forall q | q in threads2
      ensures ThreadOk(threads2[q], frames2[q], L, b) && OwnsExactly(threads2[q], q, owner2)
    {
      OwnsElsewhere(threads[q], q, owner, owner2);
    }
  }

  lemma ExitKeeps(s: Sys, L: set<Obj>, owner: map<Obj, Ptr>)
    requires Ready(s, L, owner) && |s.w.threads| > 1 && s.frames[s.w.current] == [None]
    ensures InvWith(Sys(Delete(s.w), s.frames - {s.w.current}, s.orphans + HeldBy(Me(s).locks)), L,
                    Without(owner, s.w.current))
  {
    hide InvWith;
    hide RingsOk;
    hide ThreadOk;
    hide OwnsExactly;
    hide Core;
    var me := s.w.current;
    ThreadParts(s, L, owner, me);
    ExitHolds(Me(s), L, s.w.blocked, me, owner);
    InvCore(s, L, owner);
    CoreRemove(s.w.threads, s.frames, s.orphans, L, s.w.blocked, owner, me, HeldBy(Me(s).locks));
    DeleteKeepsOk(s.w);
    CoreInv(Sys(Delete(s.w), s.frames - {me}, s.orphans + HeldBy(Me(s).locks)), L, Without(owner, me));
  }

  lemma OutermostIsPlain(s: Sys, L: set<Obj>, owner: map<Obj, Ptr>)
    requires Ready(s, L, owner) && |s.frames[s.w.current]| == 1
    ensures s.frames[s.w.current] == [None]
  {
    hide InvWith;
    hide RingsOk;
    ThreadParts(s, L, owner, s.w.current);
  }

  lemma ReturnKeeps(s: Sys, L: set<Obj>, owner: map<Obj, Ptr>)
    requires Ready(s, L, owner) && s.frames[s.w.current] != []
    ensures ExecReturn(s) != Stopped(UnlockException)
    ensures ExecReturn(s).Next? ==> Inv(ExecReturn(s).s, L)
  {
    hide InvWith;
    hide RingsOk;
    hide ThreadOk;
    hide OwnsExactly;
    var me, f := s.w.current, s.frames[s.w.current];
    var f2 := f[..|f| - 1];
    TopIsHeld(s, L, owner);
    ThreadParts(s, L, owner, me);
    match Top(s) {
      case Some(o) =>
        assert f == f2 + [Some(o)];
        if Me(s).locks.CountOf(o) > 1 {
          CountKeeps(s, L, owner, o, -1, f2);
        } else {
          LastExitKeeps(s, L, owner, o, f2);
        }
      case None =>
        if |f| > 1 {
          PlainPopOk(Me(s), f, L, s.w.blocked);
          FramesKeep(s, L, owner, f2);
        } else if |s.w.threads| > 1 {
          OutermostIsPlain(s, L, owner);
          ExitKeeps(s, L, owner);
        }
    }
  }

  // wait and notify

  /** A running owner that starts to wait keeps its table and gives up the object. */
  lemma WaitOk(t: Thread, f: Frames, L: set<Obj>, blocked: set<Obj>, o: Obj, p: Ptr, owner: map<Obj, Ptr>)
    requires ThreadOk(t, f, L, blocked) && OwnsExactly(t, p, owner) && t.state == NotBlocked && o !in L
    requires t.locks.CountOf(o) > 0
    ensures var t2 := t.(waitsFor := Some(o), state := WaitBlocked);
      ThreadOk(t2, f, L, blocked) && OwnsExactly(t2, p, owner - {o})
  {
    var t2 := t.(waitsFor := Some(o), state := WaitBlocked);
    hide LockTable.CountOf;
    forall x ensures Owns(t2, x) <==> x in owner - {o} && (owner - {o})[x] == p {
      assert Owns(t, x) <==> x in owner && owner[x] == p;
    }
  }

  lemma WaitKeeps(s: Sys, L: set<Obj>, owner: map<Obj, Ptr>, o: Obj)
    requires Ready(s, L, owner) && o !in L && Me(s).locks.CountOf(o) > 0
    ensures NativeWait(s.w, o).Ok?
    ensures InvWith(s.(w := NativeWait(s.w, o).world), L, owner - {o})
  {
    hide InvWith;
    hide RingsOk;
    hide ThreadOk;
    hide OwnsExactly;
    hide Core;
    var me, t, f := s.w.current, Me(s), s.frames[s.w.current];
    ThreadParts(s, L, owner, me);
    OwnedByMe(t, me, owner, o);
    WaitOk(t, f, L, s.w.blocked, o, me, owner);
    var t2 := t.(waitsFor := Some(o), state := WaitBlocked);
    InvCore(s, L, owner);
    CoreStaysBlocked(s.w.threads, s.frames, s.orphans, L, s.w.blocked, s.w.blocked, owner, s.w.blocked);
    CoreReplace(s.w.threads, s.frames, s.orphans, L, s.w.blocked, s.w.blocked, owner,
                me, t2, f, s.w.blocked, s.w.blocked - {o}, owner - {o});
    var threads2 := s.w.threads[me := t2];
    CoreWakeAll(threads2, s.frames[me := f], s.orphans, L, s.w.blocked, s.w.blocked - {o}, owner - {o}, o);
    SetKeepsOk(s.w, me, t2);
    WakeAllKeepsOk(s.w.Set(me, t2), o);
    assert s.frames[me := f] == s.frames;
    assert WakeAll(threads2, o) == WakeAll(s.w.threads, o)[me := t2];
    CoreInv(s.(w := NativeWait(s.w, o).world), L, owner - {o});
  }

  lemma AwakenedOk(t: Thread, f: Frames, L: set<Obj>, b: set<Obj>, p: Ptr, owner: map<Obj, Ptr>)
    requires ThreadOk(t, f, L, b) && OwnsExactly(t, p, owner) && t.state == WaitBlocked
    ensures ThreadOk(t.(state := WaitAwakened), f, L, b) && OwnsExactly(t.(state := WaitAwakened), p, owner)
  {
    forall x ensures Owns(t.(state := WaitAwakened), x) <==> Owns(t, x) {
    }
  }

  lemma NotifyKeeps(s: Sys, L: set<Obj>, owner: map<Obj, Ptr>, o: Obj)
    requires Ready(s, L, owner)
    ensures Notify(s.w, o).Ok? ==> InvWith(s.(w := Notify(s.w, o).world), L, owner)
  {
    hide InvWith;
    hide RingsOk;
    hide ThreadOk;
    hide OwnsExactly;
    FirstForFound(s.w.threads, Order(s.w.rings), WaitBlocked, o);
    match FirstFor(s.w.threads, Order(s.w.rings), WaitBlocked, o) {
      case None =>
      case Some(p) =>
        var t := s.w.threads[p];
        ThreadParts(s, L, owner, p);
        AwakenedOk(t, s.frames[p], L, s.w.blocked, p, owner);
        OthersStayBlocked(s, L, owner, s.w.blocked);
        ReplaceKeeps(s, L, owner, p, t.(state := WaitAwakened), s.frames[p], s.w.blocked, owner);
        assert s.frames[p := s.frames[p]] == s.frames;
    }
  }

  lemma CoreAwakenAll(threads: map<Ptr, Thread>, frames: map<Ptr, Frames>, orphans: set<Obj>, L: set<Obj>,
                      b: set<Obj>, owner: map<Obj, Ptr>, o: Obj)
    requires Core(threads, frames, orphans, L, b, b, owner)
    ensures Core(AwakenAll(threads, o), frames, orphans, L, b, b, owner)
  {
    hide ThreadOk;
    hide OwnsExactly;
    var threads2 := AwakenAll(threads, o);
    assert threads2.Keys == threads.Keys;
    forall p | p in threads2 ensures ThreadOk(threads2[p], frames[p], L, b) && OwnsExactly(threads2[p], p, owner) {
      if threads[p].state == WaitBlocked {
        AwakenedOk(threads[p], frames[p], L, b, p, owner);
      }
    }
  }

  lemma NotifyAllKeeps(s: Sys, L: set<Obj>, owner: map<Obj, Ptr>, o: Obj)
    requires Ready(s, L, owner)
    ensures NotifyAll(s.w, o).Ok? ==> InvWith(s.(w := NotifyAll(s.w, o).world), L, owner)
  {
    hide RingsOk;
    hide Core;
    var threads2 := AwakenAll(s.w.threads, o);
    assert threads2.Keys == s.w.threads.Keys;
    SamePrioritiesKeepRings(s.w.rings, s.w.threads, threads2);
    CoreAwakenAll(s.w.threads, s.frames, s.orphans, L, s.w.blocked, owner, o);
  }

  // Locks

  lemma LockKeeps(s: Sys, L: set<Obj>, owner: map<Obj, Ptr>, o: Obj)
    requires Ready(s, L, owner) && o in L
    ensures SetMutex(s.w, s.w.current, o).Ok? ==> Inv(s.(w := SetMutex(s.w, s.w.current, o).world), L)
  {
    hide InvWith;
    hide RingsOk;
    hide ThreadOk;
    hide OwnsExactly;
    var me, f := s.w.current, s.frames[s.w.current];
    ThreadParts(s, L, owner, me);
    if o !in s.w.blocked {
      if !Me(s).locks.Full() {
        assert |f| <= MAXDEPTH by { FrameBound(Me(s), f, L, s.w.blocked); }
        EnterFreeKeeps(s, L, owner, o, f);
        assert s.frames[me := f] == s.frames;
      }
    } else {
      BlockKeeps(s, L, owner, o, 0);
    }
  }

  lemma FrameBound(t: Thread, f: Frames, L: set<Obj>, blocked: set<Obj>)
    requires ThreadOk(t, f, L, blocked)
    ensures 1 <= |f| <= MAXDEPTH
  {
  }

  /** Releasing a Lock by its owner: the table entry goes, and for everybody else nothing changes yet. */
  lemma CoreReleased(s: Sys, L: set<Obj>, owner: map<Obj, Ptr>, o: Obj)
    requires Ready(s, L, owner) && o in L && Me(s).locks.Holds(o)
    ensures Me(s).locks.CountOf(o) == 1 && o in owner && owner[o] == s.w.current
    ensures var t2 := Me(s).(locks := Me(s).locks.Clear(o));
      Core(s.w.threads[s.w.current := t2], s.frames, s.orphans, L, s.w.blocked, s.w.blocked - {o}, owner - {o})
  {
    hide InvWith;
    hide RingsOk;
    hide ThreadOk;
    hide OwnsExactly;
    hide Core;
    var me, t, f := s.w.current, Me(s), s.frames[s.w.current];
    ThreadParts(s, L, owner, me);
    LockCount(t, f, L, s.w.blocked, o);
    OwnedByMe(t, me, owner, o);
    ClearOk(t, f, f, L, s.w.blocked, o, me, owner);
    var t2 := t.(locks := t.locks.Clear(o));
    InvCore(s, L, owner);
    CoreStaysBlocked(s.w.threads, s.frames, s.orphans, L, s.w.blocked, s.w.blocked, owner, s.w.blocked);
    CoreReplace(s.w.threads, s.frames, s.orphans, L, s.w.blocked, s.w.blocked, owner,
                me, t2, f, s.w.blocked, s.w.blocked - {o}, owner - {o});
    assert s.frames[me := f] == s.frames;
  }

  lemma LockCount(t: Thread, f: Frames, L: set<Obj>, blocked: set<Obj>, o: Obj)
    requires ThreadOk(t, f, L, blocked) && o in L
    ensures t.locks.Holds(o) <==> t.locks.CountOf(o) == 1
  {
    t.locks.HoldsIff(o);
  }

  /** Once nobody is blocked on o, o can be free. */
  lemma CoreFree(threads: map<Ptr, Thread>, frames: map<Ptr, Frames>, orphans: set<Obj>, L: set<Obj>,
                 bT: set<Obj>, bO: set<Obj>, owner: map<Obj, Ptr>, o: Obj)
    requires Core(threads, frames, orphans, L, bT, bO, owner)
    requires forall p :: p in threads ==> !(threads[p].state == MutexBlocked && threads[p].waitsFor == Some(o))
    ensures Core(threads, frames, orphans, L, bT - {o}, bO, owner)
  {
    hide OwnsExactly;
    hide LockTable.CountOf;
    hide Entered;
    forall p | p in threads ensures ThreadOk(threads[p], frames[p], L, bT - {o}) {
      assert ThreadOk(threads[p], frames[p], L, bT);
      ThreadOkElsewhere(threads[p], frames[p], L, bT, bT - {o});
    }
    hide ThreadOk;
  }

  /** The hand-off: a blocked thread becomes the owner of o at once. */
  lemma CoreHandOff(threads: map<Ptr, Thread>, frames: map<Ptr, Frames>, orphans: set<Obj>, L: set<Obj>,
                    b: set<Obj>, owner: map<Obj, Ptr>, o: Obj, p: Ptr)
    requires Core(threads, frames, orphans, L, b, b - {o}, owner) && o in L && o in b && p in threads
    requires threads[p].state == MutexBlocked && threads[p].waitsFor == Some(o) && !threads[p].locks.Full()
    ensures var t2 := threads[p].(state := NotBlocked, waitsFor := None, locks := threads[p].locks.Take(o));
      Core(threads[p := t2], frames, orphans, L, b, b, owner[o := p])
  {
    hide Core;
    hide ThreadOk;
    hide OwnsExactly;
    CoreThread(threads, frames, orphans, L, b, b - {o}, owner, p);
    var t := threads[p];
    BlockedHoldsNot(t, frames[p], L, b, p, owner, o);
    assert |frames[p]| <= MAXDEPTH by { FrameBound(t, frames[p], L, b); }
    TakeOk(t, frames[p], frames[p], L, b, o, p, owner);
    var t2 := t.(state := NotBlocked, waitsFor := None, locks := t.locks.Take(o));
    assert b + {o} == b;
    CoreStaysBlocked(threads, frames, orphans, L, b, b - {o}, owner, b);
    CoreReplace(threads, frames, orphans, L, b, b - {o}, owner, p, t2, frames[p], b, b, owner[o := p]);
    assert frames[p := frames[p]] == frames;
  }

  lemma BlockedHoldsNot(t: Thread, f: Frames, L: set<Obj>, b: set<Obj>, p: Ptr, owner: map<Obj, Ptr>, o: Obj)
    requires ThreadOk(t, f, L, b) && OwnsExactly(t, p, owner) && t.state == MutexBlocked && o !in owner
    ensures !t.locks.Holds(o)
  {
    assert !Owns(t, o);
    t.locks.HoldsIff(o);
  }

  lemma UnlockKeeps(s: Sys, L: set<Obj>, owner: map<Obj, Ptr>, o: Obj)
    requires Ready(s, L, owner) && o in L
    ensures var r := ReleaseMutex(s.w, s.w.current, o); r.Ok? ==> Inv(s.(w := r.world), L)
  {
    hide InvWith;
    hide RingsOk;
    hide ThreadOk;
    hide OwnsExactly;
    hide Core;
    var me, t := s.w.current, Me(s);
    if o in s.w.blocked && t.locks.Holds(o) {
      CoreReleased(s, L, owner, o);
      var t2 := t.(locks := t.locks.Clear(o));
      SetKeepsOk(s.w, me, t2);
      var w1 := s.w.(threads := s.w.threads[me := t2], blocked := s.w.blocked - {o});
      assert ReleaseMutex(s.w, me, o) == AwakeFromMutex(w1, o);
      HandOffKeeps(s.(w := w1), L, s.w.blocked, owner - {o}, o);
    } else {
      assert Inv(s, L);
    }
  }

  lemma HandOffKeeps(s: Sys, L: set<Obj>, b: set<Obj>, owner: map<Obj, Ptr>, o: Obj)
    requires s.w.Ok() && o in L && o in b && s.w.blocked == b - {o}
    requires Core(s.w.threads, s.frames, s.orphans, L, b, b - {o}, owner)
    ensures AwakeFromMutex(s.w, o).Ok? ==> Inv(s.(w := AwakeFromMutex(s.w, o).world), L)
  {
    hide RingsOk;
    hide Core;
    FirstForFound(s.w.threads, Order(s.w.rings), MutexBlocked, o);
    match FirstFor(s.w.threads, Order(s.w.rings), MutexBlocked, o) {
      case None =>
        NobodyBlocked(s.w, o);
        CoreFree(s.w.threads, s.frames, s.orphans, L, b, b - {o}, owner, o);
        CoreInv(s, L, owner);
      case Some(p) =>
        var t := s.w.threads[p];
        HandOffResult(s.w, o, p);
        if !t.locks.Full() {
          CoreHandOff(s.w.threads, s.frames, s.orphans, L, b, owner, o, p);
          var t2 := t.(state := NotBlocked, waitsFor := None, locks := t.locks.Take(o));
          SetKeepsOk(s.w, p, t2);
          assert b - {o} + {o} == b;
          CoreInv(s.(w := s.w.(threads := s.w.threads[p := t2], blocked := b)), L, owner[o := p]);
        }
    }
  }

  lemma NobodyBlocked(w: World, o: Obj)
    requires RingsOk(w.rings, w.threads) && FirstFor(w.threads, Order(w.rings), MutexBlocked, o).None?
    ensures forall p :: p in w.threads ==> !(w.threads[p].state == MutexBlocked && w.threads[p].waitsFor == Some(o))
  {
    hide RingsOk;
    FirstForFound(w.threads, Order(w.rings), MutexBlocked, o);
    forall p | p in w.threads ensures !(w.threads[p].state == MutexBlocked && w.threads[p].waitsFor == Some(o)) {
      OrderIsAll(w, p);
    }
  }

  /** What awakeThreadFromMutex does to the thread it finds, in one step. */
  lemma HandOffResult(w: World, o: Obj, p: Ptr)
    requires w.Ok() && o !in w.blocked && FirstFor(w.threads, Order(w.rings), MutexBlocked, o) == Some(p)
    requires p in w.threads
    ensures AwakeFromMutex(w, o) ==
      if w.threads[p].locks.Full() then Halted(TooManyLocks)
      else Ok(w.(threads := w.threads[p := w.threads[p].(state := NotBlocked, waitsFor := None,
                                                         locks := w.threads[p].locks.Take(o))],
                 blocked := w.blocked + {o}))
  {
    hide RingsOk;
    SetKeepsOk(w, p, w.threads[p].(state := NotBlocked));
    if !w.threads[p].locks.Full() {
      var t2 := w.threads[p].(state := NotBlocked, waitsFor := None, locks := w.threads[p].locks.Take(o));
      assert w.Set(p, w.threads[p].(state := NotBlocked)).threads[p := t2] == w.threads[p := t2];
    }
  }

  // Priorities, slices and scheduling

  lemma SameProtocolOk(t: Thread, t2: Thread, f: Frames, L: set<Obj>, b: set<Obj>, p: Ptr, owner: map<Obj, Ptr>)
    requires ThreadOk(t, f, L, b) && OwnsExactly(t, p, owner)
    requires t2.state == t.state && t2.waitsFor == t.waitsFor && t2.locks == t.locks
    ensures ThreadOk(t2, f, L, b) && OwnsExactly(t2, p, owner)
  {
    forall x ensures Owns(t2, x) <==> Owns(t, x) {
    }
  }

  /** Priorities, slices, cursors and the current thread play no part in the protocol. */
  lemma CoreSameProtocol(threads: map<Ptr, Thread>, threads2: map<Ptr, Thread>, frames: map<Ptr, Frames>,
                         orphans: set<Obj>,
                         L: set<Obj>, b: set<Obj>, owner: map<Obj, Ptr>)
    requires Core(threads, frames, orphans, L, b, b, owner) && SameProtocol(threads, threads2)
    ensures Core(threads2, frames, orphans, L, b, b, owner)
  {
    hide ThreadOk;
    hide OwnsExactly;
    forall p | p in threads2 ensures ThreadOk(threads2[p], frames[p], L, b) && OwnsExactly(threads2[p], p, owner) {
      SameProtocolOk(threads[p], threads2[p], frames[p], L, b, p, owner);
    }
  }

  lemma SameProtocolKeeps(s: Sys, L: set<Obj>, owner: map<Obj, Ptr>, w2: World)
    requires InvWith(s, L, owner) && w2.Ok() && SameProtocol(s.w.threads, w2.threads) && w2.blocked == s.w.blocked
    ensures InvWith(s.(w := w2), L, owner)
  {
    hide RingsOk;
    hide Core;
    CoreSameProtocol(s.w.threads, w2.threads, s.frames, s.orphans, L, s.w.blocked, owner);
  }

  lemma YieldKeeps(s: Sys, L: set<Obj>, owner: map<Obj, Ptr>)
    requires Ready(s, L, owner)
    ensures InvWith(s.(w := Yield(s.w)), L, owner)
  {
    hide InvWith;
    hide RingsOk;
    SetKeepsOk(s.w, s.w.current, Me(s).(numTicks := 0));
    SameProtocolKeeps(s, L, owner, Yield(s.w));
  }

  lemma ChangePriorityKeeps(s: Sys, L: set<Obj>, owner: map<Obj, Ptr>, obj: Obj, priority: int)
    requires Ready(s, L, owner) && 1 <= priority <= MAXPRIORITY
    ensures var r := ThreadSpec.SetPriority(s.w, obj, priority); r.Ok? ==> InvWith(s.(w := r.world), L, owner)
  {
    hide InvWith;
    hide RingsOk;
    SetPriorityKeepsOk(s.w, obj, priority);
    var r := ThreadSpec.SetPriority(s.w, obj, priority);
    if r.Ok? {
      SameProtocolKeeps(s, L, owner, r.world);
    }
  }

  lemma FreshOk(t: Thread, L: set<Obj>, b: set<Obj>, p: Ptr, owner: map<Obj, Ptr>)
    requires t.state == NotBlocked && t.waitsFor == None && forall o :: o in owner ==> owner[o] != p
    requires t.locks == FreshThread(None, 0).locks
    ensures ThreadOk(t, [None], L, b) && OwnsExactly(t, p, owner)
  {
    forall o ensures t.locks.CountOf(o) == 0 && Entered([None], o) == 0 {
      PopEntered([None], o);
    }
  }

  lemma StartKeeps(s: Sys, L: set<Obj>, owner: map<Obj, Ptr>, p: Ptr, obj: Obj, priority: int)
    requires Ready(s, L, owner) && p !in s.w.threads && p != NULL && 1 <= priority <= MAXPRIORITY
    ensures var r := Create(s.w, p, obj, priority); r.Ok? ==>
      InvWith(Sys(r.world, s.frames[p := [None]], s.orphans), L, owner)
  {
    hide InvWith;
    hide RingsOk;
    hide ThreadOk;
    hide OwnsExactly;
    hide Core;
    hide InsertRing;
    assert |s.w.rings| == MAXPRIORITY by { RingsLength(s.w); }
    var r := Create(s.w, p, obj, priority);
    if r.Ok? {
      CreateKeepsOk(s.w, p, obj, priority);
      var t := FreshThread(Some(obj), priority);
      ThreadParts(s, L, owner, s.w.current);
      FreshOk(t, L, s.w.blocked, p, owner);
      InvCore(s, L, owner);
      CoreAdd(s.w.threads, s.frames, s.orphans, L, s.w.blocked, owner, p, t);
      CoreSameProtocol(s.w.threads[p := t], r.world.threads, s.frames[p := [None]], s.orphans, L, s.w.blocked, owner);
      CoreInv(Sys(r.world, s.frames[p := [None]], s.orphans), L, owner);
    }
  }

  lemma RingsLength(w: World)
    requires w.Ok()
    ensures |w.rings| == MAXPRIORITY
  {
  }

  lemma CoreAdd(threads: map<Ptr, Thread>, frames: map<Ptr, Frames>, orphans: set<Obj>, L: set<Obj>,
                b: set<Obj>, owner: map<Obj, Ptr>, p: Ptr, t: Thread)
    requires Core(threads, frames, orphans, L, b, b, owner) && p !in threads
    requires |t.locks.objs| == |t.locks.counts| && ThreadOk(t, [None], L, b) && OwnsExactly(t, p, owner)
    ensures Core(threads[p := t], frames[p := [None]], orphans, L, b, b, owner)
  {
    hide ThreadOk;
    hide OwnsExactly;
    assert threads[p := t].Keys == threads.Keys + {p} && frames[p := [None]].Keys == frames.Keys + {p};
  }

  lemma AdmitOk(t: Thread, f: Frames, L: set<Obj>, b: set<Obj>, p: Ptr, owner: map<Obj, Ptr>, o: Obj)
    requires ThreadOk(t, f, L, b) && OwnsExactly(t, p, owner) && t.state == WaitAwakened && t.waitsFor == Some(o)
    ensures var t2 := t.(state := NotBlocked, waitsFor := None);
      && |t2.locks.objs| == |t2.locks.counts| == MAXLOCKEDTHREADOBJECTS
      && ThreadOk(t2, f, L, b + {o}) && OwnsExactly(t2, p, owner[o := p])
  {
    var t2 := t.(state := NotBlocked, waitsFor := None);
    forall x ensures Owns(t2, x) <==> x in owner[o := p] && owner[o := p][x] == p {
      assert Owns(t, x) <==> x in owner && owner[x] == p;
    }
  }

  /** Choosing an awakened thread gives it the free object it waited for. */
  lemma AdmitKeeps(s: Sys, L: set<Obj>, owner: map<Obj, Ptr>, p: Ptr)
    requires InvWith(s, L, owner) && s.w.Ok() && p in s.w.threads && Eligible(s.w.threads[p], s.w.blocked)
    ensures Inv(s.(w := Admit(s.w, p)), L) && Admit(s.w, p).threads[p].state == NotBlocked
  {
    hide InvWith;
    hide RingsOk;
    hide ThreadOk;
    hide OwnsExactly;
    var t := s.w.threads[p];
    if t.state == WaitAwakened {
      var o := t.waitsFor.value;
      ThreadParts(s, L, owner, p);
      AdmitOk(t, s.frames[p], L, s.w.blocked, p, owner, o);
      OthersStayBlocked(s, L, owner, s.w.blocked + {o});
      ReplaceKeeps(s, L, owner, p, t.(state := NotBlocked, waitsFor := None), s.frames[p], s.w.blocked + {o},
                   owner[o := p]);
      assert s.frames[p := s.frames[p]] == s.frames;
    } else {
      assert Inv(s, L);
    }
  }

  lemma DispatchKeeps(s: Sys, L: set<Obj>, owner: map<Obj, Ptr>, p: Ptr)
    requires InvWith(s, L, owner) && s.w.Ok() && p in s.w.threads
    ensures var w2 := Dispatch(s.w, p);
      && InvWith(s.(w := w2), L, owner) && w2.Ok() && w2.current == p && w2.threads[p].state == s.w.threads[p].state
  {
    hide InvWith;
    hide RingsOk;
    hide RotateTo;
    DispatchKeepsOk(s.w, p);
    SameProtocolKeeps(s, L, owner, Dispatch(s.w, p));
  }

  lemma SwitchKeeps(s: Sys, L: set<Obj>, owner: map<Obj, Ptr>)
    requires InvWith(s, L, owner) && s.w.Ok()
    ensures Switch(s.w).Ok? ==>
      Inv(s.(w := Switch(s.w).world), L) && Switch(s.w).world.Ok() && Running(s.(w := Switch(s.w).world))
  {
    hide InvWith;
    RingsLength(s.w);
    hide RingsOk;
    hide Admit;
    hide Dispatch;
    match Select(s.w, MAXPRIORITY) {
      case None =>
      case Some(p) =>
        AdmitKeeps(s, L, owner, p);
        var w1 := Admit(s.w, p);
        var owner2 :| InvWith(s.(w := w1), L, owner2);
        DispatchKeeps(s.(w := w1), L, owner2, p);
    }
  }

  lemma ScheduleKeeps(s: Sys, L: set<Obj>, owner: map<Obj, Ptr>)
    requires InvWith(s, L, owner) && s.w.Ok()
    ensures Schedule(s.w).Ok? ==>
      && Inv(s.(w := Schedule(s.w).world), L) && Schedule(s.w).world.Ok()
      && (!Running(s.(w := Schedule(s.w).world)) <==> |s.w.threads| == 1 && !Running(s))
  {
    hide InvWith;
    hide RingsOk;
    if |s.w.threads| != 1 {
      var w1 := Tick(s.w);
      SameProtocolKeeps(s, L, owner, w1);
      SwitchKeeps(s.(w := w1), L, owner);
    } else {
      assert Inv(s, L);
    }
  }
}