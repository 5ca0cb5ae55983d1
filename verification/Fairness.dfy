/** How long a thread that can run waits for its turn, in bytecodes, and when it waits forever. */
module Fairness {
  import opened LockTables
  import opened ThreadSpec
  import opened ListLemmas
  import opened MonitorProtocol
  import opened MonitorRuns
  import opened Scheduling

  // What the bytecodes of one thread do to the others

  /** Same lists, same running thread; nobody's priority changes and nobody else stops being able to run. */
  predicate KeepsLists(w: World, w1: World) {
    && w1.rings == w.rings && w1.current == w.current && w1.threads.Keys == w.threads.Keys
    && forall p :: p in w.threads ==>
         w1.threads[p].priority == w.threads[p].priority
         && (p != w.current && w.threads[p].state == NotBlocked ==> w1.threads[p].state == NotBlocked)
  }

  /** And nobody's slice gets longer. */
  predicate Leaves(w: World, w1: World) {
    KeepsLists(w, w1) && forall p :: p in w.threads ==> SliceKeptOrCut(w, w1, p)
  }

  lemma EnterLeaves(w: World, o: Obj)
    requires w.Ok()
    ensures SyncEnter(w, o).0.Ok? ==> Leaves(w, SyncEnter(w, o).0.world)
  {
    hide RingsOk;
    hide LockTable.Holds;
    hide LockTable.Full;
  }

  lemma LockLeaves(w: World, o: Obj)
    requires w.Ok()
    ensures SetMutex(w, w.current, o).Ok? ==> Leaves(w, SetMutex(w, w.current, o).world)
  {
    hide RingsOk;
    hide LockTable.Full;
  }

  lemma YieldLeaves(w: World)
    requires w.Ok()
    ensures Leaves(w, Yield(w))
  {
    hide RingsOk;
  }

  lemma WaitLeaves(w: World, o: Obj)
    requires w.Ok()
    ensures NativeWait(w, o).Ok? ==> Leaves(w, NativeWait(w, o).world)
  {
    hide RingsOk;
    assert WakeAll(w.threads, o).Keys == w.threads.Keys;
  }

  lemma ExitLeaves(w: World, o: Obj)
    requires w.Ok()
    ensures w.threads[w.current].locks.Holds(o) ==> Leaves(w, SyncExit(w, o))
  {
    hide RingsOk;
    hide LockTable.Holds;
  }

  lemma NotifyLeaves(w: World, o: Obj)
    ensures Notify(w, o).Ok? ==> Leaves(w, Notify(w, o).world)
    ensures NotifyAll(w, o).Ok? ==> Leaves(w, NotifyAll(w, o).world)
  {
    FirstForFound(w.threads, Order(w.rings), WaitBlocked, o);
    hide FirstFor;
    hide Order;
    assert AwakenAll(w.threads, o).Keys == w.threads.Keys;
  }

  lemma UnlockLeaves(w: World, o: Obj)
    requires w.Ok()
    ensures ReleaseMutex(w, w.current, o).Ok? ==> Leaves(w, ReleaseMutex(w, w.current, o).world)
  {
    hide RingsOk;
    hide FirstFor;
    hide Order;
    var p := w.current;
    if o in w.blocked && w.threads[p].locks.Holds(o) {
      var t2 := w.threads[p].(locks := w.threads[p].locks.Clear(o));
      SetKeepsOk(w, p, t2);
      var w1 := w.(threads := w.threads[p := t2], blocked := w.blocked - {o});
      FirstForFound(w1.threads, Order(w1.rings), MutexBlocked, o);
      match FirstFor(w1.threads, Order(w1.rings), MutexBlocked, o) {
        case None =>
        case Some(q) => HandOffResult(w1, o, q);
      }
    }
  }

  /** The bytecodes that neither start a thread nor change a priority. */
  predicate Quiet(op: Op) {
    !op.Start? && !op.ChangePriority?
  }

  /** The running thread leaves its outermost method. */
  predicate IsExit(s: Sys, op: Op) {
    op.Return? && s.w.current in s.frames && |s.frames[s.w.current]| == 1
  }

  lemma QuietLeaves(s: Sys, L: set<Obj>, owner: map<Obj, Ptr>, op: Op)
    requires s.w.Ok() && s.frames.Keys == s.w.threads.Keys && s.frames[s.w.current] != [] && Legal(s, L, op)
    requires Quiet(op) && !IsExit(s, op) && Ready(s, L, owner)
    ensures Exec(s, op).Next? ==> Leaves(s.w, Exec(s, op).s.w)
  {
    hide InvWith;
    hide RingsOk;
    hide Leaves;
    hide SyncEnter;
    hide SyncExit;
    hide NativeWait;
    hide Notify;
    hide NotifyAll;
    hide SetMutex;
    hide ReleaseMutex;
    hide Delete;
    hide HeldBy;
    hide Yield;
    hide LockTable.Holds;
    TopIsHeld(s, L, owner);
    assert Leaves(s.w, s.w) by { LeavesItself(s.w); }
    match op {
      case Invoke(Some(o)) => EnterLeaves(s.w, o);
      case Return => if Top(s).Some? { ExitLeaves(s.w, Top(s).value); }
      case Wait(o) => WaitLeaves(s.w, o);
      case NotifyOne(o) => NotifyLeaves(s.w, o);
      case NotifyEvery(o) => NotifyLeaves(s.w, o);
      case LockOp(o) => LockLeaves(s.w, o);
      case TryLockOp(o) => LockLeaves(s.w, o);
      case UnlockOp(o) => UnlockLeaves(s.w, o);
      case YieldOp => YieldLeaves(s.w);
      case _ =>
    }
  }

  lemma LeavesItself(w: World)
    ensures Leaves(w, w)
  {
  }

  // Cursors

  /** The cursor of the running thread's level is on the running thread. */
  predicate CursorOnRunning(w: World) {
    && w.current in w.threads && |w.rings| == MAXPRIORITY && 1 <= w.threads[w.current].priority <= MAXPRIORITY
    && var r := w.rings[w.threads[w.current].priority - 1];
       r != [] && r[0] == w.current
  }

  /** If the running thread belongs to level i, the cursor of the level is on it. */
  predicate CursorFits(w: World, i: nat) {
    && i < |w.rings| && w.current in w.threads
    && (w.threads[w.current].priority == i + 1 ==> w.rings[i] != [] && w.rings[i][0] == w.current)
  }

  /** No thread above level i can run. */
  predicate NoneAbove(w: World, i: nat) {
    forall q :: q in w.threads && w.threads[q].priority > i + 1 ==> !Eligible(w.threads[q], w.blocked)
  }

  /** t is a thread of level i that can run, though it is not running. */
  predicate Waits(w: World, i: nat, t: Ptr) {
    && i < MAXPRIORITY == |w.rings| && t in w.rings[i] && t in w.threads && t != w.current
    && w.threads[t].state == NotBlocked && w.threads[t].priority == i + 1
  }

  lemma TickLeaves(w: World)
    requires w.Ok()
    ensures KeepsLists(w, Tick(w)) && Tick(w).blocked == w.blocked
    ensures forall p :: p in w.threads ==>
      Tick(w).threads[p].state == w.threads[p].state && Tick(w).threads[p].waitsFor == w.threads[p].waitsFor
  {
    hide RingsOk;
  }

  lemma LeavesKeeps(w: World, w1: World, i: nat, t: Ptr)
    requires KeepsLists(w, w1)
    ensures Waits(w, i, t) ==> Waits(w1, i, t)
    ensures CursorFits(w, i) && w.current in w.threads ==> CursorFits(w1, i)
    ensures CursorOnRunning(w) ==> CursorOnRunning(w1)
  {
  }

  /** A selection while t waits, with nobody above, is made at the level of t. */
  lemma SelectedLevel(w: World, i: nat, t: Ptr)
    requires w.Ok() && Waits(w, i, t) && NoneAbove(w, i)
    ensures SelectionAt(w, i)
  {
    ChoosesHighest(w);
    RingsLength(w);
    hide RingsOk;
    hide Select;
    assert Eligible(w.threads[t], w.blocked);
    var p := Select(w, MAXPRIORITY).value;
    assert Eligible(w.threads[p], w.blocked) && w.threads[p].priority >= i + 1;
  }

  lemma DispatchResult(w: World, p: Ptr)
    requires w.Ok() && p in w.threads
    ensures Dispatch(w, p).threads.Keys == w.threads.Keys && Dispatch(w, p).threads[p].priority == w.threads[p].priority
    ensures Dispatch(w, p).blocked == w.blocked && Dispatch(w, p).threads[p].numTicks == w.threads[p].priority
    ensures forall q :: q in w.threads && q != p ==> Dispatch(w, p).threads[q] == w.threads[q]
    ensures CursorOnRunning(w) || p != w.current ==> CursorOnRunning(Dispatch(w, p))
  {
    hide RingsOk;
    hide RotateTo;
    hide IndexIn;
    DispatchKeepsOk(w, p);
    RingsLength(Dispatch(w, p));
    ListedNotNull(w.rings, w.threads, p);
    ListedNotNull(Dispatch(w, p).rings, Dispatch(w, p).threads, p);
  }

  lemma CursorTurns(w: World, p: Ptr, i: nat)
    requires w.Ok() && i < |w.rings| && p in w.threads && w.threads[p].priority == i + 1
    requires p == w.current ==> w.rings[i] != [] && w.rings[i][0] == p
    ensures CursorFits(Dispatch(w, p), i)
  {
    ListedNotNull(w.rings, w.threads, p);
    hide RingsOk;
    DispatchResult(w, p);
    DispatchKeepsOk(w, p);
  }

  lemma SwitchResult(w: World, i: nat, t: Ptr)
    requires SelectionAt(w, i) && Waits(w, i, t) && Select(w, MAXPRIORITY) != Some(t) && t in ListAfter(w, i)
    ensures Switch(w).Ok? && Waits(Switch(w).world, i, t) && Switch(w).world.rings[i] == ListAfter(w, i)
    ensures !StandsStill(w, i) ==> CursorFits(Switch(w).world, i)
  {
    hide RingsOk;
    hide Select;
    hide Admit;
    hide Dispatch;
    hide CursorOnRunning;
    hide CursorFits;
    var p := Select(w, MAXPRIORITY).value;
    AdmitResult(w, p);
    DispatchResult(Admit(w, p), p);
    DispatchKeepsOk(Admit(w, p), p);
    RingsLength(Dispatch(Admit(w, p), p));
    if !StandsStill(w, i) {
      ListedNotNull(w.rings, w.threads, p);
      CursorTurns(Admit(w, p), p, i);
    }
  }

  /** Either the slice goes on, or the list turns towards t and a new slice begins. */
  predicate Nearer(w: World, w2: World, i: nat, t: Ptr)
    requires Waits(w, i, t) && Waits(w2, i, t)
  {
    || (w2.rings[i] == w.rings[i] && Ticks(w) != 0 && Ticks(w2) == (Ticks(w) - 1) % 0x100)
    || (Distance(w2.rings[i], t) < Distance(w.rings[i], t) && Ticks(w2) == i + 1)
  }

  lemma SwitchNearer(w: World, i: nat, t: Ptr)
    requires w.Ok() && Waits(w, i, t) && NoneAbove(w, i) && (SelectionAt(w, i) ==> !StandsStill(w, i))
    ensures Switch(w).Ok?
    ensures var w2 := Switch(w).world;
      w2.current == t
      || (Waits(w2, i, t) && CursorFits(w2, i) && Distance(w2.rings[i], t) < Distance(w.rings[i], t)
          && Ticks(w2) == i + 1)
  {
    hide RingsOk;
    hide Select;
    hide Distance;
    hide ListAfter;
    SelectedLevel(w, i, t);
    var p := Select(w, MAXPRIORITY).value;
    if p != t {
      assert Eligible(w.threads[t], w.blocked);
      SelectionProgress(w, i, t);
      SwitchResult(w, i, t);
      SwitchStartsSlice(w, Switch(w).world);
    }
    DispatchKeepsOk(Admit(w, p), p);
    AdmitResult(w, p);
    DispatchResult(Admit(w, p), p);
  }

  lemma ScheduleNearer(w: World, w2: World, i: nat, t: Ptr)
    requires w.Ok() && Waits(w, i, t) && NoneAbove(w, i) && CursorFits(w, i) && Schedule(w) == Ok(w2)
    ensures w2.current == t || (Waits(w2, i, t) && CursorFits(w2, i) && Nearer(w, w2, i, t))
  {
    hide RingsOk;
    hide Switch;
    hide Select;
    hide Distance;
    if |w.threads| == 1 {
      OnlyMe(w.threads, w.current, t);
    }
    var w1 := Tick(w);
    TickLeaves(w);
    LeavesKeeps(w, w1, i, t);
    assert Ticks(w1) == (Ticks(w) - 1) % 0x100;
    hide Tick;
    if !(w.threads[w.current].numTicks != 0 && w.threads[w.current].state == NotBlocked) {
      SwitchNearer(w1, i, t);
    }
  }

  /** What is left of the wait of t: at most the slices of the members tried before it. */
  function Measure(s: Sys, i: nat, t: Ptr): int
    requires i < |s.w.rings| && t in s.w.rings[i]
  {
    Distance(s.w.rings[i], t) * (i + 2) + Ticks(s.w)
  }

  lemma OneSliceLess(d2: nat, d: nat, k: nat)
    requires d2 < d
    ensures d2 * k + k <= d * k
  {
    var e := d - d2 - 1;
    assert d * k == d2 * k + k + e * k && e * k >= 0;
  }

  lemma NearerShortens(s: Sys, w1: World, s2: Sys, i: nat, t: Ptr)
    requires Waits(s.w, i, t) && Waits(w1, i, t) && Waits(s2.w, i, t) && Nearer(w1, s2.w, i, t)
    requires w1.rings == s.w.rings && (Ticks(w1) == Ticks(s.w) || Ticks(w1) == 0) && 0 <= Ticks(s.w) < 0x100
    ensures 0 <= Ticks(s2.w) < 0x100 && Measure(s2, i, t) < Measure(s, i, t)
  {
    hide Distance;
    hide Ticks;
    var d, d2 := Distance(s.w.rings[i], t), Distance(s2.w.rings[i], t);
    if d2 < d {
      OneSliceLess(d2, d, i + 2);
    }
  }

  // Slices in bytes

  /** The slice counters are bytes. */
  predicate TicksOk(w: World) {
    forall p :: p in w.threads ==> 0 <= w.threads[p].numTicks < 0x100
  }

  lemma LeavesTicks(w: World, w1: World)
    requires TicksOk(w) && Leaves(w, w1)
    ensures TicksOk(w1) && w1.rings == w.rings && (Ticks(w1) == Ticks(w) || Ticks(w1) == 0) && 0 <= Ticks(w) < 0x100
  {
  }

  lemma AdmitTicks(w: World, p: Ptr)
    requires w.Ok() && TicksOk(w) && p in w.threads
    ensures TicksOk(Admit(w, p))
  {
    hide RingsOk;
    hide Admit;
    AdmitResult(w, p);
  }

  lemma DispatchTicks(w: World, p: Ptr)
    requires w.Ok() && TicksOk(w) && p in w.threads
    ensures TicksOk(Dispatch(w, p))
  {
    ListedNotNull(w.rings, w.threads, p);
    hide RingsOk;
    hide Dispatch;
    DispatchResult(w, p);
  }

  lemma TickTicks(w: World)
    requires w.Ok() && TicksOk(w)
    ensures TicksOk(Tick(w))
  {
    hide RingsOk;
  }

  lemma ScheduleTicks(w: World, w2: World)
    requires w.Ok() && TicksOk(w) && Schedule(w) == Ok(w2)
    ensures TicksOk(w2)
  {
    hide RingsOk;
    hide Select;
    hide Admit;
    hide Dispatch;
    hide TicksOk;
    TickTicks(w);
    RingsLength(Tick(w));
    if Select(Tick(w), MAXPRIORITY).Some? {
      AdmitTicks(Tick(w), Select(Tick(w), MAXPRIORITY).value);
      DispatchTicks(Admit(Tick(w), Select(Tick(w), MAXPRIORITY).value), Select(Tick(w), MAXPRIORITY).value);
    }
  }

  // Runs

  /** A turn of the interpreter loop that puts no thread into a list; the exit of the running one takes it out. */
  predicate QuietTurn(s: Sys, L: set<Obj>, op: Op, s2: Sys) {
    StepsTo(s, L, op, s2) && Quiet(op)
  }

  /** Such a turn after which no thread above level i can be chosen. */
  predicate QuietStep(s: Sys, L: set<Obj>, op: Op, s2: Sys, i: nat) {
    QuietTurn(s, L, op, s2) && NoneAbove(Exec(s, op).s.w, i)
  }

  /** t waits for its turn in level i, in a state from which the wait can only get shorter. */
  predicate InLine(w: World, i: nat, t: Ptr) {
    Waits(w, i, t) && CursorFits(w, i) && TicksOk(w)
  }

  lemma TurnShortens(s: Sys, L: set<Obj>, op: Op, s2: Sys, i: nat, t: Ptr)
    requires Inv(s, L) && QuietStep(s, L, op, s2, i) && !IsExit(s, op) && InLine(s.w, i, t)
    ensures Inv(s2, L) && s2.w.threads.Keys == s.w.threads.Keys
    ensures s2.w.current == t || (InLine(s2.w, i, t) && Measure(s2, i, t) < Measure(s, i, t))
  {
    hide RingsOk;
    hide Inv;
    hide InvWith;
    hide Exec;
    hide Schedule;
    hide Measure;
    hide Distance;
    hide Leaves;
    hide Waits;
    hide CursorFits;
    hide NoneAbove;
    hide Nearer;
    hide TicksOk;
    var owner := InvOk(s, L);
    var w1 := Exec(s, op).s.w;
    ExecKeeps(s, L, owner, op);
    StepKeeps(s, L, owner, op);
    QuietLeaves(s, L, owner, op);
    LeavesMeans(s.w, w1);
    LeavesTicks(s.w, w1);
    LeavesKeeps(s.w, w1, i, t);
    ScheduleNearer(w1, s2.w, i, t);
    ScheduleTicks(w1, s2.w);
    ScheduleKeepsThreads(w1);
    if s2.w.current != t {
      NearerShortens(s, w1, s2, i, t);
    }
  }

  lemma LeavesMeans(w: World, w1: World)
    requires Leaves(w, w1)
    ensures KeepsLists(w, w1) && w1.threads.Keys == w.threads.Keys
  {
  }

  /** The exit of the running thread: t stays where it is, or is made the running thread. */
  lemma ExitWaits(w: World, i: nat, t: Ptr)
    requires w.Ok() && InLine(w, i, t) && |w.threads| > 1
    ensures Delete(w).Ok() && CursorOnRunning(Delete(w)) && TicksOk(Delete(w)) && |Delete(w).threads| < |w.threads|
    ensures Delete(w).current == t || Waits(Delete(w), i, t)
    ensures t in Delete(w).threads && Delete(w).threads[t] == w.threads[t]
  {
    hide RingsOk;
    hide Delete;
    DeleteKeepsOk(w);
    var w1 := Delete(w);
    RingsLength(w1);
    ListedNotNull(w1.rings, w1.threads, w1.current);
    ListedNotNull(w1.rings, w1.threads, t);
    assert |(w.threads - {w.current}).Keys| == |w.threads.Keys - {w.current}| == |w.threads.Keys| - 1;
  }

  /** If it is the turn of t, the scheduler leaves it the turn or puts it back into line. */
  lemma TurnOrLine(w: World, w2: World, i: nat, t: Ptr)
    requires w.Ok() && t in w.threads && w.threads[t].priority == i + 1 && w.threads[t].state == NotBlocked
    requires w.current == t && NoneAbove(w, i) && Schedule(w) == Ok(w2)
    ensures w2.current == t || (Waits(w2, i, t) && CursorFits(w2, i))
  {
    hide RingsOk;
    hide Switch;
    hide Select;
    if w2.current != t {
      var w1 := Tick(w);
      TickLeaves(w);
      assert Switch(w1) == Ok(w2);
      hide Tick;
      SwitchAway(w1, w2, i, t);
    }
  }

  lemma SwitchAway(w: World, w2: World, i: nat, t: Ptr)
    requires w.Ok() && t in w.threads && w.threads[t].priority == i + 1 && w.threads[t].state == NotBlocked
    requires w.current == t && NoneAbove(w, i) && Switch(w) == Ok(w2) && w2.current != t
    ensures Waits(w2, i, t) && CursorFits(w2, i)
  {
    hide RingsOk;
    hide Select;
    hide Admit;
    hide Dispatch;
    hide Waits;
    hide CursorFits;
    var p := ChosenLevel(w, i, t);
    AdmitResult(w, p);
    DispatchKeepsOk(Admit(w, p), p);
    AwayResult(Admit(w, p), p, i, t);
  }

  lemma ChosenLevel(w: World, i: nat, t: Ptr) returns (p: Ptr)
    requires w.Ok() && NoneAbove(w, i) && t in w.threads && w.threads[t].priority == i + 1
    requires w.threads[t].state == NotBlocked
    ensures |w.rings| == MAXPRIORITY && Select(w, MAXPRIORITY) == Some(p) && p in w.threads
    ensures w.threads[p].priority == i + 1
  {
    RingsLength(w);
    ChoosesHighest(w);
    hide RingsOk;
    hide Select;
    assert Eligible(w.threads[t], w.blocked);
    p := Select(w, MAXPRIORITY).value;
    assert Eligible(w.threads[p], w.blocked);
  }

  lemma AwayResult(w: World, p: Ptr, i: nat, t: Ptr)
    requires w.Ok() && w.current == t && p in w.threads && p != t
    requires w.threads[p].priority == w.threads[t].priority == i + 1 && w.threads[t].state == NotBlocked
    ensures Waits(Dispatch(w, p), i, t) && CursorFits(Dispatch(w, p), i)
  {
    RingsLength(w);
    ListedNotNull(w.rings, w.threads, t);
    hide RingsOk;
    hide Dispatch;
    DispatchResult(w, p);
    DispatchKeepsOk(w, p);
    CursorTurns(w, p, i);
    RingsLength(Dispatch(w, p));
    ListedNotNull(Dispatch(w, p).rings, Dispatch(w, p).threads, t);
  }

  lemma ExitShortens(s: Sys, L: set<Obj>, op: Op, s2: Sys, i: nat, t: Ptr)
    requires Inv(s, L) && QuietStep(s, L, op, s2, i) && IsExit(s, op) && InLine(s.w, i, t)
    ensures Inv(s2, L) && |s2.w.threads| < |s.w.threads|
    ensures s2.w.current == t || InLine(s2.w, i, t)
  {
    hide RingsOk;
    hide Inv;
    hide InvWith;
    hide Schedule;
    hide Delete;
    hide Waits;
    hide CursorFits;
    hide CursorOnRunning;
    hide NoneAbove;
    hide Nearer;
    hide TicksOk;
    var owner := InvOk(s, L);
    StepKeeps(s, L, owner, op);
    TwoThreads(s.w, i, t);
    ExitThreads(s, L, owner);
    hide ExecReturn;
    var w1 := Delete(s.w);
    assert Exec(s, op).s.w == w1 && Schedule(w1) == Ok(s2.w);
    ExitWaits(s.w, i, t);
    ScheduleTicks(w1, s2.w);
    ScheduleKeepsThreads(w1);
    if w1.current == t {
      WaitsMeans(s.w, i, t);
      TurnOrLine(w1, s2.w, i, t);
    } else {
      OnRunningFits(w1, i, t);
      ScheduleNearer(w1, s2.w, i, t);
    }
  }

  lemma WaitsMeans(w: World, i: nat, t: Ptr)
    requires Waits(w, i, t)
    ensures t in w.threads && w.threads[t].priority == i + 1 && w.threads[t].state == NotBlocked
  {
  }

  lemma OnRunningFits(w: World, i: nat, t: Ptr)
    requires Waits(w, i, t) && CursorOnRunning(w)
    ensures CursorFits(w, i)
  {
  }

  lemma TwoThreads(w: World, i: nat, t: Ptr)
    requires w.Ok() && Waits(w, i, t)
    ensures |w.threads| > 1
  {
    hide RingsOk;
    if |w.threads| == 1 {
      OnlyMe(w.threads, w.current, t);
    }
    assert |w.threads.Keys| > 0;
  }

  /** The most that one round through a list of at most n threads can take. */
  function Round(n: nat, i: nat): nat {
    n * (i + 2) + 0x100
  }

  lemma MeasureBelowRound(s: Sys, i: nat, t: Ptr, n: nat)
    requires s.w.Ok() && InLine(s.w, i, t) && |s.w.threads| <= n
    ensures 0 <= Measure(s, i, t) < Round(n, i)
  {
    var r := s.w.rings[i];
    RingInThreads(s.w, i);
    hide RingsOk;
    hide Distance;
    RingFits(r, s.w.threads);
    DistanceInside(r, t);
    OneSliceLess(Distance(r, t), n, i + 2);
    OneMore(Distance(r, t), i + 2);
  }

  lemma RingInThreads(w: World, i: nat)
    requires w.Ok() && i < MAXPRIORITY
    ensures |w.rings| == MAXPRIORITY && NoDuplicates(w.rings[i]) && forall p :: p in w.rings[i] ==> p in w.threads
  {
  }

  lemma DistanceInside(r: seq<Ptr>, t: Ptr)
    requires t in r
    ensures Distance(r, t) < |r|
  {
  }

  lemma RingFits(r: seq<Ptr>, threads: map<Ptr, Thread>)
    requires NoDuplicates(r) && forall p :: p in r ==> p in threads
    ensures |r| <= |threads|
  {
    var members := set p | p in r;
    SizeOfMembers(r, members);
    SubsetSize(members, threads.Keys);
  }

  /** A run of quiet bytecodes while no thread above level i can run. */
  predicate QuietRun(ss: seq<Sys>, L: set<Obj>, ops: seq<Op>, i: nat) {
    |ss| == |ops| + 1 && forall k :: 0 <= k < |ops| ==> QuietStep(ss[k], L, ops[k], ss[k + 1], i)
  }

  /** How many threads exit among the first n bytecodes. */
  function Exits(ss: seq<Sys>, ops: seq<Op>, n: nat): nat
    requires n <= |ops| < |ss|
  {
    if n == 0 then 0 else Exits(ss, ops, n - 1) + if IsExit(ss[n - 1], ops[n - 1]) then 1 else 0
  }

  lemma {:induction false} ExitsGrow(ss: seq<Sys>, ops: seq<Op>, n: nat, k: nat)
    requires n <= k <= |ops| < |ss|
    ensures Exits(ss, ops, n) <= Exits(ss, ops, k)
  {
    if n < k {
      ExitsGrow(ss, ops, n, k - 1);
    }
  }

  lemma {:induction false} WaitRunsOut(ss: seq<Sys>, L: set<Obj>, ops: seq<Op>, i: nat, t: Ptr, n: nat)
    requires QuietRun(ss, L, ops, i) && n <= |ops| && Inv(ss[0], L) && InLine(ss[0].w, i, t)
    requires forall k :: 0 <= k <= n ==> ss[k].w.current != t
    ensures Inv(ss[n], L) && InLine(ss[n].w, i, t) && |ss[n].w.threads| <= |ss[0].w.threads|
    ensures Measure(ss[n], i, t) <= Measure(ss[0], i, t) - n + Exits(ss, ops, n) * Round(|ss[0].w.threads|, i)
  {
    hide QuietStep;
    hide Inv;
    hide InLine;
    hide Measure;
    hide Round;
    hide IsExit;
    if n > 0 {
      WaitRunsOut(ss, L, ops, i, t, n - 1);
      var s, s2, size := ss[n - 1], ss[n], |ss[0].w.threads|;
      var owner := InvOk(s, L);
      MeasureBelowRound(s, i, t, size);
      OneMore(Exits(ss, ops, n - 1), Round(size, i));
      if IsExit(s, ops[n - 1]) {
        ExitShortens(s, L, ops[n - 1], s2, i, t);
        var owner2 := InvOk(s2, L);
        MeasureBelowRound(s2, i, t, size);
      } else {
        TurnShortens(s, L, ops[n - 1], s2, i, t);
        assert |s2.w.threads.Keys| == |s.w.threads.Keys|;
      }
    }
  }

  lemma OneMore(a: nat, k: nat)
    ensures 0 <= a * k && (a + 1) * k == a * k + k
  {
  }

  lemma MoreTimes(a: nat, b: nat, k: nat)
    requires a <= b
    ensures a * k <= b * k
  {
    assert (b - a) * k >= 0 && b * k == a * k + (b - a) * k;
  }

  /** The longest wait: what is left of this round, and a round for every exit. */
  function Bound(ss: seq<Sys>, ops: seq<Op>, i: nat, t: Ptr): int
    requires |ss| == |ops| + 1 && i < |ss[0].w.rings| && t in ss[0].w.rings[i]
  {
    Measure(ss[0], i, t) + Exits(ss, ops, |ops|) * Round(|ss[0].w.threads|, i)
  }

  /** Fairness: in a run of quiet bytecodes a thread that can run, with nobody above it that could, gets its turn
      after at most the rest of the slice that is running, one slice of level + 1 ticks and a selection for every
      member of its list that is tried before it, and one round for every thread that exits. */
  lemma GetsItsTurn(ss: seq<Sys>, L: set<Obj>, ops: seq<Op>, i: nat, t: Ptr)
    requires QuietRun(ss, L, ops, i) && Inv(ss[0], L) && InLine(ss[0].w, i, t)
    requires |ops| > Bound(ss, ops, i, t)
    ensures exists k :: 0 < k <= Bound(ss, ops, i, t) + 1 && ss[k].w.current == t
  {
    hide QuietStep;
    hide Inv;
    hide Measure;
    hide Round;
    hide CursorFits;
    hide TicksOk;
    hide Exits;
    hide RingsOk;
    hide InvWith;
    var size := |ss[0].w.threads|;
    var owner := InvOk(ss[0], L);
    MeasureBelowRound(ss[0], i, t, size);
    OneMore(Exits(ss, ops, |ops|), Round(size, i));
    var n := Bound(ss, ops, i, t) + 1;
    if forall k :: 0 <= k <= n ==> ss[k].w.current != t {
      WaitRunsOut(ss, L, ops, i, t, n);
      ExitsGrow(ss, ops, n, |ops|);
      MoreTimes(Exits(ss, ops, n), Exits(ss, ops, |ops|), Round(size, i));
      var owner2 := InvOk(ss[n], L);
      MeasureBelowRound(ss[n], i, t, size);
      assert false;
    }
    var k :| 0 <= k <= n && ss[k].w.current == t;
    assert k != 0;
  }

  /** No thread has a priority above level i. */
  predicate IsTop(w: World, i: nat) {
    forall q :: q in w.threads ==> w.threads[q].priority <= i + 1
  }

  lemma LeavesTop(w: World, w1: World, i: nat)
    requires IsTop(w, i) && KeepsLists(w, w1)
    ensures IsTop(w1, i) && NoneAbove(w1, i)
  {
  }

  lemma AdmitLeavesTop(w: World, p: Ptr, i: nat)
    requires w.Ok() && IsTop(w, i) && p in w.threads
    ensures IsTop(Dispatch(Admit(w, p), p), i)
  {
    hide RingsOk;
    hide Admit;
    hide Dispatch;
    AdmitResult(w, p);
    DispatchResult(Admit(w, p), p);
  }

  lemma SwitchLeavesTop(w: World, i: nat)
    requires w.Ok() && IsTop(w, i) && Switch(w).Ok?
    ensures IsTop(Switch(w).world, i)
  {
    RingsLength(w);
    hide RingsOk;
    hide Select;
    hide Admit;
    hide Dispatch;
    hide IsTop;
    AdmitLeavesTop(w, Select(w, MAXPRIORITY).value, i);
  }

  lemma ScheduleLeavesTop(w: World, w2: World, i: nat)
    requires w.Ok() && IsTop(w, i) && Schedule(w) == Ok(w2)
    ensures IsTop(w2, i)
  {
    hide RingsOk;
    hide Switch;
    TickLeaves(w);
    LeavesTop(w, Tick(w), i);
    hide IsTop;
    if Switch(Tick(w)).Ok? {
      SwitchLeavesTop(Tick(w), i);
    }
  }

  lemma DeleteLeavesTop(w: World, i: nat)
    requires w.Ok() && |w.threads| > 1 && IsTop(w, i)
    ensures Delete(w).Ok() && IsTop(Delete(w), i) && NoneAbove(Delete(w), i)
  {
    hide RingsOk;
    hide Delete;
    DeleteKeepsOk(w);
  }

  lemma ExecLeavesTop(s: Sys, L: set<Obj>, owner: map<Obj, Ptr>, op: Op, i: nat)
    requires s.w.Ok() && s.frames.Keys == s.w.threads.Keys && s.frames[s.w.current] != [] && Legal(s, L, op)
    requires Quiet(op) && Exec(s, op).Next? && IsTop(s.w, i) && Ready(s, L, owner)
    ensures IsTop(Exec(s, op).s.w, i) && NoneAbove(Exec(s, op).s.w, i)
  {
    hide RingsOk;
    hide InvWith;
    hide IsTop;
    hide Leaves;
    hide NoneAbove;
    if IsExit(s, op) {
      OutermostIsPlain(s, L, owner);
      if |s.w.threads| > 1 {
        hide Delete;
        ExitThreads(s, L, owner);
        hide ExecReturn;
        DeleteLeavesTop(s.w, i);
      }
    } else {
      hide Exec;
      QuietLeaves(s, L, owner, op);
      LeavesMeans(s.w, Exec(s, op).s.w);
      LeavesTop(s.w, Exec(s, op).s.w, i);
    }
  }

  lemma TopLevelStep(s: Sys, L: set<Obj>, op: Op, s2: Sys, i: nat)
    requires Inv(s, L) && QuietTurn(s, L, op, s2) && IsTop(s.w, i)
    ensures Inv(s2, L) && IsTop(s2.w, i) && QuietStep(s, L, op, s2, i)
  {
    hide RingsOk;
    hide Inv;
    hide InvWith;
    hide Exec;
    hide Schedule;
    hide IsTop;
    hide NoneAbove;
    var owner := InvOk(s, L);
    ExecKeeps(s, L, owner, op);
    StepKeeps(s, L, owner, op);
    ExecLeavesTop(s, L, owner, op, i);
    ScheduleLeavesTop(Exec(s, op).s.w, s2.w, i);
  }

  /** At the top level nobody is above: there the condition on the run holds by itself. */
  lemma {:induction false} TopLevelRun(ss: seq<Sys>, L: set<Obj>, ops: seq<Op>, i: nat, n: nat)
    requires |ss| == |ops| + 1 && Inv(ss[0], L) && IsTop(ss[0].w, i) && n <= |ops|
    requires forall k :: 0 <= k < |ops| ==> QuietTurn(ss[k], L, ops[k], ss[k + 1])
    ensures Inv(ss[n], L) && IsTop(ss[n].w, i)
    ensures forall k :: 0 <= k < n ==> QuietStep(ss[k], L, ops[k], ss[k + 1], i)
  {
    hide Inv;
    hide IsTop;
    hide QuietStep;
    hide QuietTurn;
    if n > 0 {
      TopLevelRun(ss, L, ops, i, n - 1);
      TopLevelStep(ss[n - 1], L, ops[n - 1], ss[n], i);
    }
  }

  // Where the cursor can be

  lemma CreateKeepsCursor(w: World, p: Ptr, obj: Obj, priority: int)
    requires w.Ok() && CursorOnRunning(w) && p !in w.threads && 1 <= priority <= MAXPRIORITY
    ensures Create(w, p, obj, priority).Ok? ==> CursorOnRunning(Create(w, p, obj, priority).world)
  {
    hide RingsOk;
  }

  lemma AdmitKeepsCursor(w: World, p: Ptr)
    requires w.Ok() && CursorOnRunning(w) && p in w.threads
    ensures CursorOnRunning(Dispatch(Admit(w, p), p))
  {
    hide RingsOk;
    hide Admit;
    hide Dispatch;
    AdmitResult(w, p);
    DispatchResult(Admit(w, p), p);
  }

  lemma SwitchKeepsCursor(w: World)
    requires w.Ok() && CursorOnRunning(w)
    ensures Switch(w).Ok? ==> CursorOnRunning(Switch(w).world)
  {
    RingsLength(w);
    hide RingsOk;
    hide Select;
    hide Admit;
    hide Dispatch;
    hide CursorOnRunning;
    if Switch(w).Ok? {
      AdmitKeepsCursor(w, Select(w, MAXPRIORITY).value);
    }
  }

  lemma ScheduleKeepsCursor(w: World)
    requires w.Ok() && CursorOnRunning(w)
    ensures Schedule(w).Ok? ==> CursorOnRunning(Schedule(w).world)
  {
    hide RingsOk;
    hide Switch;
    hide CursorOnRunning;
    TickLeaves(w);
    LeavesKeeps(w, Tick(w), 0, NULL);
    SwitchKeepsCursor(Tick(w));
  }

  lemma ExecKeepsCursor(s: Sys, L: set<Obj>, owner: map<Obj, Ptr>, op: Op)
    requires s.w.Ok() && s.frames.Keys == s.w.threads.Keys && s.frames[s.w.current] != [] && Legal(s, L, op)
    requires !op.ChangePriority? && CursorOnRunning(s.w) && Ready(s, L, owner)
    ensures Exec(s, op).Next? ==> CursorOnRunning(Exec(s, op).s.w)
  {
    hide RingsOk;
    hide InvWith;
    TopIsHeld(s, L, owner);
    if Quiet(op) && !IsExit(s, op) {
      QuietLeaves(s, L, owner, op);
      hide Exec;
      if Exec(s, op).Next? {
        LeavesKeeps(s.w, Exec(s, op).s.w, 0, NULL);
      }
    } else if op.Start? {
      hide Create;
      CreateKeepsCursor(s.w, op.p, op.obj, op.priority);
    } else if |s.w.threads| > 1 {
      hide Delete;
      ExitThreads(s, L, owner);
      DeleteKeepsOk(s.w);
      RingsLength(Delete(s.w));
      ListedNotNull(Delete(s.w).rings, Delete(s.w).threads, Delete(s.w).current);
    } else {
      OutermostIsPlain(s, L, owner);
    }
  }

  /** As long as no priority is changed, the cursor of the running thread's level is on the running thread. */
  lemma {:induction false} RunKeepsCursor(s: Sys, L: set<Obj>, ops: seq<Op>, s2: Sys)
    requires Inv(s, L) && Reaches(s, L, ops, s2) && s.w.Ok() && (Running(s) || LoneBlocked(s)) && CursorOnRunning(s.w)
    requires forall op :: op in ops ==> !op.ChangePriority?
    ensures CursorOnRunning(s2.w)
    decreases |ops|
  {
    hide RingsOk;
    hide InvWith;
    hide Exec;
    hide Schedule;
    hide CursorOnRunning;
    if ops != [] {
      var owner := InvOk(s, L);
      StepKeeps(s, L, owner, ops[0]);
      ExecKeeps(s, L, owner, ops[0]);
      ExecKeepsCursor(s, L, owner, ops[0]);
      ScheduleKeepsCursor(Exec(s, ops[0]).s.w);
      RunKeepsCursor(Step(s, ops[0]).s, L, ops[1..], s2);
    }
  }

  lemma InitialCursor(main: Ptr)
    ensures CursorOnRunning(InitialWorld(main))
  {
  }

  lemma CursorFitsWithoutChange(main: Ptr, L: set<Obj>, ops: seq<Op>, s: Sys, i: nat)
    requires main != NULL && i < MAXPRIORITY && Reaches(Initial(main), L, ops, s)
    requires forall op :: op in ops ==> !op.ChangePriority?
    ensures CursorFits(s.w, i)
  {
    hide RingsOk;
    hide InvWith;
    hide Inv;
    hide Reaches;
    hide InitialWorld;
    InitialReady(main, L);
    HasInv(Initial(main), L, map[]);
    InitialCursor(main);
    hide Initial;
    RunKeepsCursor(Initial(main), L, ops, s);
  }

  lemma MoveTicks(w: World, w1: World, p: Ptr, newPrio: int)
    requires p in w.threads && w.current in w.threads && |w.rings| == MAXPRIORITY && 1 <= newPrio <= MAXPRIORITY
    requires w1 == Insert(w.Set(p, w.threads[p].(priority := newPrio)), p) && TicksOk(w)
    ensures TicksOk(w1)
  {
    hide RingsOk;
    hide InsertRing;
  }

  lemma PriorityTicks(w: World, obj: Obj, priority: int)
    requires w.Ok() && 1 <= priority <= MAXPRIORITY && TicksOk(w)
    ensures var r := ThreadSpec.SetPriority(w, obj, priority); r.Ok? ==> TicksOk(r.world)
  {
    hide RingsOk;
    hide RemoveRing;
    hide InsertRing;
    hide FindThread;
    FindThreadFound(w, obj);
    if FindThread(w, obj).Some? {
      var (w1, p) := FindThread(w, obj).value;
      ListedNotNull(w1.rings, w1.threads, p);
      if priority != w.threads[p].priority {
        MoveOk(w1, p, priority);
        MoveTicks(Remove(w1, p), ThreadSpec.SetPriority(w, obj, priority).world, p, priority);
      }
    }
  }

  lemma CreateTicks(w: World, p: Ptr, obj: Obj, priority: int)
    requires w.Ok() && p !in w.threads && 1 <= priority <= MAXPRIORITY && TicksOk(w)
    ensures Create(w, p, obj, priority).Ok? ==> TicksOk(Create(w, p, obj, priority).world)
  {
    hide RingsOk;
    hide InsertRing;
  }

  lemma DeleteTicks(w: World)
    requires w.Ok() && |w.threads| > 1 && TicksOk(w)
    ensures TicksOk(Delete(w))
  {
    hide RingsOk;
    hide Delete;
    DeleteKeepsOk(w);
  }

  lemma ExecTicks(s: Sys, L: set<Obj>, owner: map<Obj, Ptr>, op: Op)
    requires s.w.Ok() && s.frames.Keys == s.w.threads.Keys && s.frames[s.w.current] != [] && Legal(s, L, op)
    requires TicksOk(s.w) && Ready(s, L, owner)
    ensures Exec(s, op).Next? ==> TicksOk(Exec(s, op).s.w)
  {
    hide RingsOk;
    hide InvWith;
    hide TicksOk;
    if op.Start? {
      hide Create;
      CreateTicks(s.w, op.p, op.obj, op.priority);
    } else if op.ChangePriority? {
      hide ThreadSpec.SetPriority;
      PriorityTicks(s.w, op.obj, op.priority);
    } else if IsExit(s, op) {
      OutermostIsPlain(s, L, owner);
      if |s.w.threads| > 1 {
        hide Delete;
        ExitThreads(s, L, owner);
        hide ExecReturn;
        DeleteTicks(s.w);
      }
    } else {
      hide Exec;
      hide Leaves;
      QuietLeaves(s, L, owner, op);
      if Exec(s, op).Next? {
        LeavesTicks(s.w, Exec(s, op).s.w);
      }
    }
  }

  lemma {:induction false} RunKeepsTicks(s: Sys, L: set<Obj>, ops: seq<Op>, s2: Sys)
    requires Inv(s, L) && Reaches(s, L, ops, s2) && s.w.Ok() && (Running(s) || LoneBlocked(s)) && TicksOk(s.w)
    ensures TicksOk(s2.w)
    decreases |ops|
  {
    hide RingsOk;
    hide InvWith;
    hide Exec;
    hide Schedule;
    hide TicksOk;
    if ops != [] {
      var owner := InvOk(s, L);
      StepKeeps(s, L, owner, ops[0]);
      ExecKeeps(s, L, owner, ops[0]);
      ExecTicks(s, L, owner, ops[0]);
      ScheduleTicks(Exec(s, ops[0]).s.w, Step(s, ops[0]).s.w);
      RunKeepsTicks(Step(s, ops[0]).s, L, ops[1..], s2);
    }
  }

  lemma InitialTicks(main: Ptr)
    ensures TicksOk(InitialWorld(main))
  {
  }

  /** In every reachable state the slice counters are bytes. */
  lemma ReachableTicks(main: Ptr, L: set<Obj>, s: Sys)
    requires Reachable(main, L, s)
    ensures TicksOk(s.w)
  {
    hide RingsOk;
    hide InvWith;
    hide Inv;
    hide Reaches;
    hide InitialWorld;
    InitialReady(main, L);
    HasInv(Initial(main), L, map[]);
    InitialTicks(main);
    var ops :| Reaches(Initial(main), L, ops, s);
    hide Initial;
    RunKeepsTicks(Initial(main), L, ops, s);
  }

  // A thread that waits forever

  /** The running thread would be chosen again, although its level's cursor is on another thread. */
  predicate KeepsItself(w: World, i: nat) {
    && i < |w.rings| && w.rings[i] != [] && w.rings[i][0] != w.current
    && FirstEligible(w.threads, w.blocked, Trial(w.rings[i])) == Some(w.current)
  }

  /** The worlds differ in slices only. */
  predicate SameButSlices(w: World, w2: World) {
    && w2.rings == w.rings && w2.current == w.current && w2.blocked == w.blocked && w2.threads.Keys == w.threads.Keys
    && forall p :: p in w.threads ==> w2.threads[p] == w.threads[p].(numTicks := w2.threads[p].numTicks)
  }

  lemma {:induction false} SameChoice(w: World, w2: World, order: seq<Ptr>)
    requires SameButSlices(w, w2)
    ensures FirstEligible(w2.threads, w2.blocked, order) == FirstEligible(w.threads, w.blocked, order)
  {
    if order != [] {
      SameChoice(w, w2, order[1..]);
    }
  }

  lemma SlicesDoNotMatter(w: World, w2: World, i: nat, t: Ptr)
    requires SameButSlices(w, w2)
    ensures Waits(w2, i, t) <==> Waits(w, i, t)
    ensures NoneAbove(w2, i) <==> NoneAbove(w, i)
    ensures KeepsItself(w2, i) <==> KeepsItself(w, i)
  {
    hide FirstEligible;
    hide Trial;
    if i < |w.rings| {
      SameChoice(w, w2, Trial(w.rings[i]));
    }
  }

  /** The world in which the scheduler chooses after the running thread has yielded. */
  function Yielded(w: World): World
    requires w.Ok()
  {
    w.Set(w.current, w.threads[w.current].(numTicks := 0xFF))
  }

  lemma YieldAndTick(w: World)
    requires w.Ok()
    ensures Yielded(w).Ok() && SameButSlices(w, Yielded(w))
    ensures Yield(w).Ok() && Yield(w).current == w.current && Yield(w).threads[w.current].numTicks == 0
    ensures Yield(w).threads.Keys == w.threads.Keys && Tick(Yield(w)) == Yielded(w)
  {
    hide RingsOk;
    var me := w.current;
    SetKeepsOk(w, me, w.threads[me].(numTicks := 0));
    SetKeepsOk(w, me, w.threads[me].(numTicks := 0xFF));
    assert Tick(Yield(w)).threads == Yielded(w).threads;
  }

  lemma YieldSwitches(s: Sys, L: set<Obj>, s2: Sys, t: Ptr)
    requires StepsTo(s, L, YieldOp, s2) && t in s.w.threads && t != s.w.current
    ensures Yielded(s.w).Ok() && SameButSlices(s.w, Yielded(s.w)) && Switch(Yielded(s.w)) == Ok(s2.w)
    ensures s2 == s.(w := s2.w)
  {
    hide RingsOk;
    hide Switch;
    hide Tick;
    hide Yield;
    hide Yielded;
    hide SameButSlices;
    if |s.w.threads| == 1 {
      OnlyMe(s.w.threads, s.w.current, t);
    }
    YieldAndTick(s.w);
    assert |Yield(s.w).threads.Keys| == |s.w.threads.Keys|;
    assert Schedule(Yield(s.w)) == Switch(Yielded(s.w));
    hide Schedule;
  }

  lemma StandsStillIff(w: World, i: nat)
    requires SelectionAt(w, i)
    ensures StandsStill(w, i) <==> KeepsItself(w, i)
  {
    SelectLevel(w, i, MAXPRIORITY);
    hide RingsOk;
    hide Select;
    hide FirstEligible;
  }

  /** A thread that keeps itself and yields gets a new slice, and nothing else changes. */
  lemma StandingStill(w: World, i: nat)
    requires SelectionAt(w, i) && StandsStill(w, i) && w.threads[w.current].state == NotBlocked
    ensures Switch(w).Ok? && SameButSlices(w, Switch(w).world)
    ensures Switch(w).world == w.Set(w.current, w.threads[w.current].(numTicks := w.threads[w.current].priority))
  {
    hide RingsOk;
    hide Select;
  }

  lemma SwitchKeepsNoneAbove(w: World, i: nat)
    requires SelectionAt(w, i) && NoneAbove(w, i)
    ensures Switch(w).Ok? && NoneAbove(Switch(w).world, i)
  {
    hide RingsOk;
    hide Select;
    hide Admit;
    hide Dispatch;
    var p := Select(w, MAXPRIORITY).value;
    AdmitResult(w, p);
    DispatchResult(Admit(w, p), p);
  }

  /** A yield while t waits, with nobody above: nothing happens, or t gets its turn or comes nearer to it. */
  lemma YieldStep(s: Sys, L: set<Obj>, s2: Sys, i: nat, t: Ptr)
    requires StepsTo(s, L, YieldOp, s2) && Waits(s.w, i, t) && NoneAbove(s.w, i)
    ensures NoneAbove(s2.w, i)
    ensures if KeepsItself(s.w, i) then SameButSlices(s.w, s2.w)
      else s2.w.current == t ||
           (Waits(s2.w, i, t) && CursorFits(s2.w, i) && Distance(s2.w.rings[i], t) < Distance(s.w.rings[i], t))
  {
    hide RingsOk;
    hide Select;
    hide Switch;
    hide Step;
    hide Distance;
    hide KeepsItself;
    hide SelectionAt;
    hide StandsStill;
    hide NoneAbove;
    YieldSwitches(s, L, s2, t);
    var w := Yielded(s.w);
    SlicesDoNotMatter(s.w, w, i, t);
    SelectedLevel(w, i, t);
    StandsStillIff(w, i);
    SwitchKeepsNoneAbove(w, i);
    if KeepsItself(s.w, i) {
      assert w.threads[w.current].state == NotBlocked;
      StandingStill(w, i);
    } else {
      SwitchNearer(w, i, t);
    }
  }

  /** A run in which whoever runs yields. */
  predicate Yielding(ss: seq<Sys>, L: set<Obj>) {
    ss != [] && forall k :: 0 <= k < |ss| - 1 ==> StepsTo(ss[k], L, YieldOp, ss[k + 1])
  }

  lemma {:induction false} KeepsYielding(ss: seq<Sys>, L: set<Obj>, i: nat, t: Ptr, n: nat)
    requires Yielding(ss, L) && n < |ss| && Waits(ss[0].w, i, t) && NoneAbove(ss[0].w, i) && KeepsItself(ss[0].w, i)
    ensures SameButSlices(ss[0].w, ss[n].w)
  {
    hide StepsTo;
    hide Waits;
    hide NoneAbove;
    hide KeepsItself;
    if n > 0 {
      KeepsYielding(ss, L, i, t, n - 1);
      SlicesDoNotMatter(ss[0].w, ss[n - 1].w, i, t);
      YieldStep(ss[n - 1], L, ss[n], i, t);
    }
  }

  lemma FitsMeansTurns(w: World, i: nat)
    requires CursorFits(w, i) && RingsOk(w.rings, w.threads)
    ensures !KeepsItself(w, i)
  {
    if KeepsItself(w, i) {
      TrialMembers(w.rings[i], w.current);
    }
  }

  lemma {:induction false} TurnsByYielding(ss: seq<Sys>, L: set<Obj>, i: nat, t: Ptr)
    requires Yielding(ss, L) && Waits(ss[0].w, i, t) && NoneAbove(ss[0].w, i) && !KeepsItself(ss[0].w, i)
    requires |ss| > Distance(ss[0].w.rings[i], t) + 1
    ensures exists k :: 0 <= k < |ss| && ss[k].w.current == t
    decreases |ss|
  {
    hide StepsTo;
    hide RingsOk;
    hide Distance;
    hide NoneAbove;
    hide KeepsItself;
    assert StepsTo(ss[0], L, YieldOp, ss[1]);
    YieldStep(ss[0], L, ss[1], i, t);
    if ss[1].w.current != t {
      assert StepsTo(ss[1], L, YieldOp, ss[2]);
      FitsMeansTurns(ss[1].w, i) by { WorldOk(ss[1], L, ss[2]); }
      TurnsByYielding(ss[1..], L, i, t);
      var k :| 0 <= k < |ss[1..]| && ss[1..][k].w.current == t;
      assert ss[k + 1].w.current == t;
    }
  }

  lemma WorldOk(s: Sys, L: set<Obj>, s2: Sys)
    requires StepsTo(s, L, YieldOp, s2)
    ensures RingsOk(s.w.rings, s.w.threads)
  {
    hide RingsOk;
    hide Step;
  }

  /** A thread that can run, with nobody above it that could, gets a turn by the yields of the others exactly if the
      running thread does not keep itself: if its level's cursor is on it, or some other thread is tried before it. */
  lemma YieldingIff(ss: seq<Sys>, L: set<Obj>, i: nat, t: Ptr)
    requires Yielding(ss, L) && Waits(ss[0].w, i, t) && NoneAbove(ss[0].w, i) && |ss| > |ss[0].w.rings[i]|
    ensures (exists k :: 0 <= k < |ss| && ss[k].w.current == t) <==> !KeepsItself(ss[0].w, i)
  {
    hide StepsTo;
    hide NoneAbove;
    hide KeepsItself;
    if KeepsItself(ss[0].w, i) {
      forall k | 0 <= k < |ss| ensures ss[k].w.current != t {
        KeepsYielding(ss, L, i, t, k);
      }
    } else {
      TurnsByYielding(ss, L, i, t);
    }
  }
}
