/** Which thread the scheduler chooses, and for how long. */
module Scheduling {
  import opened LockTables
  import opened ThreadSpec
  import opened ListLemmas
  import opened MonitorProtocol
  import opened MonitorRuns

  // Priority

  lemma TrialMembers(r: seq<Ptr>, p: Ptr)
    ensures p in Trial(r) <==> p in r
    ensures |Trial(r)| == |r|
  {
    if r != [] {
      assert r == [r[0]] + r[1..];
    }
  }

  /** The choice among the levels below i is eligible, and no eligible thread below i has a higher priority. */
  lemma {:induction false} SelectIsHighest(w: World, i: nat)
    requires RingsOk(w.rings, w.threads) && i <= MAXPRIORITY
    ensures Select(w, i).Some? ==>
      var p := Select(w, i).value;
      p in w.threads && Eligible(w.threads[p], w.blocked) && w.threads[p].priority <= i
    ensures forall q :: q in w.threads && w.threads[q].priority <= i && Eligible(w.threads[q], w.blocked) ==>
      Select(w, i).Some? && w.threads[q].priority <= w.threads[Select(w, i).value].priority
  {
    hide Trial;
    hide Eligible;
    hide NoDuplicates;
    if i > 0 {
      SelectIsHighest(w, i - 1);
      var r := w.rings[i - 1];
      var f := FirstEligible(w.threads, w.blocked, Trial(r));
      if f.Some? {
        TrialMembers(r, f.value);
      }
      forall q | q in w.threads && w.threads[q].priority == i && Eligible(w.threads[q], w.blocked) ensures f.Some? {
        TrialMembers(r, q);
      }
    }
  }

  /** scheduler() takes an eligible thread of the highest priority that has one, and gives up only if there is none. */
  lemma ChoosesHighest(w: World)
    requires w.Ok()
    ensures Select(w, MAXPRIORITY).None? <==> forall q :: q in w.threads ==> !Eligible(w.threads[q], w.blocked)
    ensures Select(w, MAXPRIORITY).Some? ==>
      var p := Select(w, MAXPRIORITY).value;
      && Eligible(w.threads[p], w.blocked)
      && forall q :: q in w.threads && Eligible(w.threads[q], w.blocked) ==>
           w.threads[q].priority <= w.threads[p].priority
  {
    SelectIsHighest(w, MAXPRIORITY);
  }

  // Round robin

  /** How many members of the list are tried before t. */
  function Distance(r: seq<Ptr>, t: Ptr): nat
    requires t in r
  {
    if IndexIn(r, t) == 0 then |r| - 1 else IndexIn(r, t) - 1
  }

  /** The member at distance d is the one tried after d others. */
  lemma TrialAt(r: seq<Ptr>, d: nat)
    requires NoDuplicates(r) && d < |r|
    ensures |Trial(r)| == |r| && Trial(r)[d] in r && Distance(r, Trial(r)[d]) == d
  {
    IndexOf(r, if d + 1 == |r| then 0 else d + 1);
  }

  lemma {:induction false} FirstEligibleFirst(threads: map<Ptr, Thread>, blocked: set<Obj>, order: seq<Ptr>, k: nat)
    requires k < |order| && order[k] in threads && Eligible(threads[order[k]], blocked)
    ensures FirstEligible(threads, blocked, order).Some?
    ensures exists j :: 0 <= j <= k && order[j] == FirstEligible(threads, blocked, order).value
  {
    if !(order[0] in threads && Eligible(threads[order[0]], blocked)) {
      FirstEligibleFirst(threads, blocked, order[1..], k - 1);
      var j :| 0 <= j <= k - 1 && order[1..][j] == FirstEligible(threads, blocked, order[1..]).value;
      assert order[j + 1] == order[1..][j];
    }
  }

  /** The thread that a level's search finds is tried no later than any eligible member. */
  lemma ChosenIsNearest(threads: map<Ptr, Thread>, blocked: set<Obj>, r: seq<Ptr>, t: Ptr)
    requires NoDuplicates(r) && t in r && t in threads && Eligible(threads[t], blocked)
    ensures var f := FirstEligible(threads, blocked, Trial(r));
      f.Some? && f.value in r && Distance(r, f.value) <= Distance(r, t)
  {
    var d := Distance(r, t);
    var k := IndexIn(r, t);
    TrialAt(r, d);
    assert Trial(r)[d] == t;
    hide Trial;
    hide Distance;
    FirstEligibleFirst(threads, blocked, Trial(r), d);
    var j :| 0 <= j <= d && Trial(r)[j] == FirstEligible(threads, blocked, Trial(r)).value;
    TrialAt(r, j);
  }

  /** Turning the list to a member that is tried before t brings t nearer. */
  lemma TurningBringsNearer(r: seq<Ptr>, c: Ptr, t: Ptr)
    requires NoDuplicates(r) && t in r && c in r && Distance(r, c) < Distance(r, t)
    ensures var r2 := RotateTo(r, IndexIn(r, c));
      NoDuplicates(r2) && |r2| == |r| && t in r2 && Distance(r2, t) < Distance(r, t)
  {
    var n, k, m := |r|, IndexIn(r, c), IndexIn(r, t);
    var r2 := RotateTo(r, k);
    RotateMembers(r, k);
    var at := if m >= k then m - k else m + n - k;
    assert r2[at] == t;
    IndexOf(r2, at);
  }

  /** A selection made at level i. */
  predicate SelectionAt(w: World, i: nat) {
    && i < MAXPRIORITY == |w.rings| && w.Ok() && Select(w, MAXPRIORITY).Some?
    && w.threads[Select(w, MAXPRIORITY).value].priority == i + 1
  }

  /** The running thread is chosen again although its level's cursor is elsewhere, so that no cursor moves. */
  predicate StandsStill(w: World, i: nat)
    requires SelectionAt(w, i)
  {
    var p := Select(w, MAXPRIORITY).value;
    p == w.current && w.rings[i] != [] && w.rings[i][0] != p
  }

  predicate TurnsAt(w: World, i: nat) {
    SelectionAt(w, i) && !StandsStill(w, i)
  }

  function ListAfter(w: World, i: nat): seq<Ptr>
    requires SelectionAt(w, i)
  {
    var p := Select(w, MAXPRIORITY).value;
    Dispatch(Admit(w, p), p).rings[i]
  }

  lemma {:induction false} SelectLevel(w: World, i: nat, n: nat)
    requires RingsOk(w.rings, w.threads) && i < n <= MAXPRIORITY && Select(w, n).Some?
    requires w.threads[Select(w, n).value].priority == i + 1
    ensures FirstEligible(w.threads, w.blocked, Trial(w.rings[i])) == Select(w, n)
  {
    var f := FirstEligible(w.threads, w.blocked, Trial(w.rings[n - 1]));
    if f.Some? {
      TrialMembers(w.rings[n - 1], f.value);
    } else {
      SelectIsHighest(w, n - 1);
      if i < n - 1 {
        SelectLevel(w, i, n - 1);
      }
    }
  }

  lemma AdmitResult(w: World, p: Ptr)
    requires w.Ok() && p in w.threads
    ensures Admit(w, p).rings == w.rings && Admit(w, p).current == w.current
    ensures Admit(w, p).threads.Keys == w.threads.Keys
    ensures Admit(w, p).threads[p].priority == w.threads[p].priority && w.blocked <= Admit(w, p).blocked
    ensures Admit(w, p).threads[p].numTicks == w.threads[p].numTicks
    ensures forall q :: q in w.threads && q != p ==> Admit(w, p).threads[q] == w.threads[q]
  {
    hide RingsOk;
  }

  lemma DispatchTurns(w: World, i: nat)
    requires SelectionAt(w, i)
    ensures var p := Select(w, MAXPRIORITY).value;
      && p in w.rings[i]
      && ListAfter(w, i) == if StandsStill(w, i) then w.rings[i] else RotateTo(w.rings[i], IndexIn(w.rings[i], p))
  {
    hide RingsOk;
    hide Select;
    hide Admit;
    var p := Select(w, MAXPRIORITY).value;
    ListedNotNull(w.rings, w.threads, p);
    AdmitResult(w, p);
    if w.rings[i][0] == p {
      TurnByNothing(w.rings[i], p);
    }
  }

  lemma TurnByNothing(r: seq<Ptr>, p: Ptr)
    requires r != [] && r[0] == p
    ensures RotateTo(r, IndexIn(r, p)) == r
  {
  }

  /** A selection at its level brings an eligible thread that is not chosen strictly nearer, unless the level's cursor
      is not on the running thread and this thread is chosen again: then everything stays as it is. */
  lemma SelectionProgress(w: World, i: nat, t: Ptr)
    requires SelectionAt(w, i) && t in w.rings[i] && t in w.threads && Eligible(w.threads[t], w.blocked)
    requires Select(w, MAXPRIORITY) != Some(t)
    ensures t in ListAfter(w, i) && |ListAfter(w, i)| == |w.rings[i]|
    ensures Distance(ListAfter(w, i), t) < Distance(w.rings[i], t) <==> !StandsStill(w, i)
    ensures StandsStill(w, i) ==> ListAfter(w, i) == w.rings[i]
  {
    var c := Select(w, MAXPRIORITY).value;
    var r := w.rings[i];
    DispatchTurns(w, i);
    SelectLevel(w, i, MAXPRIORITY);
    assert NoDuplicates(r);
    hide RingsOk;
    hide ListAfter;
    hide StandsStill;
    ChosenIsNearest(w.threads, w.blocked, r, t);
    if Distance(r, c) == Distance(r, t) {
      SameDistance(r, c, t);
    }
    TurningBringsNearer(r, c, t);
  }

  lemma SameDistance(r: seq<Ptr>, c: Ptr, t: Ptr)
    requires c in r && t in r && Distance(r, c) == Distance(r, t)
    ensures c == t
  {
  }

  /** Successive selections at level i, between which nothing but the selections turns the list of the level. */
  predicate SelectionsAt(ws: seq<World>, i: nat) {
    && (forall k :: 0 <= k < |ws| ==> |ws[k].rings| == MAXPRIORITY && TurnsAt(ws[k], i))
    && (forall k :: 0 <= k < |ws| - 1 ==> ws[k + 1].rings[i] == ListAfter(ws[k], i))
  }

  /** Fairness: a thread of the level that stays eligible is chosen within as many selections as the level has
      threads. */
  lemma {:induction false} RoundRobin(ws: seq<World>, i: nat, t: Ptr)
    requires ws != [] && SelectionsAt(ws, i) && t in ws[0].rings[i]
    requires forall k :: 0 <= k < |ws| ==> t in ws[k].threads && Eligible(ws[k].threads[t], ws[k].blocked)
    requires |ws| > Distance(ws[0].rings[i], t)
    ensures exists k :: 0 <= k <= Distance(ws[0].rings[i], t) && Select(ws[k], MAXPRIORITY) == Some(t)
    decreases |ws|
  {
    hide RingsOk;
    hide Select;
    if Select(ws[0], MAXPRIORITY) != Some(t) {
      SelectionProgress(ws[0], i, t);
      LaterSelections(ws, i);
      hide SelectionsAt;
      hide ListAfter;
      hide Distance;
      RoundRobin(ws[1..], i, t);
      var k :| 0 <= k <= Distance(ws[1].rings[i], t) && Select(ws[1..][k], MAXPRIORITY) == Some(t);
      assert ws[1..][k] == ws[k + 1];
    }
  }

  lemma LaterSelections(ws: seq<World>, i: nat)
    requires ws != [] && SelectionsAt(ws, i)
    ensures SelectionsAt(ws[1..], i)
    ensures (|ws| > 1 ==> |ws[1].rings| == MAXPRIORITY && ws[1].rings[i] == ListAfter(ws[0], i))
  {
    hide SelectionAt;
    hide StandsStill;
    hide ListAfter;
    assert forall k :: 0 <= k < |ws| - 1 ==> ws[1..][k] == ws[k + 1];
  }

  /** Within `count` selections. */
  lemma RoundRobinCount(ws: seq<World>, i: nat, t: Ptr)
    requires ws != [] && SelectionsAt(ws, i) && t in ws[0].rings[i] && |ws| == |ws[0].rings[i]|
    requires forall k :: 0 <= k < |ws| ==> t in ws[k].threads && Eligible(ws[k].threads[t], ws[k].blocked)
    ensures exists k :: 0 <= k < |ws| && Select(ws[k], MAXPRIORITY) == Some(t)
  {
    RoundRobin(ws, i, t);
  }

  // Slices

  /** The slice of p is as before or cut to nothing. */
  predicate SliceKeptOrCut(w: World, w1: World, p: Ptr) {
    && p in w.threads && p in w1.threads
    && (w1.threads[p].numTicks == w.threads[p].numTicks || w1.threads[p].numTicks == 0)
  }

  lemma EnterSlice(w: World, o: Obj)
    requires w.Ok()
    ensures SyncEnter(w, o).0.Ok? ==> SliceKeptOrCut(w, SyncEnter(w, o).0.world, w.current)
    ensures SetMutex(w, w.current, o).Ok? ==> SliceKeptOrCut(w, SetMutex(w, w.current, o).world, w.current)
    ensures NativeWait(w, o).Ok? ==> SliceKeptOrCut(w, NativeWait(w, o).world, w.current)
    ensures w.threads[w.current].locks.Holds(o) ==> SliceKeptOrCut(w, SyncExit(w, o), w.current)
    ensures SliceKeptOrCut(w, Yield(w), w.current)
  {
    hide RingsOk;
  }

  lemma NotifySlice(w: World, o: Obj)
    requires w.current in w.threads
    ensures Notify(w, o).Ok? ==> SliceKeptOrCut(w, Notify(w, o).world, w.current)
    ensures NotifyAll(w, o).Ok? ==> SliceKeptOrCut(w, NotifyAll(w, o).world, w.current)
  {
  }

  lemma UnlockSlice(w: World, o: Obj)
    requires w.Ok()
    ensures ReleaseMutex(w, w.current, o).Ok? ==> SliceKeptOrCut(w, ReleaseMutex(w, w.current, o).world, w.current)
  {
    hide RingsOk;
    var p := w.current;
    if o in w.blocked && w.threads[p].locks.Holds(o) {
      var t2 := w.threads[p].(locks := w.threads[p].locks.Clear(o));
      SetKeepsOk(w, p, t2);
      var w1 := w.(threads := w.threads[p := t2], blocked := w.blocked - {o});
      FirstForFound(w1.threads, Order(w1.rings), MutexBlocked, o);
      match FirstFor(w1.threads, Order(w1.rings), MutexBlocked, o) {
        case None =>
        case Some(q) => HandOffResult(w1, o, q);
      }
    }
  }

  lemma CreateSlice(w: World, p: Ptr, obj: Obj, priority: int)
    requires w.Ok() && p !in w.threads && 1 <= priority <= MAXPRIORITY
    ensures Create(w, p, obj, priority).Ok? ==> SliceKeptOrCut(w, Create(w, p, obj, priority).world, w.current)
  {
    hide RingsOk;
    hide InsertRing;
  }

  lemma PrioritySlice(w: World, obj: Obj, priority: int)
    requires w.Ok() && 1 <= priority <= MAXPRIORITY
    ensures var r := ThreadSpec.SetPriority(w, obj, priority); r.Ok? ==> SliceKeptOrCut(w, r.world, w.current)
  {
    hide RingsOk;
    hide RemoveRing;
    hide InsertRing;
    hide FindThread;
    FindThreadFound(w, obj);
    if FindThread(w, obj).Some? {
      var (w1, p) := FindThread(w, obj).value;
      ListedNotNull(w1.rings, w1.threads, p);
      if priority != w.threads[p].priority {
        MoveOk(w1, p, priority);
        MoveSlice(Remove(w1, p), ThreadSpec.SetPriority(w, obj, priority).world, p, priority);
      }
    }
  }

  lemma MoveSlice(w: World, w1: World, p: Ptr, newPrio: int)
    requires p in w.threads && w.current in w.threads && |w.rings| == MAXPRIORITY && 1 <= newPrio <= MAXPRIORITY
    requires w1 == Insert(w.Set(p, w.threads[p].(priority := newPrio)), p)
    ensures SliceKeptOrCut(w, w1, w.current)
  {
    hide RingsOk;
    hide InsertRing;
  }

  /** Whether a bytecode of the running thread is followed by a new choice of thread. */
  predicate Reselects(s: Sys, op: Op)
    requires s.w.Ok() && s.frames.Keys == s.w.threads.Keys && s.frames[s.w.current] != []
    requires op.Start? ==> op.p !in s.w.threads && 1 <= op.priority <= MAXPRIORITY
    requires op.ChangePriority? ==> 1 <= op.priority <= MAXPRIORITY
    requires Exec(s, op).Next? && Exec(s, op).s.w.Ok()
  {
    var w := Exec(s, op).s.w;
    !(w.current == s.w.current && w.threads[w.current].numTicks != 0 && w.threads[w.current].state == NotBlocked)
  }

  /** The running thread has no more ticks than before, or it has exited. */
  ghost predicate SliceAfter(s: Sys, op: Op)
    requires s.w.Ok() && s.frames.Keys == s.w.threads.Keys && s.frames[s.w.current] != []
    requires op.Start? ==> op.p !in s.w.threads && 1 <= op.priority <= MAXPRIORITY
    requires op.ChangePriority? ==> 1 <= op.priority <= MAXPRIORITY
  {
    match Exec(s, op)
    case Stopped(_) => true
    case Next(s1) =>
      if op.Return? && |s.frames[s.w.current]| == 1 then s.w.current !in s1.w.threads
      else SliceKeptOrCut(s.w, s1.w, s.w.current)
  }

  lemma MonitorOpSlice(s: Sys, o: Obj)
    requires s.w.Ok() && s.frames.Keys == s.w.threads.Keys && s.frames[s.w.current] != []
    ensures SliceAfter(s, Invoke(Some(o))) && SliceAfter(s, Wait(o))
  {
    hide RingsOk;
    hide SyncEnter;
    hide NativeWait;
    EnterSlice(s.w, o);
  }

  lemma NotifyOpSlice(s: Sys, o: Obj)
    requires s.w.Ok() && s.frames.Keys == s.w.threads.Keys && s.frames[s.w.current] != []
    ensures SliceAfter(s, NotifyOne(o)) && SliceAfter(s, NotifyEvery(o))
  {
    hide RingsOk;
    hide Notify;
    hide NotifyAll;
    NotifySlice(s.w, o);
  }

  lemma LockOpSlice(s: Sys, o: Obj)
    requires s.w.Ok() && s.frames.Keys == s.w.threads.Keys && s.frames[s.w.current] != []
    ensures SliceAfter(s, LockOp(o)) && SliceAfter(s, TryLockOp(o)) && SliceAfter(s, UnlockOp(o))
  {
    hide RingsOk;
    hide SetMutex;
    hide ReleaseMutex;
    EnterSlice(s.w, o);
    UnlockSlice(s.w, o);
  }

  lemma ReturnSlice(s: Sys, L: set<Obj>, owner: map<Obj, Ptr>)
    requires Ready(s, L, owner)
    ensures s.frames[s.w.current] != [] && SliceAfter(s, Return)
  {
    hide InvWith;
    hide RingsOk;
    hide SyncExit;
    hide Delete;
    hide HeldBy;
    hide LockTable.Holds;
    TopIsHeld(s, L, owner);
    if |s.frames[s.w.current]| == 1 {
      OutermostIsPlain(s, L, owner);
      if |s.w.threads| > 1 {
        ExitThreads(s, L, owner);
      }
    } else if Top(s).Some? {
      EnterSlice(s.w, Top(s).value);
    }
  }

  /** No bytecode lengthens the slice of the running thread. */
  lemma ExecSlice(s: Sys, L: set<Obj>, owner: map<Obj, Ptr>, op: Op)
    requires s.w.Ok() && s.frames.Keys == s.w.threads.Keys && s.frames[s.w.current] != [] && Legal(s, L, op)
    requires Ready(s, L, owner)
    ensures SliceAfter(s, op)
  {
    hide InvWith;
    hide RingsOk;
    hide Create;
    hide ThreadSpec.SetPriority;
    hide Yield;
    TopIsHeld(s, L, owner);
    match op {
      case Invoke(None) =>
      case Invoke(Some(o)) => MonitorOpSlice(s, o);
      case Return => ReturnSlice(s, L, owner);
      case Wait(o) => MonitorOpSlice(s, o);
      case NotifyOne(o) => NotifyOpSlice(s, o);
      case NotifyEvery(o) => NotifyOpSlice(s, o);
      case LockOp(o) => LockOpSlice(s, o);
      case TryLockOp(o) => LockOpSlice(s, o);
      case UnlockOp(o) => LockOpSlice(s, o);
      case Start(p, obj, priority) => CreateSlice(s.w, p, obj, priority);
      case ChangePriority(obj, priority) => PrioritySlice(s.w, obj, priority);
      case YieldOp => EnterSlice(s.w, 0);
      case Other =>
    }
  }

  /** A bytecode of the running thread that takes s to s2, with other threads alive, and is not followed by a
      selection. */
  ghost predicate WithinSlice(s: Sys, L: set<Obj>, op: Op, s2: Sys) {
    && s.w.Ok() && s.frames.Keys == s.w.threads.Keys && Running(s) && s.frames[s.w.current] != []
    && Legal(s, L, op) && Exec(s, op).Next? && Exec(s, op).s.w.Ok()
    && |Exec(s, op).s.w.threads| != 1 && !Reselects(s, op) && Step(s, op) == Next(s2) && Inv(s, L)
  }

  /** The ticks that the running thread has left. */
  function Ticks(w: World): int {
    if w.current in w.threads then w.threads[w.current].numTicks else 0
  }

  lemma TicksDown(w: World, w1: World, w2: World)
    requires SliceKeptOrCut(w, w1, w.current) && 0 <= Ticks(w) < 0x100 && w1.Ok() && w1.current == w.current
    requires Ticks(w1) != 0 && w1.threads[w1.current].state == NotBlocked && |w1.threads| != 1 && Schedule(w1) == Ok(w2)
    ensures w2.current == w.current && 0 <= Ticks(w2) < Ticks(w)
  {
    hide RingsOk;
    hide Switch;
  }

  lemma SliceStep(s: Sys, L: set<Obj>, op: Op, s2: Sys)
    requires WithinSlice(s, L, op, s2) && 0 <= Ticks(s.w) < 0x100
    ensures s2.w.current == s.w.current && 0 <= Ticks(s2.w) < Ticks(s.w)
  {
    hide Inv;
    hide InvWith;
    hide RingsOk;
    hide Exec;
    hide Schedule;
    var owner := InvOk(s, L);
    ExecSlice(s, L, owner, op);
    TicksDown(s.w, Exec(s, op).s.w, s2.w);
  }

  /** A running thread gets at most as many bytecodes without a selection as it has ticks left. */
  lemma {:induction false} SliceBound(ss: seq<Sys>, L: set<Obj>, ops: seq<Op>, n: nat)
    requires |ss| == |ops| + 1 && n <= |ops| && 0 <= Ticks(ss[0].w) < 0x100
    requires forall k :: 0 <= k < |ops| ==> WithinSlice(ss[k], L, ops[k], ss[k + 1])
    ensures 0 <= Ticks(ss[n].w) <= Ticks(ss[0].w) - n
  {
    hide WithinSlice;
    hide Ticks;
    if n > 0 {
      SliceBound(ss, L, ops, n - 1);
      SliceStep(ss[n - 1], L, ops[n - 1], ss[n]);
    }
  }

  lemma SwitchStartsSlice(w: World, w2: World)
    requires w.Ok() && Switch(w) == Ok(w2)
    ensures w2.current in w2.threads && w2.threads[w2.current].numTicks == w2.threads[w2.current].priority
    ensures 1 <= w2.threads[w2.current].priority <= MAXPRIORITY
  {
    RingsLength(w);
    hide RotateTo;
    hide Admit;
    var p := Select(w, MAXPRIORITY).value;
    DispatchKeepsOk(Admit(w, p), p);
  }

  /** A slice begins with as many ticks as the priority says, so it lasts at most priority + 1 bytecodes: at most
      priority of them without a selection, and the one that is followed by the next. */
  lemma SliceOfSelection(w: World, L: set<Obj>, ss: seq<Sys>, ops: seq<Op>)
    requires w.Ok() && |ss| == |ops| + 1 && Switch(w) == Ok(ss[0].w)
    requires forall k :: 0 <= k < |ops| ==> WithinSlice(ss[k], L, ops[k], ss[k + 1])
    ensures ss[0].w.current in ss[0].w.threads && |ops| <= ss[0].w.threads[ss[0].w.current].priority
  {
    hide WithinSlice;
    hide RingsOk;
    SwitchStartsSlice(w, ss[0].w);
    SliceBound(ss, L, ops, |ops|);
  }
}
