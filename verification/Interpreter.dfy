/** The interpreter loop on the linked control blocks: every bytecode is one of the methods of ThreadSystem, and the
    scheduler follows. */
module Interpreters {
  import opened LockTables
  import opened ThreadSpec
  import opened ListLinks
  import opened ThreadSystems
  import opened MonitorProtocol
  import opened MonitorRuns

  /** `field` is what a change of priority reads from the Java object: the word that the control block of its thread
      points to, or of an object without a live thread some other number than the new priority. */
  predicate FieldOk(w: World, op: Op, field: int) {
    op.ChangePriority? ==>
      match FindThread(w, op.obj)
      case None => field != op.priority
      case Some(f) => f.1 in w.threads && w.threads[f.1].priority == field
  }

  /** What the interpreter needs of a state to execute a bytecode. */
  predicate CanExec(s: Sys, op: Op) {
    && s.w.Ok() && s.frames.Keys == s.w.threads.Keys && s.frames[s.w.current] != []
    && (op.Start? ==> op.p !in s.w.threads && 1 <= op.priority <= MAXPRIORITY)
    && (op.ChangePriority? ==> 1 <= op.priority <= MAXPRIORITY)
  }

  /** And what the programmer provides. */
  predicate Proper(s: Sys, L: set<Obj>, op: Op, field: int) {
    CanExec(s, op) && Legal(s, L, op) && FieldOk(s.w, op, field)
  }

  /** As long as the machine does not stop, the bytecodes are legal and their thread is not blocked. */
  ghost predicate AllLegal(s: Sys, L: set<Obj>, ops: seq<Op>, fields: seq<int>)
    requires |fields| == |ops|
    decreases |ops|
  {
    ops == []
    || (Proper(s, L, ops[0], fields[0]) && Running(s)
        && (Step(s, ops[0]).Next? ==> AllLegal(Step(s, ops[0]).s, L, ops[1..], fields[1..])))
  }

  /** What a bytecode pushes for the program to see: tryLock says whether the Lock was free. */
  function AnswerOf(s: Sys, op: Op): Option<bool> {
    if op.TryLockOp? then Some(op.o !in s.w.blocked) else None
  }

  class Interpreter {
    const threads: ThreadSystem
    var frames: map<Ptr, Frames>
    ghost var orphans: set<Obj>

    ghost function Abs(): Sys
      reads this, threads
    {
      Sys(threads.Abs(), frames, orphans)
    }

    /** The outcome of a bytecode. */
    ghost predicate Agrees(r: Outcome, halt: Option<Halt>)
      reads this, threads
    {
      match r
      case Next(s) => halt == None && threads.Valid() && Abs() == s
      case Stopped(why) => halt == Some(why)
    }

    ghost predicate Executed(s: Sys, op: Op, halt: Option<Halt>)
      reads this, threads
    {
      CanExec(s, op) && Agrees(Exec(s, op), halt)
    }

    ghost predicate Turned(s: Sys, op: Op, halt: Option<Halt>)
      reads this, threads
    {
      CanExec(s, op) && Agrees(Step(s, op), halt)
    }

    constructor (main: Ptr)
      requires main != NULL
      ensures threads.Valid() && Abs() == Initial(main) && fresh(threads)
    {
      threads := new ThreadSystem(main);
      frames := map[main := [None]];
      orphans := {};
    }

    /** The machine is in state s, and its thread has a method to run. */
    ghost predicate At(s: Sys)
      reads this, threads
    {
      && threads.Valid() && Abs() == s && s.w.Ok() && frames.Keys == threads.tcb.Keys
      && frames[threads.currentThreadCB] != []
    }

    lemma AtMeans(s: Sys)
      requires At(s)
      ensures s.w.Ok() && s.frames.Keys == s.w.threads.Keys && s.frames[s.w.current] != [] && s.frames == frames
      ensures s.w.current == threads.currentThreadCB && s.w == threads.Abs() && s.orphans == orphans
      ensures s.w.threads == Threads(threads.tcb)
    {
      hide RingsOk;
      hide Linked;
      assert Threads(threads.tcb).Keys == threads.tcb.Keys;
    }

    /** A call, of a synchronized method or another. */
    method Call(sync: Option<Obj>, ghost s: Sys) returns (halt: Option<Halt>)
      requires At(s)
      modifies this, threads
      ensures Executed(s, Invoke(sync), halt)
    {
      hide RingsOk;
      hide Linked;
      hide ThreadSpec.SyncEnter;
      AtMeans(s);
      var me, entered := threads.currentThreadCB, true;
      halt := None;
      if sync.Some? {
        halt, entered := threads.SyncEnter(sync.value);
      }
      if entered {
        frames := frames[me := frames[me] + [sync]];
      }
    }

    /** The outermost method has returned: the thread goes, or the machine stops if it was the last one. */
    method LeaveThread(ghost s: Sys, ghost L: set<Obj>, ghost owner: map<Obj, Ptr>) returns (halt: Option<Halt>)
      requires s.w.current in s.frames && |s.frames[s.w.current]| == 1 && At(s) && Ready(s, L, owner)
      modifies this, threads
      ensures Executed(s, Return, halt)
    {
      hide RingsOk;
      hide Linked;
      hide InvWith;
      hide HeldBy;
      hide Delete;
      AtMeans(s);
      OutermostIsPlain(s, L, owner);
      ThreadCount(threads.tcb);
      var me := threads.currentThreadCB;
      if threads.numThreads == 1 {
        return Some(Terminated);
      }
      ExitThreads(s, L, owner);
      orphans := orphans + HeldBy(threads.tcb[me].thread.locks);
      threads.DeleteThread();
      frames := frames - {me};
      halt := None;
    }

    /** A return, which releases the monitor of the method; its lock table entry is always there. */
    method Leave(ghost s: Sys, ghost L: set<Obj>, ghost owner: map<Obj, Ptr>) returns (halt: Option<Halt>)
      requires At(s) && Ready(s, L, owner)
      modifies this, threads
      ensures Executed(s, Return, halt)
    {
      hide RingsOk;
      hide Linked;
      hide InvWith;
      hide LockTable.Holds;
      hide ThreadSpec.SyncExit;
      hide Delete;
      hide HeldBy;
      AtMeans(s);
      TopIsHeld(s, L, owner);
      var me := threads.currentThreadCB;
      var n := |frames[me]| - 1;
      if n == 0 {
        halt := LeaveThread(s, L, owner);
        return;
      }
      var top := frames[me][n];
      if top.Some? {
        threads.SyncExit(top.value);
      }
      frames := frames[me := frames[me][..n]];
      halt := None;
    }

    /** createThread, and the frame of the method run. */
    method StartThread(p: Ptr, obj: Obj, priority: int, ghost s: Sys) returns (halt: Option<Halt>)
      requires At(s)
      requires p !in s.w.threads && p != NULL && 1 <= priority <= MAXPRIORITY
      modifies this, threads
      ensures Executed(s, Start(p, obj, priority), halt)
    {
      hide RingsOk;
      hide Linked;
      hide Create;
      AtMeans(s);
      assert p !in threads.tcb;
      halt := threads.CreateThread(p, obj, priority);
      if halt == None {
        frames := frames[p := [None]];
      }
    }

    /** Bytecodes and natives that change neither the frames nor which threads there are. */
    method Native(op: Op, field: int, ghost s: Sys) returns (halt: Option<Halt>, answer: Option<bool>)
      requires At(s)
      requires !op.Invoke? && !op.Return? && !op.Start? && CanExec(s, op) && FieldOk(s.w, op, field)
      modifies threads
      ensures Executed(s, op, halt) && answer == AnswerOf(s, op)
    {
      hide RingsOk;
      hide Linked;
      hide NativeWait;
      hide Notify;
      hide ThreadSpec.NotifyAll;
      hide SetMutex;
      hide ReleaseMutex;
      hide ThreadSpec.SetPriority;
      hide ThreadSpec.TryLock;
      hide Yield;
      hide FindThread;
      AtMeans(s);
      halt, answer := None, None;
      match op {
        case Wait(o) => halt := threads.NativeWait(o);
        case NotifyOne(o) => halt := threads.NotifyThread(o);
        case NotifyEvery(o) => halt := threads.NotifyAll(o);
        case LockOp(o) => halt := threads.SetMutexOnObject(threads.currentThreadCB, o);
        case TryLockOp(o) =>
          var got: bool;
          halt, got := threads.TryLock(o);
          answer := Some(got);
        case UnlockOp(o) => halt := threads.ReleaseMutexOnObject(threads.currentThreadCB, o);
        case ChangePriority(obj, priority) => halt := threads.NativeSetPriority(obj, priority, field);
        case YieldOp => threads.YieldThread();
        case Other =>
      }
    }

    /** The bytecode itself. */
    method RunBytecode(op: Op, field: int, ghost s: Sys, ghost L: set<Obj>, ghost owner: map<Obj, Ptr>)
        returns (halt: Option<Halt>, answer: Option<bool>)
      requires Proper(s, L, op, field) && At(s) && Ready(s, L, owner)
      modifies this, threads
      ensures Executed(s, op, halt) && answer == AnswerOf(s, op)
    {
      hide RingsOk;
      hide Linked;
      hide InvWith;
      hide Exec;
      hide At;
      hide Agrees;
      hide FieldOk;
      answer := None;
      match op {
        case Invoke(sync) => halt := Call(sync, s);
        case Return => halt := Leave(s, L, owner);
        case Start(p, obj, priority) => halt := StartThread(p, obj, priority, s);
        case _ => halt, answer := Native(op, field, s);
      }
    }

    /** One turn of the interpreter loop: what the methods of the thread system require is met in every state that
        satisfies the protocol invariant. */
    method Turn(op: Op, field: int, ghost s: Sys, ghost L: set<Obj>)
        returns (halt: Option<Halt>, answer: Option<bool>)
      requires Proper(s, L, op, field) && Running(s) && At(s) && Inv(s, L)
      modifies this, threads
      ensures Turned(s, op, halt) && answer == AnswerOf(s, op)
    {
      hide RingsOk;
      hide Linked;
      hide InvWith;
      hide Inv;
      hide Exec;
      hide Schedule;
      hide Turned;
      ghost var owner := InvOk(s, L);
      halt, answer := RunBytecode(op, field, s, L, owner);
      ExecKeeps(s, L, owner, op);
      if halt.Some? {
        StopsTurn(s, op, halt);
        return;
      }
      ghost var s1 := Exec(s, op).s;
      InvAwakened(s1, L);
      halt := threads.Scheduler();
      ScheduleTurn(s, op, s1, halt);
    }

    lemma StopsTurn(s: Sys, op: Op, halt: Option<Halt>)
      requires halt.Some? && Executed(s, op, halt)
      ensures Turned(s, op, halt)
    {
      hide RingsOk;
      hide Linked;
      hide Exec;
      hide Schedule;
    }

    /** The scheduler completes the step. */
    lemma ScheduleTurn(s: Sys, op: Op, s1: Sys, halt: Option<Halt>)
      requires CanExec(s, op) && Exec(s, op) == Next(s1) && s1.w.Ok() && frames == s1.frames && orphans == s1.orphans
      requires threads.Agrees(Schedule(s1.w), halt)
      ensures Turned(s, op, halt)
    {
      hide RingsOk;
      hide Linked;
      hide Exec;
      hide Schedule;
    }

    /** The thread system and the frames are in state s, which satisfies the protocol invariant. */
    ghost predicate Here(s: Sys, L: set<Obj>)
      reads this, threads
    {
      threads.Valid() && Abs() == s && Inv(s, L)
    }

    lemma HereAt(s: Sys, L: set<Obj>, op: Op, field: int)
      requires Here(s, L) && Proper(s, L, op, field)
      ensures At(s)
    {
      hide RingsOk;
      hide Linked;
      hide Inv;
      assert Threads(threads.tcb).Keys == threads.tcb.Keys;
    }

    /** What a turn leaves behind. */
    lemma TurnLeaves(s: Sys, L: set<Obj>, op: Op, field: int, halt: Option<Halt>)
      requires Proper(s, L, op, field) && Running(s) && Inv(s, L) && Turned(s, op, halt)
      ensures halt.Some? ==> Step(s, op) == Stopped(halt.value)
      ensures halt.None? ==> Here(Abs(), L) && StepsTo(s, L, op, Abs())
    {
      hide RingsOk;
      hide Linked;
      hide InvWith;
      hide Inv;
      hide Exec;
      hide Schedule;
      var owner := InvOk(s, L);
      StepKeeps(s, L, owner, op);
    }

    /** Any sequence of bytecodes that is legal as long as the machine does not stop: the linked control blocks go
        through the run of the protocol, to its end or to the bytecode at which it stops, and every tryLock is answered
        as the state in which it is executed says. */
    method Replay(ops: seq<Op>, fields: seq<int>, ghost s: Sys, ghost L: set<Obj>)
        returns (halt: Option<Halt>, done: nat, answers: seq<Option<bool>>)
      requires |fields| == |ops| && AllLegal(s, L, ops, fields) && Here(s, L)
      modifies this, threads
      ensures |answers| == done <= |ops| && forall k :: 0 <= k < done ==> Answered(s, L, ops, k, answers[k])
      ensures halt.None? ==> done == |ops| && Here(Abs(), L) && Reaches(s, L, ops, Abs())
      ensures halt.Some? ==> StopsAt(s, L, ops, done, halt.value)
    {
      hide RingsOk;
      hide Linked;
      hide Inv;
      hide AllLegal;
      hide Reaches;
      hide StepsTo;
      hide Here;
      hide Turned;
      hide Proper;
      hide At;
      hide Answered;
      hide AnswerOf;
      halt, done, answers := None, 0, [];
      ghost var now := s;
      NothingDone(s, L, ops, fields);
      HereNow(s, L);
      while done < |ops|
        invariant 0 <= done <= |ops| && halt.None?
        invariant |answers| == done && forall k :: 0 <= k < done ==> Answered(s, L, ops, k, answers[k])
        invariant Here(now, L) && Abs() == now && Reaches(s, L, ops[..done], now)
        invariant AllLegal(now, L, ops[done..], fields[done..])
      {
        FirstLegal(now, L, ops[done..], fields[done..]);
        HereAt(now, L, ops[done], fields[done]);
        HereNow(now, L);
        var answer: Option<bool>;
        halt, answer := Turn(ops[done], fields[done], now, L);
        TurnLeaves(now, L, ops[done], fields[done], halt);
        if halt.Some? {
          StopsHere(s, L, ops, done, now, fields[done], halt.value);
          return;
        }
        OneFurther(s, L, ops, fields, done, now, Abs());
        IsAnswered(s, L, ops, done, now);
        now := Abs();
        answers := answers + [answer];
        done := done + 1;
      }
      assert ops[..done] == ops;
    }

    lemma HereNow(s: Sys, L: set<Obj>)
      requires Here(s, L)
      ensures Abs() == s && Inv(s, L)
    {
    }
  }

  /** The answer of bytecode number k is that of the state in which the run executes it. */
  ghost predicate Answered(s: Sys, L: set<Obj>, ops: seq<Op>, k: nat, answer: Option<bool>) {
    k < |ops| && exists s1 :: Reaches(s, L, ops[..k], s1) && answer == AnswerOf(s1, ops[k])
  }

  lemma IsAnswered(s: Sys, L: set<Obj>, ops: seq<Op>, k: nat, s1: Sys)
    requires k < |ops| && Reaches(s, L, ops[..k], s1)
    ensures Answered(s, L, ops, k, AnswerOf(s1, ops[k]))
  {
    hide Reaches;
  }

  /** The run of ops from s stops at bytecode number `done`. */
  ghost predicate StopsAt(s: Sys, L: set<Obj>, ops: seq<Op>, done: nat, why: Halt) {
    && done < |ops|
    && exists s1 :: Reaches(s, L, ops[..done], s1) && CanExec(s1, ops[done]) && Step(s1, ops[done]) == Stopped(why)
  }

  lemma NothingDone(s: Sys, L: set<Obj>, ops: seq<Op>, fields: seq<int>)
    requires |fields| == |ops| && AllLegal(s, L, ops, fields)
    ensures Reaches(s, L, ops[..0], s) && AllLegal(s, L, ops[0..], fields[0..])
  {
    hide AllLegal;
    assert ops[..0] == [] && ops[0..] == ops && fields[0..] == fields;
  }

  lemma FirstLegal(s: Sys, L: set<Obj>, ops: seq<Op>, fields: seq<int>)
    requires |fields| == |ops| && ops != [] && AllLegal(s, L, ops, fields)
    ensures Proper(s, L, ops[0], fields[0]) && Running(s)
    ensures Step(s, ops[0]).Next? ==> AllLegal(Step(s, ops[0]).s, L, ops[1..], fields[1..])
  {
    hide Proper;
    hide Step;
  }

  lemma StopsHere(s: Sys, L: set<Obj>, ops: seq<Op>, done: nat, s1: Sys, field: int, why: Halt)
    requires done < |ops| && Reaches(s, L, ops[..done], s1) && Proper(s1, L, ops[done], field)
    requires Step(s1, ops[done]) == Stopped(why)
    ensures StopsAt(s, L, ops, done, why)
  {
    hide Step;
    hide Reaches;
  }

  lemma OneFurther(s: Sys, L: set<Obj>, ops: seq<Op>, fields: seq<int>, done: nat, s1: Sys, s2: Sys)
    requires |fields| == |ops| && done < |ops| && Reaches(s, L, ops[..done], s1)
    requires AllLegal(s1, L, ops[done..], fields[done..])
    requires StepsTo(s1, L, ops[done], s2)
    ensures Reaches(s, L, ops[..done + 1], s2) && AllLegal(s2, L, ops[done + 1..], fields[done + 1..])
  {
    hide Reaches;
    hide Step;
    FirstLegal(s1, L, ops[done..], fields[done..]);
    hide AllLegal;
    RunGoesOn(s, L, ops[..done], s1, ops[done], s2);
    assert ops[..done] + [ops[done]] == ops[..done + 1];
    assert ops[done..][1..] == ops[done + 1..] && fields[done..][1..] == fields[done + 1..];
  }

  /** The virtual machine from its start: the control blocks, lists and lock tables reach a state of the protocol, so
      that all that holds in reachable states holds of them. */
  method RunMain(main: Ptr, ops: seq<Op>, fields: seq<int>, ghost L: set<Obj>)
      returns (machine: Interpreter, halt: Option<Halt>, done: nat, answers: seq<Option<bool>>)
    requires main != NULL && |fields| == |ops| && AllLegal(Initial(main), L, ops, fields)
    ensures |answers| == done <= |ops|
    ensures forall k :: 0 <= k < done ==> Answered(Initial(main), L, ops, k, answers[k])
    ensures halt.None? ==> machine.threads.Valid() && Reachable(main, L, machine.Abs())
    ensures halt.Some? ==> StopsAt(Initial(main), L, ops, done, halt.value)
  {
    hide RingsOk;
    hide Linked;
    hide InvWith;
    hide Inv;
    hide AllLegal;
    hide Reaches;
    hide Initial;
    hide Answered;
    machine := new Interpreter(main);
    InitialReady(main, L);
    HasInv(Initial(main), L, map[]);
    halt, done, answers := machine.Replay(ops, fields, Initial(main), L);
  }
}
