/** A run in which a thread of the same priority as the running one never gets its turn: main starts a thread at a
higher priority, and that thread lowers itself to the priority of main. */
module Starvation {
  import opened LockTables
  import opened ThreadSpec
  import opened ListLemmas
  import opened MonitorProtocol
  import opened MonitorRuns
  import opened Scheduling
  import opened Fairness

  const HIGHER := NORMPRIORITY + 1

  function MainThread(ticks: int): Thread {
    FreshThread(None, NORMPRIORITY).(numTicks := ticks)
  }

  function Lists(normal: seq<Ptr>, higher: seq<Ptr>): Rings {
    seq(MAXPRIORITY, i => if i == NORMPRIORITY - 1 then normal else if i == HIGHER - 1 then higher else [])
  }

  function TwoThreads(main: Ptr, a: Ptr, mainTicks: int, t: Thread): map<Ptr, Thread> {
    map[main := MainThread(mainTicks), a := t]
  }

  /** createThread has filled in the control block of a. */
  function Created(main: Ptr, a: Ptr, obj: Obj): World {
    World(Lists([main], [a]), TwoThreads(main, a, 0, FreshThread(Some(obj), HIGHER)), main, {})
  }

  /** The scheduler has chosen a. */
  function Started(main: Ptr, a: Ptr, obj: Obj): World {
    World(Lists([main], [a]), TwoThreads(main, a, 0xFF, FreshThread(Some(obj), HIGHER)), a, {})
  }

  /** a has lowered itself, and has some ticks left. */
  function Lowered(main: Ptr, a: Ptr, obj: Obj, ticks: int): World {
    World(Lists([main, a], []),
          TwoThreads(main, a, 0xFF, FreshThread(Some(obj), HIGHER).(priority := NORMPRIORITY, numTicks := ticks)),
          a, {})
  }

  function WithPlainFrames(w: World, main: Ptr, a: Ptr): Sys {
    Sys(w, map[main := [None], a := [None]], {})
  }

  lemma CreatesHigher(main: Ptr, a: Ptr, obj: Obj)
    requires main != a && InitialWorld(main).Ok()
    ensures Create(InitialWorld(main), a, obj, HIGHER) == Ok(Created(main, a, obj))
  {
    hide RingsOk;
    var w, w1 := InitialWorld(main), Created(main, a, obj);
    assert w.rings[HIGHER - 1 := [a]] == w1.rings;
    var t := FreshThread(Some(obj), HIGHER);
    assert w.threads[a := t][main := w.threads[main].(numTicks := 0)] == w1.threads;
  }

  /** Of two threads that can run, the one of higher priority is chosen. */
  lemma HigherIsChosen(w: World, main: Ptr, a: Ptr)
    requires w.Ok() && w.threads.Keys == {main, a} && w.threads[main].priority < w.threads[a].priority
    requires w.threads[a].state == NotBlocked
    ensures |w.rings| == MAXPRIORITY && Select(w, MAXPRIORITY) == Some(a)
  {
    RingsLength(w);
    ChoosesHighest(w);
    hide RingsOk;
    hide Select;
    assert Eligible(w.threads[a], w.blocked);
    assert Select(w, MAXPRIORITY).value in {main, a};
  }

  lemma CreatedOk(main: Ptr, a: Ptr, obj: Obj)
    requires main != NULL && a != NULL && main != a
    ensures InitialWorld(main).Ok() && Created(main, a, obj).Ok()
  {
    InitialReady(main, {});
    hide RingsOk;
    CreateKeepsOk(InitialWorld(main), a, obj, HIGHER);
    CreatesHigher(main, a, obj);
  }

  lemma ChoosesNew(main: Ptr, a: Ptr, obj: Obj)
    requires main != a && Created(main, a, obj).Ok()
    ensures Schedule(Created(main, a, obj)) == Ok(Started(main, a, obj))
  {
    hide RingsOk;
    hide Select;
    hide Dispatch;
    var w, w2 := Created(main, a, obj), Started(main, a, obj);
    assert |w.threads| == 2;
    assert Tick(w).threads == w2.threads;
    HigherIsChosen(Tick(w), main, a);
    RunsNew(main, a, obj, Tick(w));
    hide Tick;
  }

  lemma RunsNew(main: Ptr, a: Ptr, obj: Obj, w: World)
    requires main != a && w == Started(main, a, obj).(current := main) && w.Ok()
    ensures Dispatch(w, a) == Started(main, a, obj)
  {
    hide RingsOk;
    var w2 := Started(main, a, obj);
    assert RotateTo([a], IndexIn([a], a)) == [a];
    assert w.threads[a := w.threads[a].(numTicks := HIGHER)] == w2.threads;
    assert w.rings[HIGHER - 1 := [a]] == w2.rings;
  }

  lemma FindsItself(main: Ptr, a: Ptr, obj: Obj)
    requires main != a && Started(main, a, obj).Ok()
    ensures FindThread(Started(main, a, obj), obj) == Some((Started(main, a, obj), a))
  {
    var w := Started(main, a, obj);
    FindThreadFound(w, obj);
    FindLevelFound(w, obj, 0);
    hide RingsOk;
    hide FindLevel;
    assert w.threads[a].obj == Some(obj);
    var (j, k) := FindLevel(w, obj, 0).value;
    assert RotateTo([a], 0) == [a];
    assert w.rings[HIGHER - 1 := [a]] == w.rings;
  }

  lemma LowersItself(main: Ptr, a: Ptr, obj: Obj)
    requires main != a && Started(main, a, obj).Ok()
    ensures ThreadSpec.SetPriority(Started(main, a, obj), obj, NORMPRIORITY) == Ok(Lowered(main, a, obj, HIGHER))
  {
    hide RingsOk;
    FindsItself(main, a, obj);
    hide FindThread;
    var w, w2 := Started(main, a, obj), Lowered(main, a, obj, HIGHER);
    assert RemoveRing([a], a) == [];
    assert InsertRing([main], a) == [main, a];
    assert w.rings[HIGHER - 1 := []][NORMPRIORITY - 1 := [main, a]] == w2.rings;
    assert w.threads[a := w.threads[a].(priority := NORMPRIORITY)] == w2.threads;
  }

  lemma TicksOnce(main: Ptr, a: Ptr, obj: Obj)
    requires main != a && Lowered(main, a, obj, HIGHER).Ok()
    ensures Schedule(Lowered(main, a, obj, HIGHER)) == Ok(Lowered(main, a, obj, NORMPRIORITY))
  {
    hide RingsOk;
    var w, w2 := Lowered(main, a, obj, HIGHER), Lowered(main, a, obj, NORMPRIORITY);
    assert |w.threads| == 2;
    assert Tick(w).threads == w2.threads;
  }

  /** Both threads can run, at the same priority; the cursor of their list is on main and a is running. */
  lemma MainWaits(main: Ptr, a: Ptr, obj: Obj)
    requires main != a && Lowered(main, a, obj, NORMPRIORITY).Ok()
    ensures var w := Lowered(main, a, obj, NORMPRIORITY);
      Waits(w, NORMPRIORITY - 1, main) && NoneAbove(w, NORMPRIORITY - 1) && KeepsItself(w, NORMPRIORITY - 1)
  {
    hide RingsOk;
    assert Trial([main, a]) == [a, main];
  }

  lemma StartStep(main: Ptr, L: set<Obj>, a: Ptr, obj: Obj)
    requires main != NULL && a != NULL && main != a
    ensures Started(main, a, obj).Ok()
    ensures StepsTo(Initial(main), L, Start(a, obj, HIGHER), WithPlainFrames(Started(main, a, obj), main, a))
  {
    hide RingsOk;
    hide Schedule;
    hide Create;
    InitialRuns(main);
    CreatedOk(main, a, obj);
    CreatesHigher(main, a, obj);
    ChoosesNew(main, a, obj);
    ScheduleKeepsThreads(Created(main, a, obj));
    hide Created;
    hide Started;
    assert InitialWorld(main).threads[main].obj == None;
    hide Running;
    hide InitialWorld;
    assert Initial(main).frames[a := [None]] == WithPlainFrames(Started(main, a, obj), main, a).frames;
  }

  lemma StateOfA(main: Ptr, a: Ptr, obj: Obj)
    requires main != a
    ensures var w := Started(main, a, obj);
      w.current == a && w.threads.Keys == {main, a} && w.threads[a].state == NotBlocked
  {
  }

  lemma LowerStep(main: Ptr, L: set<Obj>, a: Ptr, obj: Obj)
    requires main != NULL && a != NULL && main != a && Started(main, a, obj).Ok()
    ensures Lowered(main, a, obj, NORMPRIORITY).Ok()
    ensures StepsTo(WithPlainFrames(Started(main, a, obj), main, a), L, ChangePriority(obj, NORMPRIORITY),
                    WithPlainFrames(Lowered(main, a, obj, NORMPRIORITY), main, a))
  {
    hide RingsOk;
    hide Schedule;
    hide ThreadSpec.SetPriority;
    hide Lowered;
    hide Started;
    hide StepsTo;
    var w, w1 := Started(main, a, obj), Lowered(main, a, obj, HIGHER);
    LowersItself(main, a, obj);
    SetPriorityKeepsOk(w, obj, NORMPRIORITY);
    TicksOnce(main, a, obj);
    ScheduleKeepsThreads(w1);
    StateOfA(main, a, obj);
    StepOf(WithPlainFrames(w, main, a), L, ChangePriority(obj, NORMPRIORITY), WithPlainFrames(w1, main, a),
           Lowered(main, a, obj, NORMPRIORITY));
  }

  /** The selection after a yield gives a a new slice and changes nothing else. */
  lemma ChoosesItself(main: Ptr, a: Ptr, obj: Obj)
    requires main != a && Lowered(main, a, obj, NORMPRIORITY).Ok()
    ensures var w := Lowered(main, a, obj, NORMPRIORITY); Yielded(w).Ok() && Switch(Yielded(w)) == Ok(w)
  {
    hide RingsOk;
    hide Switch;
    hide Waits;
    hide NoneAbove;
    hide SelectionAt;
    hide StandsStill;
    var w := Lowered(main, a, obj, NORMPRIORITY);
    MainWaits(main, a, obj);
    hide KeepsItself;
    YieldAndTick(w);
    var w1 := Yielded(w);
    SlicesDoNotMatter(w, w1, NORMPRIORITY - 1, main);
    SelectedLevel(w1, NORMPRIORITY - 1, main);
    StandsStillIff(w1, NORMPRIORITY - 1);
    StandingStill(w1, NORMPRIORITY - 1);
    assert w1.threads[a := w1.threads[a].(numTicks := NORMPRIORITY)] == w.threads;
  }

  lemma YieldsStep(main: Ptr, L: set<Obj>, a: Ptr, obj: Obj)
    requires main != a && Lowered(main, a, obj, NORMPRIORITY).Ok()
    ensures var s := WithPlainFrames(Lowered(main, a, obj, NORMPRIORITY), main, a); StepsTo(s, L, YieldOp, s)
  {
    hide RingsOk;
    hide Switch;
    hide Tick;
    hide Yield;
    hide Yielded;
    hide SameButSlices;
    var w := Lowered(main, a, obj, NORMPRIORITY);
    YieldAndTick(w);
    ChoosesItself(main, a, obj);
    assert |w.threads| == 2 && w.threads[a].state == NotBlocked;
    hide Lowered;
    assert |Yield(w).threads.Keys| == |w.threads.Keys|;
  }

  /** Java promises to share the time among the threads of one priority.  Here two threads can run at priority 5, in a
      state that a run reaches, and the one that runs goes on for ever, although it does nothing but yield. */
  lemma NeverGetsItsTurn(main: Ptr, L: set<Obj>, a: Ptr, obj: Obj)
    requires main != NULL && a != NULL && main != a
    ensures var s := WithPlainFrames(Lowered(main, a, obj, NORMPRIORITY), main, a);
      && Reachable(main, L, s) && s.w.current == a && StepsTo(s, L, YieldOp, s)
      && Waits(s.w, NORMPRIORITY - 1, main) && s.w.threads[a].priority == s.w.threads[main].priority
  {
    var s0, s1 := Initial(main), WithPlainFrames(Started(main, a, obj), main, a);
    var s := WithPlainFrames(Lowered(main, a, obj, NORMPRIORITY), main, a);
    hide RingsOk;
    hide StepsTo;
    hide Reachable;
    StartStep(main, L, a, obj);
    LowerStep(main, L, a, obj);
    YieldsStep(main, L, a, obj);
    MainWaits(main, a, obj);
    ReachableStates(main, L, s0, Start(a, obj, HIGHER), s1);
    ReachableStates(main, L, s1, ChangePriority(obj, NORMPRIORITY), s);
  }
}
