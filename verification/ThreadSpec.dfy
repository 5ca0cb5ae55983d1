/** The meaning of the thread operations, on values.

A World is what the control blocks, the ten priority lists and the mutex bits amount to once the links are
read off: the list of each priority level as a sequence that begins at the level's cursor.
*/
module ThreadSpec {
  import opened LockTables

  type Ptr = nat    // address of a thread control block

  const NULL: Ptr := 0
  const MAXPRIORITY := 10
  const MAXTHREADS := 46
  const MAXLOCKEDTHREADOBJECTS := 24

  datatype ThreadState = NotBlocked | MutexBlocked | WaitBlocked | WaitAwakened

  /** A control block without its links; waitsFor is isMutexBlockedOrWaitingForObject. */
  datatype Thread = Thread(obj: Option<Obj>, priority: int, numTicks: int, state: ThreadState,
                           waitsFor: Option<Obj>, locks: LockTable)

  type Rings = seq<seq<Ptr>>

  datatype World = World(rings: Rings, threads: map<Ptr, Thread>, current: Ptr, blocked: set<Obj>)
  {
    predicate Ok() {
      && current in threads
      && RingsOk(rings, threads)
      && forall p :: p in threads ==> |threads[p].locks.objs| == |threads[p].locks.counts| == MAXLOCKEDTHREADOBJECTS
    }

    function Set(p: Ptr, t: Thread): World {
      this.(threads := threads[p := t])
    }
  }

  /** Why the machine stops. */
  datatype Halt =
    | TooManyLocks | UnlockException | ThreadNotFound | TooManyThreads | SchedulingError | Terminated | NotOwned

  datatype Result = Ok(world: World) | Halted(why: Halt)

  // Lists

  predicate NoDuplicates(r: seq<Ptr>) {
    forall i, j :: 0 <= i < j < |r| ==> r[i] != r[j]
  }

  /** Each thread is in exactly one list, once: the list its priority names. */
  predicate RingsOk(rings: Rings, threads: map<Ptr, Thread>) {
    && |rings| == MAXPRIORITY
    && (forall i :: 0 <= i < MAXPRIORITY ==> NoDuplicates(rings[i]))
    && (forall i, p :: 0 <= i < MAXPRIORITY && p in rings[i] ==>
         p in threads && p != NULL && threads[p].priority == i + 1)
    && (forall p :: p in threads ==> 1 <= threads[p].priority <= MAXPRIORITY && p in rings[threads[p].priority - 1])
  }

  /** The lists depend on the control blocks only through their addresses and priorities. */
  lemma SamePrioritiesKeepRings(rings: Rings, threads: map<Ptr, Thread>, threads2: map<Ptr, Thread>)
    requires RingsOk(rings, threads) && threads2.Keys == threads.Keys
    requires forall p :: p in threads ==> threads2[p].priority == threads[p].priority
    ensures RingsOk(rings, threads2)
  {
    forall i, p | 0 <= i < MAXPRIORITY && p in rings[i]
      ensures p in threads2 && p != NULL && threads2[p].priority == i + 1
    {
      assert p in threads;
    }
    forall p | p in threads2
      ensures 1 <= threads2[p].priority <= MAXPRIORITY && p in rings[threads2[p].priority - 1]
    {
      assert p in threads;
    }
  }

  /** Changing a control block without touching its priority or its table sizes keeps the lists in order. */
  lemma SetKeepsOk(w: World, p: Ptr, t: Thread)
    requires w.Ok() && p in w.threads && t.priority == w.threads[p].priority
    requires |t.locks.objs| == |t.locks.counts| == MAXLOCKEDTHREADOBJECTS
    ensures w.Set(p, t).Ok() && w.Set(p, t).threads.Keys == w.threads.Keys
  {
    hide RingsOk;
    assert w.Set(p, t).threads.Keys == w.threads.Keys;
    SamePrioritiesKeepRings(w.rings, w.threads, w.Set(p, t).threads);
  }

  /** A new member goes right behind the cursor. */
  function InsertRing(r: seq<Ptr>, t: Ptr): seq<Ptr> {
    if r == [] then [t] else [r[0], t] + r[1..]
  }

  function IndexIn(r: seq<Ptr>, t: Ptr): (k: nat)
    requires t in r
    ensures k < |r| && r[k] == t && forall j :: 0 <= j < k ==> r[j] != t
  {
    if r[0] == t then 0 else 1 + IndexIn(r[1..], t)
  }

  function RotateTo(r: seq<Ptr>, k: nat): seq<Ptr>
    requires k <= |r|
  {
    r[k..] + r[..k]
  }

  /** Removing the cursor moves it back to its predecessor. */
  function RemoveRing(r: seq<Ptr>, t: Ptr): seq<Ptr>
    requires t in r
  {
    var k := IndexIn(r, t);
    if k == 0 && |r| > 1 then [r[|r| - 1]] + r[1..|r| - 1] else r[..k] + r[k + 1..]
  }

  /** All threads in the order the search loops meet them: level 1 first, each level from its cursor. */
  function Order(rings: Rings): seq<Ptr> {
    if rings == [] then [] else Order(rings[..|rings| - 1]) + rings[|rings| - 1]
  }

  /** The first thread in state st for object o. */
  function FirstFor(threads: map<Ptr, Thread>, order: seq<Ptr>, st: ThreadState, o: Obj): Option<Ptr> {
    if order == [] then None
    else if order[0] in threads && threads[order[0]].state == st && threads[order[0]].waitsFor == Some(o) then
      Some(order[0])
    else FirstFor(threads, order[1..], st, o)
  }

  // Monitors

  function Woken(t: Thread, o: Obj): Thread {
    if t.state == MutexBlocked && t.waitsFor == Some(o) then t.(state := NotBlocked, waitsFor := None) else t
  }

  function Awakened(t: Thread, o: Obj): Thread {
    if t.state == WaitBlocked && t.waitsFor == Some(o) then t.(state := WaitAwakened) else t
  }

  /** Every thread blocked on the mutex of o becomes runnable and will try again. */
  function WakeAll(threads: map<Ptr, Thread>, o: Obj): map<Ptr, Thread> {
    map p | p in threads :: Woken(threads[p], o)
  }

  /** Every thread waiting on o is awakened; it still needs the mutex. */
  function AwakenAll(threads: map<Ptr, Thread>, o: Obj): map<Ptr, Thread> {
    map p | p in threads :: Awakened(threads[p], o)
  }

  /** Entry of a synchronized method; `entered` tells whether the call goes ahead. */
  function SyncEnter(w: World, o: Obj): (Result, bool)
    requires w.Ok()
  {
    var t := w.threads[w.current];
    if o !in w.blocked then
      if t.locks.Full() then (Halted(TooManyLocks), false)
      else (Ok(w.(threads := w.threads[w.current := t.(waitsFor := None, locks := t.locks.Take(o))],
                  blocked := w.blocked + {o})), true)
    else if !t.locks.Holds(o) then
      (Ok(w.Set(w.current, t.(state := MutexBlocked, waitsFor := Some(o)))), false)
    else
      (Ok(w.Set(w.current, t.(locks := t.locks.Add(o, 1)))), true)
  }

  /** Return from a synchronized method of o, whose entry must be in the table. */
  function SyncExit(w: World, o: Obj): World
    requires w.Ok() && w.threads[w.current].locks.Holds(o)
  {
    var t := w.threads[w.current];
    if t.locks.CountOf(o) > 1 then
      w.Set(w.current, t.(locks := t.locks.Add(o, -1)))
    else
      var threads := w.threads[w.current := t.(waitsFor := None, locks := t.locks.Clear(o))];
      w.(threads := WakeAll(threads, o), blocked := w.blocked - {o})
  }

  function NativeWait(w: World, o: Obj): Result
    requires w.Ok()
  {
    if o !in w.blocked then Halted(NotOwned)
    else
      var threads := WakeAll(w.threads, o);
      Ok(w.(threads := threads[w.current := threads[w.current].(waitsFor := Some(o), state := WaitBlocked)],
            blocked := w.blocked - {o}))
  }

  function Notify(w: World, o: Obj): Result {
    if o !in w.blocked then Halted(NotOwned)
    else match FirstFor(w.threads, Order(w.rings), WaitBlocked, o) {
      case Some(p) => if p in w.threads then Ok(w.Set(p, w.threads[p].(state := WaitAwakened))) else Ok(w)
      case None => Ok(w)
    }
  }

  function NotifyAll(w: World, o: Obj): Result {
    if o !in w.blocked then Halted(NotOwned) else Ok(w.(threads := AwakenAll(w.threads, o)))
  }

  // Locks

  /** setMutexOnObject: takes the mutex for p if it is free, and blocks p otherwise. */
  function SetMutex(w: World, p: Ptr, o: Obj): Result
    requires w.Ok() && p in w.threads
  {
    var t := w.threads[p];
    if o !in w.blocked then
      if t.locks.Full() then Halted(TooManyLocks)
      else Ok(w.(threads := w.threads[p := t.(waitsFor := None, locks := t.locks.Take(o))], blocked := w.blocked + {o}))
    else
      Ok(w.Set(p, t.(state := MutexBlocked, waitsFor := Some(o), numTicks := 0)))
  }

  /** awakeThreadFromMutex: the first thread blocked on o gets the mutex at once. */
  function AwakeFromMutex(w: World, o: Obj): Result
    requires w.Ok()
  {
    match FirstFor(w.threads, Order(w.rings), MutexBlocked, o) {
      case Some(p) =>
        if p in w.threads then
          SetKeepsOk(w, p, w.threads[p].(state := NotBlocked));
          SetMutex(w.Set(p, w.threads[p].(state := NotBlocked)), p, o) else Ok(w)
      case None => Ok(w)
    }
  }

  /** releaseMutexOnObject with no given successor. */
  function ReleaseMutex(w: World, p: Ptr, o: Obj): Result
    requires w.Ok() && p in w.threads
  {
    var t := w.threads[p];
    if o !in w.blocked then Ok(w)
    else if !t.locks.Holds(o) then Halted(UnlockException)
    else if (t.locks.CountOf(o) - 1) % 0x100 != 0 then Ok(w.Set(p, t.(locks := t.locks.Add(o, -1))))
    else
      SetKeepsOk(w, p, t.(locks := t.locks.Clear(o)));
      AwakeFromMutex(w.(threads := w.threads[p := t.(locks := t.locks.Clear(o))], blocked := w.blocked - {o}), o)
  }

  function TryLock(w: World, o: Obj): (Result, bool)
    requires w.Ok()
  {
    if o in w.blocked then (Ok(w), false) else (SetMutex(w, w.current, o), true)
  }

  // Thread life

  const NORMPRIORITY := 5

  /** A control block as createThread fills it in. */
  function FreshThread(obj: Option<Obj>, priority: int): Thread {
    Thread(obj, priority, priority, NotBlocked, None,
           LockTable(seq(MAXLOCKEDTHREADOBJECTS, i => None), seq(MAXLOCKEDTHREADOBJECTS, i => 0)))
  }

  /** The world of the main thread alone. */
  function InitialWorld(main: Ptr): World {
    World(seq(MAXPRIORITY, i => if i == NORMPRIORITY - 1 then [main] else []),
          map[main := FreshThread(None, NORMPRIORITY)], main, {})
  }

  function Insert(w: World, p: Ptr): World
    requires w.Ok() || (p in w.threads && w.current in w.threads && |w.rings| == MAXPRIORITY)
    requires p in w.threads && 1 <= w.threads[p].priority <= MAXPRIORITY
  {
    var prio := w.threads[p].priority - 1;
    var w1 := w.(rings := w.rings[prio := InsertRing(w.rings[prio], p)]);
    if w.threads[w.current].priority - 1 < prio
    then w1.Set(w.current, w.threads[w.current].(numTicks := 0)) else w1
  }

  function Remove(w: World, p: Ptr): World
    requires p in w.threads && |w.rings| == MAXPRIORITY && 1 <= w.threads[p].priority <= MAXPRIORITY
    requires p in w.rings[w.threads[p].priority - 1]
  {
    var prio := w.threads[p].priority - 1;
    w.(rings := w.rings[prio := RemoveRing(w.rings[prio], p)])
  }

  /** createThread for a started Java thread object; p is the fresh control block. */
  function Create(w: World, p: Ptr, obj: Obj, priority: int): Result
    requires w.Ok() && p !in w.threads && 1 <= priority <= MAXPRIORITY
  {
    if |w.threads| == MAXTHREADS then Halted(TooManyThreads)
    else
      Ok(Insert(w.Set(p, FreshThread(Some(obj), priority)), p))
  }

  /** The highest level that has a thread. */
  function TopLevel(rings: Rings, i: nat): (top: int)
    requires i <= |rings|
    ensures -1 <= top < i && (top >= 0 ==> rings[top] != []) && forall j :: top < j < i ==> rings[j] == []
  {
    if i == 0 then -1 else if rings[i - 1] != [] then i - 1 else TopLevel(rings, i - 1)
  }

  /** deleteThread: the current thread goes; the cursor of the highest level becomes current. */
  function Delete(w: World): World
    requires w.Ok()
  {
    var w1 := Remove(w, w.current);
    var top := TopLevel(w1.rings, MAXPRIORITY);
    w1.(threads := w1.threads - {w.current}, current := if top >= 0 then w1.rings[top][0] else NULL)
  }

  /** findThreadCB: the thread of a Java object; the search leaves the level's cursor on it. */
  function FindLevel(w: World, obj: Obj, i: nat): (found: Option<(nat, nat)>)
    requires i <= |w.rings|
    ensures found.Some? ==> found.value.0 < |w.rings| && found.value.1 < |w.rings[found.value.0]|
    decreases |w.rings| - i
  {
    if i == |w.rings| then None
    else match FindObj(w.threads, w.rings[i], obj)
      case Some(k) => Some((i, k))
      case None => FindLevel(w, obj, i + 1)
  }

  function FindObj(threads: map<Ptr, Thread>, r: seq<Ptr>, obj: Obj): (found: Option<nat>)
    ensures found.Some? ==> found.value < |r| && r[found.value] in threads && threads[r[found.value]].obj == Some(obj)
  {
    if r == [] then None
    else if r[0] in threads && threads[r[0]].obj == Some(obj) then Some(0)
    else match FindObj(threads, r[1..], obj) case Some(k) => Some(k + 1) case None => None
  }

  function FindThread(w: World, obj: Obj): Option<(World, Ptr)> {
    match FindLevel(w, obj, 0)
    case None => None
    case Some(at) =>
      Some((w.(rings := w.rings[at.0 := RotateTo(w.rings[at.0], at.1)]), w.rings[at.0][at.1]))
  }

  /** nativeSetPriority on the live thread of obj. */
  function SetPriority(w: World, obj: Obj, newPrio: int): Result
    requires w.Ok() && 1 <= newPrio <= MAXPRIORITY
  {
    match FindThread(w, obj)
    case None => Halted(ThreadNotFound)
    case Some(f) =>
      var (w1, p) := f;
      if p !in w.threads || p !in w1.rings[w.threads[p].priority - 1] then Halted(ThreadNotFound)
      else if newPrio == w.threads[p].priority then Ok(w)
      else
        var w2 := Remove(w1, p);
        Ok(Insert(w2.Set(p, w2.threads[p].(priority := newPrio)), p))
  }

  function Yield(w: World): World
    requires w.Ok()
  {
    w.Set(w.current, w.threads[w.current].(numTicks := 0))
  }

  // Scheduling

  predicate Eligible(t: Thread, blocked: set<Obj>) {
    t.state == NotBlocked || (t.state == WaitAwakened && t.waitsFor.Some? && t.waitsFor.value !in blocked)
  }

  function FirstEligible(threads: map<Ptr, Thread>, blocked: set<Obj>, order: seq<Ptr>): (f: Option<Ptr>)
    ensures f.Some? ==> f.value in order && f.value in threads && Eligible(threads[f.value], blocked)
    ensures f.None? ==> forall p :: p in order && p in threads ==> !Eligible(threads[p], blocked)
  {
    if order == [] then None
    else if order[0] in threads && Eligible(threads[order[0]], blocked) then Some(order[0])
    else FirstEligible(threads, blocked, order[1..])
  }

  /** An awakened thread still names the object it waited for; the scheduler follows that name. */
  predicate AwakenedHaveObjects(threads: map<Ptr, Thread>) {
    forall p :: p in threads && threads[p].state == WaitAwakened ==> threads[p].waitsFor.Some?
  }

  /** The order in which a level is tried: from behind the cursor round to the cursor itself. */
  function Trial(r: seq<Ptr>): seq<Ptr> {
    if r == [] then [] else r[1..] + [r[0]]
  }

  /** The choice among the levels below i, highest level first. */
  function Select(w: World, i: nat): (chosen: Option<Ptr>)
    requires i <= |w.rings|
    ensures chosen.Some? ==> chosen.value in w.threads && Eligible(w.threads[chosen.value], w.blocked)
  {
    if i == 0 then None
    else match FirstEligible(w.threads, w.blocked, Trial(w.rings[i - 1]))
      case Some(p) => Some(p)
      case None => Select(w, i - 1)
  }

  /** An awakened thread that is chosen takes the mutex it waited for. */
  function Admit(w: World, p: Ptr): (w1: World)
    requires p in w.threads && w.Ok()
    ensures w1.Ok() && w1.threads.Keys == w.threads.Keys
  {
    var t := w.threads[p];
    if t.state == WaitAwakened && t.waitsFor.Some? then
      SetKeepsOk(w, p, t.(state := NotBlocked, waitsFor := None));
      w.(threads := w.threads[p := t.(state := NotBlocked, waitsFor := None)],
         blocked := w.blocked + {t.waitsFor.value})
    else w
  }

  /** Makes p the running thread, with a fresh slice, and puts its level's cursor on it. */
  function Dispatch(w: World, p: Ptr): World
    requires p in w.threads && w.current in w.threads && RingsOk(w.rings, w.threads)
  {
    var t := w.threads[p];
    var w1 := w.Set(p, t.(numTicks := t.priority));
    if p == w.current then w1
    else
      var r := w.rings[t.priority - 1];
      w1.(current := p, rings := w.rings[t.priority - 1 := RotateTo(r, IndexIn(r, p))])
  }

  function Tick(w: World): (w1: World)
    requires w.Ok()
    ensures w1.Ok() && w1.threads.Keys == w.threads.Keys
  {
    var t := w.threads[w.current].(numTicks := (w.threads[w.current].numTicks - 1) % 0x100);
    SetKeepsOk(w, w.current, t);
    w.Set(w.current, t)
  }

  function Switch(w: World): Result
    requires w.Ok()
  {
    match Select(w, MAXPRIORITY)
    case None => Halted(SchedulingError)
    case Some(p) => Ok(Dispatch(Admit(w, p), p))
  }

  /** What scheduler() does after every bytecode. */
  function Schedule(w: World): Result
    requires w.Ok()
  {
    if |w.threads| == 1 then Ok(w)
    else if w.threads[w.current].numTicks != 0 && w.threads[w.current].state == NotBlocked then Ok(Tick(w))
    else Switch(Tick(w))
  }
}
