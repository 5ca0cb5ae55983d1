/** Which operands of the threads the collector sees: it reads each operand stack up to the published depth. */
module ScannedRoots {
  import opened HeapSlots
  import opened HeapSpec
  import opened ThreadSpec
  import opened Machines
  import opened RegisterEvents
  import opened Registers
  import opened Words

  /** What is in memory around the stacks of a thread: the word in front of its method stack, and what comes behind its
      operand stack. */
  datatype Around = Around(front: u2, behind: nat -> slot)

  /** The word that the collector takes for the operand depth.  For a thread that has never been parked it is not in the
      method stack, but in front of it. */
  function WordRead(st: Stacks, a: Around): u2
    requires WordOk(st)
  {
    if st.methodSpPos == 0 then a.front else st.calls[st.methodSpPos - 1]
  }

  /** The slots that it then reads. */
  function Scanned(st: Stacks, a: Around): (s: seq<slot>)
    requires WordOk(st)
    ensures |s| == WordRead(st, a) && forall k :: 0 <= k < |s| && k < OPSTACKSIZE ==> s[k] == st.op[k]
    ensures st.methodSpPos > 0 ==> s == st.op[..WordRead(st, a)]
  {
    seq(WordRead(st, a), k requires 0 <= k => if k < OPSTACKSIZE then st.op[k] else a.behind(k - OPSTACKSIZE))
  }

  /** The roots of a collection are what is scanned for each thread. */
  ghost predicate AreRoots(roots: Roots, stacks: map<Ptr, Stacks>, around: Ptr -> Around)
    requires WordsOk(stacks)
  {
    && (forall p :: p in stacks ==> Scanned(stacks[p], around(p)) in roots)
    && (forall t :: 0 <= t < |roots| ==> exists p :: p in stacks && roots[t] == Scanned(stacks[p], around(p)))
  }

  /** The operands of thread p: those of its machine. */
  function Operands(stacks: map<Ptr, Stacks>, current: Ptr, live: Machine, p: Ptr): seq<slot>
    requires OthersParked(stacks, current) && p in stacks
  {
    MachinesOf(stacks, current, live)[p].ops
  }

  /** The machine of the running thread has its operands on the stack of that thread. */
  ghost predicate RunsOn(st: Stacks, live: Machine) {
    Sized(st) && |live.ops| <= OPSTACKSIZE && st.op[..|live.ops|] == live.ops
  }

  /** What every state of the register file has. */
  ghost predicate StacksOk(stacks: map<Ptr, Stacks>, current: Ptr, live: Machine) {
    OthersParked(stacks, current) && WordsOk(stacks) && RunsOn(stacks[current], live)
  }

  lemma ValidStacks(rf: RegisterFile)
    requires rf.Valid()
    ensures rf.current in rf.stacks && StacksOk(rf.stacks, rf.current, rf.Live())
  {
  }

  lemma OperandScanned(stacks: map<Ptr, Stacks>, current: Ptr, live: Machine, p: Ptr, a: Around)
    requires StacksOk(stacks, current, live) && p in stacks
    ensures var mine, scanned := Operands(stacks, current, live, p), Scanned(stacks[p], a);
      && |mine| <= OPSTACKSIZE && (p != current ==> |mine| == WordRead(stacks[p], a))
      && forall k :: 0 <= k < |mine| && k < WordRead(stacks[p], a) ==> scanned[k] == mine[k]
  {
    if p == current {
      assert forall k :: 0 <= k < |live.ops| ==> live.ops[k] == stacks[p].op[..|live.ops|][k];
    } else {
      assert Parked(stacks[p]);
    }
  }

  /** All operands of all threads are scanned exactly if the word read for the running thread, which its last switch has
      written, which calls may have overwritten since, and which is no word of its stack before its first switch, is not
      below its real depth. */
  lemma AllOperandsScannedIff(stacks: map<Ptr, Stacks>, current: Ptr, live: Machine, around: Ptr -> Around)
    requires StacksOk(stacks, current, live)
    ensures (forall p :: p in stacks ==> Operands(stacks, current, live, p) <= Scanned(stacks[p], around(p))) <==>
      |live.ops| <= WordRead(stacks[current], around(current))
  {
    hide WordOk;
    hide Scanned;
    hide WordRead;
    forall p | p in stacks
      ensures Operands(stacks, current, live, p) <= Scanned(stacks[p], around(p)) <==>
        p != current || |live.ops| <= WordRead(stacks[current], around(current))
    {
      OperandScanned(stacks, current, live, p, around(p));
      ScannedLength(stacks[p], around(p));
    }
    assert current in stacks;
  }

  lemma ScannedLength(st: Stacks, a: Around)
    requires WordOk(st)
    ensures |Scanned(st, a)| == WordRead(st, a)
  {
  }

  /** Operand k of thread p names block b. */
  predicate Names(stacks: map<Ptr, Stacks>, current: Ptr, live: Machine, p: Ptr, k: nat, b: nat)
    requires OthersParked(stacks, current)
  {
    && p in stacks && k < |Operands(stacks, current, live, p)|
    && Operands(stacks, current, live, p)[k].RefMagic() == OBJECTMAGIC
    && Operands(stacks, current, live, p)[k].Pos() == b
  }

  /** An operand below the word read for its thread, whatever is read for the others, makes the block that it names a
      root. */
  lemma ScannedOperandIsRoot(stacks: map<Ptr, Stacks>, current: Ptr, live: Machine, around: Ptr -> Around, p: Ptr,
                             k: nat, b: nat,
                             m: Memory, s: seq<nat>, roots: Roots)
    requires StacksOk(stacks, current, live) && AreRoots(roots, stacks, around)
    requires (forall q :: q in s ==> q < |m|) && b in s
    requires Names(stacks, current, live, p, k, b) && k < WordRead(stacks[p], around(p))
    ensures Reachable(m, s, roots, b)
  {
    var stack := Scanned(stacks[p], around(p));
    OperandScanned(stacks, current, live, p, around(p));
    assert stack[k] == Operands(stacks, current, live, p)[k];
    hide WordOk;
    hide Scanned;
    hide Operands;
    hide OthersParked;
    assert OnStack(stack, b);
    var t :| 0 <= t < |roots| && roots[t] == stack;
    assert ReachableIn(m, s, roots, b, 0);
  }

  /** Then an allocation, whatever path it takes, leaves that block alone if it is in use. */
  lemma OperandSurvives(stacks: map<Ptr, Stacks>, current: Ptr, live: Machine, around: Ptr -> Around, p: Ptr, k: nat,
                        b: nat,
                        m: Memory, s: seq<nat>, top: nat, roots: Roots, length: u2, r: Allocation,
                        m2: Memory, s2: seq<nat>, top2: nat)
    requires StacksOk(stacks, current, live) && AreRoots(roots, stacks, around)
    requires Tiled(m, s, top) && length >= 1 && Allocates(m, s, top, roots, length, r, m2, s2, top2)
    requires b in s && m[b].status != FREESPACE
    requires Names(stacks, current, live, p, k, b) && (p != current || k < WordRead(stacks[p], around(p)))
    ensures b in s2 && Kept(m, m2, b)
    ensures (r.Allocated? ==> r.pos + m2[r.pos].Length() <= b || b + m[b].Length() <= r.pos)
  {
    hide Allocates;
    hide Kept;
    hide Adjacent;
    OperandScanned(stacks, current, live, p, around(p));
    ScannedOperandIsRoot(stacks, current, live, around, p, k, b, m, s, roots);
    AllocationSafe(m, s, top, roots, length, r, m2, s2, top2);
    assert Live(m, s, roots, b);
  }

  /** For every operand of every thread: the block in use that it names, unless it is the one at 0, survives a
      collection exactly if it is reachable from the roots, as it is if the operand is scanned.  Operands of parked
      threads all are. */
  lemma OperandFreedIff(stacks: map<Ptr, Stacks>, current: Ptr, live: Machine, around: Ptr -> Around, p: Ptr, k: nat,
                        b: nat,
                        m: Memory, s: seq<nat>, top: nat, roots: Roots, m2: Memory)
    requires StacksOk(stacks, current, live) && AreRoots(roots, stacks, around)
    requires Tiled(m, s, top) && Collected(m, m2, s, roots)
    requires b in s && b != 0 && m[b].status != FREESPACE && Names(stacks, current, live, p, k, b)
    ensures m2[b].status == FREESPACE <==> !Reachable(m, s, roots, b)
    ensures p != current || k < WordRead(stacks[p], around(p)) ==> m2[b].status != FREESPACE
  {
    hide Collected;
    hide Reachable;
    hide Adjacent;
    CollectionExact(m, m2, s, top, roots, b);
    OperandScanned(stacks, current, live, p, around(p));
    if p != current || k < WordRead(stacks[p], around(p)) {
      ScannedOperandIsRoot(stacks, current, live, around, p, k, b, m, s, roots);
    }
  }

  const BLOCK: slot := Slot(2, 0, 0, 1, 0, OBJECTMAGIC, 0, 0)     // a block in use with one slot
  const NOTHING: slot := Slot(0, 0, 0, 0, 0, 0, 0, 0)
  const REF0: slot := Slot(0, 0, 0, 0, 0, 0, 0, OBJECTMAGIC)       // references to the blocks at 0 and 1
  const REF1: slot := Slot(1, 0, 0, 0, 0, 0, 0, OBJECTMAGIC)

  /** Two blocks without contents.  The first is never swept; the second is freed iff no scanned slot names it. */
  lemma SecondBlock(roots: Roots, m2: Memory)
    requires Collected([BLOCK, BLOCK], m2, [0, 1], roots)
    ensures Tiled([BLOCK, BLOCK], [0, 1], 2) && (m2[1].status == FREESPACE <==> !OnSomeStack(roots, 1))
  {
    var m: Memory := [BLOCK, BLOCK];
    TwoBlocksTiled();
    if OnSomeStack(roots, 1) {
      assert ReachableIn(m, [0, 1], roots, 1, 0);
      assert Reachable(m, [0, 1], roots, 1);
    } else {
      OutsideClosedUnreachable(m, [0, 1], roots, {0}, 1);
    }
  }

  lemma TwoBlocksTiled()
    ensures Tiled([BLOCK, BLOCK], [0, 1], 2)
  {
    forall i | 0 <= i < 2 ensures Adjacent([BLOCK, BLOCK], [0, 1], 2, i) {
    }
  }

  // A thread whose word is out of date

  /** Main creates a thread with one local, and the scheduler switches to it. */
  method SwitchToNewThread() returns (rf: RegisterFile)
    ensures fresh(rf) && rf.Valid() && rf.current == 2 && rf.stacks.Keys == {1, 2} && rf.opSp == 1
    ensures rf.Live() == Machine(0, 0, 0, 0, [REF0], [])
    ensures OneWord(rf.stacks[1]) && OneWord(rf.stacks[2]) && rf.stacks[1].op[0] == NOTHING
    ensures rf.stacks[2].op[0] == REF0
  {
    hide NewStacks;
    hide OthersParked;
    hide MachinesOf;
    hide Unpark;
    hide Exec;
    hide WordOk;
    hide Published;
    var memory := Stacks(seq(OPSTACKSIZE, _ => NOTHING), seq(METHODSTACKSIZE, _ => 0), 0);
    rf := new RegisterFile(1, memory, 0, 0, 0, 1, NOTHING);
    assert memory.op[1..1] == [] && [NOTHING] + memory.op[1..1] == [NOTHING] && [REF0] + memory.op[1..1] == [REF0];
    NewStacksStart(memory, REF0);
    rf.LiveSizes();
    rf.CreateStacks(2, memory, 0, 0, 0, 1, REF0);
    rf.LiveSizes();
    rf.SwitchTo(2);
    rf.LiveSizes();
  }

  /** The word of the thread is 1. */
  predicate OneWord(st: Stacks) {
    Sized(st) && 1 <= st.methodSpPos <= METHODSTACKSIZE && PublishedDepth(st) == 1
  }

  lemma NewStacksStart(memory: Stacks, receiver: slot)
    requires Sized(memory)
    ensures var st := NewStacks(memory, 0, 0, 0, 1, receiver);
      OneWord(st) && st.methodSpPos == 5 && st.op[0] == receiver
  {
  }

  lemma OneSlotScanned(st: Stacks, a: Around)
    requires WordOk(st) && OneWord(st)
    ensures Scanned(st, a) == [st.op[0]]
  {
  }

  lemma RootsOfTwo(stacks: map<Ptr, Stacks>, around: Ptr -> Around)
    requires WordsOk(stacks) && stacks.Keys == {1, 2} && OneWord(stacks[1]) && OneWord(stacks[2])
    requires stacks[1].op[0] == NOTHING && stacks[2].op[0] == REF0
    ensures AreRoots([[NOTHING], [REF0]], stacks, around)
  {
    hide Scanned;
    hide WordOk;
    OneSlotScanned(stacks[1], around(1));
    OneSlotScanned(stacks[2], around(2));
    hide OneWord;
    var roots := [[NOTHING], [REF0]];
    assert roots[0] == Scanned(stacks[1], around(1)) && roots[1] == Scanned(stacks[2], around(2));
  }

  lemma FreedByAll()
    ensures Tiled([BLOCK, BLOCK], [0, 1], 2)
    ensures forall m2: Memory :: Collected([BLOCK, BLOCK], m2, [0, 1], [[NOTHING], [REF0]]) ==>
      m2[1].status == FREESPACE
  {
    var m: Memory, roots := [BLOCK, BLOCK], [[NOTHING], [REF0]];
    TwoBlocksTiled();
    forall m2: Memory | Collected(m, m2, [0, 1], roots) ensures m2[1].status == FREESPACE {
      SecondBlock(roots, m2);
      assert !OnStack(roots[0], 1) && !OnStack(roots[1], 1);
    }
  }

  /** A run of the register file after which a collection frees a block that a thread holds: the new thread allocates
      the block at 1 and has it on its operand stack.  Its published depth is that of its creation, 1, so that the
      new operand is not scanned. */
  method StaleDepthLosesAnOperand(around: Ptr -> Around) returns (rf: RegisterFile, m: Memory, roots: Roots)
    ensures fresh(rf) && rf.Valid() && rf.current == 2 && rf.stacks.Keys == {1, 2}
    ensures rf.Live() == Machine(0, 0, 0, 0, [REF0, REF1], []) && REF1.RefMagic() == OBJECTMAGIC && REF1.Pos() == 1
    ensures OneWord(rf.stacks[1]) && OneWord(rf.stacks[2])
    ensures AreRoots(roots, rf.stacks, around) && Tiled(m, [0, 1], 2) && m[1].status != FREESPACE
    ensures forall m2: Memory :: Collected(m, m2, [0, 1], roots) ==> m2[1].status == FREESPACE
  {
    hide MachinesOf;
    hide Exec;
    hide Scanned;
    hide OthersParked;
    hide WordOk;
    hide Published;
    hide AreRoots;
    hide Tiled;
    hide Collected;
    rf := SwitchToNewThread();
    rf.LiveSizes();
    ghost var was := rf.stacks;
    rf.OpStackPush(REF1);
    rf.LiveSizes();
    assert rf.stacks[2] == was[2].(op := was[2].op[1 := REF1]) && rf.stacks[1] == was[1];
    assert rf.stacks[2].op[..2] == [REF0, REF1];
    m, roots := [BLOCK, BLOCK], [[NOTHING], [REF0]];
    RootsOfTwo(rf.stacks, around);
    FreedByAll();
  }

  // The thread that is never switched out

  /** The stacks of main when it has an argument and a reference to the block at 1, and has never been parked. */
  function MainAlone(): Stacks {
    Stacks(seq(OPSTACKSIZE, i => if i == 1 then REF1 else NOTHING), seq(METHODSTACKSIZE, _ => 0), 0)
  }

  /** The start of the register file, and one push. */
  method NeverParkedMain() returns (rf: RegisterFile)
    ensures fresh(rf) && rf.Valid() && rf.current == 1 && rf.stacks == map[1 := MainAlone()]
    ensures rf.Live() == Machine(0, 0, 0, 0, [NOTHING, REF1], [])
  {
    hide MachinesOf;
    hide Exec;
    var memory := Stacks(seq(OPSTACKSIZE, _ => NOTHING), seq(METHODSTACKSIZE, _ => 0), 0);
    rf := new RegisterFile(1, memory, 0, 0, 0, 1, NOTHING);
    assert memory.op[1..1] == [] && [NOTHING] + memory.op[1..1] == [NOTHING];
    rf.LiveSizes();
    rf.OpStackPush(REF1);
    rf.LiveSizes();
    assert memory.op[0 := NOTHING][1 := REF1] == MainAlone().op;
  }

  /** In that state the word read is not the virtual machine's own, and decides on the block at 1: a collection frees
      it, although main holds it, iff the word is below 2. */
  lemma FrontWordDecides(around: Ptr -> Around, roots: Roots, m2: Memory)
    requires AreRoots(roots, map[1 := MainAlone()], around) && Collected([BLOCK, BLOCK], m2, [0, 1], roots)
    ensures m2[1].status == FREESPACE <==> around(1).front < 2
  {
    var stacks := map[1 := MainAlone()];
    var stack := Scanned(stacks[1], around(1));
    SecondBlock(roots, m2);
    assert stack in roots;
    var t :| 0 <= t < |roots| && roots[t] == stack;
    if around(1).front >= 2 {
      assert stack[1] == REF1;
      assert OnStack(roots[t], 1);
    } else {
      forall t | 0 <= t < |roots| ensures !OnStack(roots[t], 1) {
        assert roots[t] == stack;
      }
    }
  }

  /** Over all runs: the word read for a thread is in its method stack iff the thread is not main, or main has been
      switched out (or its address used again for a new thread).  Then it is small enough to stay inside the operand
      stack. */
  method WordsOfAnyRun(main: Ptr, memory: Stacks, classN: u1, methodN: u1, startPC: u2, maxLocals: nat, arg: slot,
                       events: seq<Event>) returns (rf: RegisterFile, ghost did: seq<Event>)
    requires Sized(memory) && 1 <= maxLocals <= OPSTACKSIZE
    ensures rf.Valid() && |did| <= |events| && forall k :: 0 <= k < |did| ==> Alike(events[k], did[k])
    ensures var first := Machine(startPC, classN, methodN, 0, [arg] + memory.op[1..maxLocals], []);
      var start := State(map[main := first], main);
      Run(start, did, rf.Abs()) && forall p :: p in rf.stacks ==>
        && (rf.stacks[p].methodSpPos > 0 <==> p != main || PublishedIn(start, did, main))
        && (rf.stacks[p].methodSpPos > 0 ==>
              rf.stacks[p].methodSpPos <= METHODSTACKSIZE && PublishedDepth(rf.stacks[p]) <= OPSTACKSIZE)
  {
    hide OthersParked;
    hide MachinesOf;
    rf := new RegisterFile(main, memory, classN, methodN, startPC, maxLocals, arg);
    ghost var start := rf.Abs();
    did := rf.Replay(events);
    rf.LiveSizes();
    forall p | p in rf.stacks ensures p in Published(rf.stacks) <==> p != main || PublishedIn(start, did, main) {
      PublishedIff({}, start, did, rf.Abs(), p);
    }
  }
}
