/** One set of global registers multiplexed over the stacks of all threads. */
module Registers {
  import opened HeapSlots
  import opened ThreadSpec
  import opened Machines
  import opened RegisterEvents
  import opened Words

  /** The stack memory of one thread, and how high its method stack was when it last stopped running. */
  datatype Stacks = Stacks(op: seq<slot>, calls: seq<u2>, methodSpPos: nat)

  predicate Sized(st: Stacks) {
    |st.op| == OPSTACKSIZE && |st.calls| == METHODSTACKSIZE
  }

  /** A thread that is not running has its registers in the five words below methodSpPos. */
  predicate Parked(st: Stacks) {
    && Sized(st) && 5 <= st.methodSpPos <= METHODSTACKSIZE && st.calls[st.methodSpPos - 1] <= OPSTACKSIZE
    && st.calls[st.methodSpPos - 3] < 0x100 && st.calls[st.methodSpPos - 4] < 0x100
    && st.calls[st.methodSpPos - 5] < 0x100
  }

  function Unpark(st: Stacks): Machine
    requires Parked(st)
  {
    var n := st.methodSpPos;
    Machine(st.calls[n - 2], st.calls[n - 4], st.calls[n - 3], st.calls[n - 5],
            st.op[..st.calls[n - 1]], st.calls[..n - 5])
  }

  /** The place of the word up to which heap.c scans the operand stack is behind a whole number of frames, and what is
      there is small enough.  A thread that has never been parked has no such word. */
  predicate WordOk(st: Stacks) {
    && Sized(st) && st.methodSpPos % 5 == 0 && st.methodSpPos <= METHODSTACKSIZE
    && (st.methodSpPos > 0 ==> st.calls[st.methodSpPos - 1] <= OPSTACKSIZE)
  }

  predicate WordsOk(stacks: map<Ptr, Stacks>) {
    forall p :: p in stacks ==> WordOk(stacks[p])
  }

  /** The threads that have such a word. */
  function Published(stacks: map<Ptr, Stacks>): set<Ptr> {
    set p | p in stacks && stacks[p].methodSpPos > 0
  }

  lemma SamePlace(stacks: map<Ptr, Stacks>, p: Ptr, st: Stacks)
    requires p in stacks && st.methodSpPos == stacks[p].methodSpPos
    ensures Published(stacks[p := st]) == Published(stacks)
  {
  }

  /** A frame on top of a whole number of frames writes a depth where a word can be, or leaves the word alone. */
  lemma FrameKeepsWord(st: Stacks, calls: seq<u2>, sp: nat)
    requires WordOk(st) && sp % 5 == 0 && |calls| == METHODSTACKSIZE && sp + 5 <= METHODSTACKSIZE
    requires calls[sp + 4] <= OPSTACKSIZE
    requires forall k :: 0 <= k < METHODSTACKSIZE && !(sp <= k < sp + 5) ==> calls[k] == st.calls[k]
    ensures WordOk(st.(calls := calls))
  {
  }

  /** heap.c scans the operand stack of each thread up to this word. */
  function PublishedDepth(st: Stacks): nat
    requires Sized(st) && 1 <= st.methodSpPos <= METHODSTACKSIZE
  {
    st.calls[st.methodSpPos - 1]
  }

  predicate OthersParked(stacks: map<Ptr, Stacks>, current: Ptr) {
    current in stacks && Sized(stacks[current]) && forall p :: p in stacks && p != current ==> Parked(stacks[p])
  }

  /** The machines of all threads when the current one's is `live`. */
  function MachinesOf(stacks: map<Ptr, Stacks>, current: Ptr, live: Machine): map<Ptr, Machine>
    requires OthersParked(stacks, current)
  {
    map p | p in stacks :: if p == current then live else Unpark(stacks[p])
  }

  lemma LiveChanges(stacks: map<Ptr, Stacks>, current: Ptr, live: Machine, st: Stacks, live2: Machine)
    requires OthersParked(stacks, current) && Sized(st)
    ensures OthersParked(stacks[current := st], current)
    ensures MachinesOf(stacks[current := st], current, live2) == MachinesOf(stacks, current, live)[current := live2]
  {
    hide Parked;
    hide Unpark;
  }

  lemma LiveStays(stacks: map<Ptr, Stacks>, current: Ptr, live: Machine, st: Stacks)
    requires OthersParked(stacks, current) && Sized(st)
    ensures OthersParked(stacks[current := st], current)
    ensures MachinesOf(stacks[current := st], current, live) == MachinesOf(stacks, current, live)
  {
    hide Parked;
    hide Unpark;
  }

  lemma Exchange(stacks: map<Ptr, Stacks>, current: Ptr, live: Machine, st: Stacks, found: Ptr)
    requires OthersParked(stacks, current) && Parked(st) && Unpark(st) == live && found in stacks && found != current
    ensures OthersParked(stacks[current := st], found) && Parked(stacks[found])
    ensures stacks[current := st][found] == stacks[found]
    ensures MachinesOf(stacks[current := st], found, Unpark(stacks[found])) == MachinesOf(stacks, current, live)
  {
    assert Sized(stacks[found]);
    hide Unpark;
    assert stacks[current := st].Keys == stacks.Keys;
  }

  lemma Leave(stacks: map<Ptr, Stacks>, current: Ptr, live: Machine, next: Ptr)
    requires OthersParked(stacks, current) && next in stacks && next != current
    ensures OthersParked(stacks - {current}, next) && Parked(stacks[next]) && (stacks - {current})[next] == stacks[next]
    ensures MachinesOf(stacks - {current}, next, Unpark(stacks[next])) == MachinesOf(stacks, current, live) - {current}
  {
    assert Sized(stacks[next]);
    hide Unpark;
  }

  lemma Join(stacks: map<Ptr, Stacks>, current: Ptr, live: Machine, p: Ptr, st: Stacks, live2: Machine)
    requires OthersParked(stacks, current) && p !in stacks && Parked(st)
    ensures OthersParked(stacks[p := st], current)
    ensures MachinesOf(stacks[p := st], current, live2) ==
      MachinesOf(stacks, current, live)[current := live2][p := Unpark(st)]
  {
    hide Unpark;
  }

  lemma SwitchWords(stacks: map<Ptr, Stacks>, current: Ptr, st: Stacks)
    requires WordsOk(stacks) && current in stacks && Parked(st) && st.methodSpPos % 5 == 0
    ensures WordsOk(stacks[current := st]) && Published(stacks[current := st]) == Published(stacks) + {current}
  {
  }

  lemma ParkedPlace(st: Stacks)
    requires WordOk(st) && Parked(st)
    ensures (st.methodSpPos - 5) % 5 == 0
  {
  }

  lemma ExitWords(stacks: map<Ptr, Stacks>, current: Ptr)
    requires WordsOk(stacks)
    ensures WordsOk(stacks - {current}) && Published(stacks - {current}) == Published(stacks) - {current}
  {
    hide WordOk;
  }

  lemma CreateWords(stacks: map<Ptr, Stacks>, p: Ptr, st: Stacks)
    requires WordsOk(stacks) && WordOk(st) && st.methodSpPos > 0
    ensures WordsOk(stacks[p := st]) && Published(stacks[p := st]) == Published(stacks) + {p}
  {
    hide WordOk;
  }

  /** The registers pushed on top of m's method stack, and m's operand depth, give m back. */
  lemma UnparkFrame(m: Machine, st: Stacks)
    requires Sized(st) && |m.ops| <= OPSTACKSIZE && st.op[..|m.ops|] == m.ops
    requires st.methodSpPos == |m.methods| + 5 <= METHODSTACKSIZE
    requires st.calls[..st.methodSpPos] == m.methods + [m.local, m.cN, m.mN, m.pc, |m.ops|]
    ensures Parked(st) && Unpark(st) == m && PublishedDepth(st) == |m.ops|
  {
    var n := st.methodSpPos;
    var words := st.calls[..n];
    assert words[n - 1] == |m.ops| && words[n - 2] == m.pc && words[n - 3] == m.mN;
    assert words[n - 4] == m.cN && words[n - 5] == m.local;
    assert st.calls[..n - 5] == words[..n - 5] == m.methods;
  }

  /** The stacks of a thread that createThread has prepared in `memory`. */
  function NewStacks(memory: Stacks, classN: u1, methodN: u1, startPC: u2, maxLocals: nat, receiver: slot): Stacks
    requires Sized(memory) && 1 <= maxLocals <= OPSTACKSIZE
  {
    Stacks(memory.op[0 := receiver], [0, classN, methodN, startPC, maxLocals] + memory.calls[5..], 5)
  }

  lemma NewStacksParked(memory: Stacks, classN: u1, methodN: u1, startPC: u2, maxLocals: nat, receiver: slot)
    requires Sized(memory) && 1 <= maxLocals <= OPSTACKSIZE
    ensures var st := NewStacks(memory, classN, methodN, startPC, maxLocals, receiver);
      && Parked(st) && PublishedDepth(st) == maxLocals && WordOk(st) && st.methodSpPos > 0
      && Unpark(st) == Machine(startPC, classN, methodN, 0, [receiver] + memory.op[1..maxLocals], [])
  {
    var st := NewStacks(memory, classN, methodN, startPC, maxLocals, receiver);
    UnparkFrame(Machine(startPC, classN, methodN, 0, [receiver] + memory.op[1..maxLocals], []), st);
  }

  class RegisterFile {
    var pc: u2
    var cN: u1
    var mN: u1
    var local: u1
    var opSp: nat
    var methodSp: nat
    var current: Ptr
    var stacks: map<Ptr, Stacks>

    predicate Valid()
      reads this
    {
      && OthersParked(stacks, current) && opSp <= OPSTACKSIZE && methodSp <= METHODSTACKSIZE
      && WordsOk(stacks) && methodSp % 5 == 0
    }

    /** The machine of the running thread, read off the registers. */
    function Live(): Machine
      requires current in stacks && Sized(stacks[current]) && opSp <= OPSTACKSIZE && methodSp <= METHODSTACKSIZE
      reads this
    {
      Machine(pc, cN, mN, local, stacks[current].op[..opSp], stacks[current].calls[..methodSp])
    }

    /** The private machine of every thread. */
    function AllMachines(): map<Ptr, Machine>
      requires Valid()
      reads this
    {
      MachinesOf(stacks, current, Live())
    }

    function Abs(): State
      requires Valid()
      reads this
    {
      State(AllMachines(), current)
    }

    /** The start of the virtual machine: createThread for main, whose stacks are empty, and main with its argument. */
    constructor (main: Ptr, memory: Stacks, classN: u1, methodN: u1, startPC: u2, maxLocals: nat, arg: slot)
      requires Sized(memory) && 1 <= maxLocals <= OPSTACKSIZE
      ensures Valid()
      ensures var first := Machine(startPC, classN, methodN, 0, [arg] + memory.op[1..maxLocals], []);
        Abs() == State(map[main := first], main)
      ensures stacks == map[main := Stacks(memory.op[0 := arg], memory.calls, 0)] && Published(stacks) == {}
      ensures current == main && pc == startPC && cN == classN && mN == methodN
      ensures local == 0 && opSp == maxLocals && methodSp == 0
    {
      current := main;
      pc, cN, mN, local := startPC, classN, methodN, 0;
      methodSp := 0;
      opSp := maxLocals;
      stacks := map[main := Stacks(memory.op[0 := arg], memory.calls, 0)];
      new;
      assert stacks[main].op[..maxLocals] == [arg] + memory.op[1..maxLocals];
      assert AllMachines() == map[main := Live()];
    }

    method MethodStackPush(val: u2)
      requires current in stacks && Sized(stacks[current]) && methodSp < METHODSTACKSIZE
      modifies this`stacks, this`methodSp
      ensures stacks ==
        old(stacks)[current := old(stacks)[current].(calls := old(stacks)[current].calls[old(methodSp) := val])]
      ensures methodSp == old(methodSp) + 1
    {
      var st := stacks[current];
      stacks := stacks[current := st.(calls := st.calls[methodSp := val])];
      methodSp := methodSp + 1;
    }

    method MethodStackPop() returns (val: u2)
      requires current in stacks && 1 <= methodSp <= |stacks[current].calls|
      modifies this`methodSp
      ensures methodSp == old(methodSp) - 1 && val == stacks[current].calls[methodSp]
    {
      methodSp := methodSp - 1;
      val := stacks[current].calls[methodSp];
    }

    /** Pushes a frame: local, class, method, a pc and an operand depth. */
    method PushFrame(savedPc: u2, depth: u2)
      requires current in stacks && Sized(stacks[current]) && methodSp + 5 <= METHODSTACKSIZE
      modifies this`stacks, this`methodSp
      ensures methodSp == old(methodSp) + 5 && stacks.Keys == old(stacks).Keys && Sized(stacks[current])
      ensures stacks == old(stacks)[current := old(stacks)[current].(calls := stacks[current].calls)]
      ensures stacks[current].calls[..methodSp] ==
        old(stacks[current].calls[..methodSp]) + [local, cN, mN, savedPc, depth]
      ensures stacks[current].calls[methodSp - 1] == depth
      ensures forall k :: 0 <= k < METHODSTACKSIZE && !(old(methodSp) <= k < methodSp) ==>
        stacks[current].calls[k] == old(stacks[current].calls[k])
    {
      ghost var below := stacks[current].calls[..methodSp];
      MethodStackPush(local);
      MethodStackPush(cN);
      MethodStackPush(mN);
      MethodStackPush(savedPc);
      MethodStackPush(depth);
      assert stacks[current].calls[..methodSp] == below + [local, cN, mN, savedPc, depth];
    }

    /** Pops a frame into the registers; the operand depth becomes the new one. */
    method PopFrame()
      requires current in stacks && 5 <= methodSp <= |stacks[current].calls|
      modifies this`pc, this`cN, this`mN, this`local, this`opSp, this`methodSp
      ensures methodSp == old(methodSp) - 5
      ensures opSp == stacks[current].calls[methodSp + 4] && pc == stacks[current].calls[methodSp + 3]
      ensures mN == Wrap8(stacks[current].calls[methodSp + 2]) && cN == Wrap8(stacks[current].calls[methodSp + 1])
      ensures local == Wrap8(stacks[current].calls[methodSp])
    {
      opSp := MethodStackPop();
      pc := MethodStackPop();
      var word := MethodStackPop();
      mN := Wrap8(word);
      word := MethodStackPop();
      cN := Wrap8(word);
      word := MethodStackPop();
      local := Wrap8(word);
    }

    /** Sets the stack pointers of the current thread and pops its registers. */
    method LoadRegisters()
      requires current in stacks && Parked(stacks[current])
      modifies this`pc, this`cN, this`mN, this`local, this`opSp, this`methodSp
      ensures opSp <= OPSTACKSIZE && methodSp <= METHODSTACKSIZE && Sized(stacks[current])
      ensures Live() == Unpark(stacks[current])
      ensures methodSp == stacks[current].methodSpPos - 5
    {
      methodSp := stacks[current].methodSpPos;
      PopFrame();
    }

    /** Pushes the registers and remembers how high the method stack is now. */
    method SaveRegisters()
      requires Valid() && methodSp + 5 <= METHODSTACKSIZE
      modifies this`stacks, this`methodSp
      ensures current in stacks && stacks == old(stacks)[current := stacks[current]]
      ensures stacks[current].op == old(stacks[current].op)
      ensures Parked(stacks[current]) && Unpark(stacks[current]) == old(Live())
      ensures PublishedDepth(stacks[current]) == |old(Live()).ops|
      ensures stacks[current].methodSpPos == old(methodSp) + 5
    {
      hide Unpark;
      hide Parked;
      PushFrame(pc, Wrap16(opSp));
      hide OthersParked;
      var parked := stacks[current].(methodSpPos := methodSp);
      stacks := stacks[current := parked];
      UnparkFrame(old(Live()), parked);
    }

    /** The second half of scheduler(): the running thread is parked and `found` takes its place. */
    method SwitchTo(found: Ptr)
      requires Valid() && Possible(Abs(), SwitchEvent(found))
      modifies this
      ensures Valid() && Abs() == After(old(Abs()), SwitchEvent(found))
      ensures current == found && AllMachines() == old(AllMachines()) && found in stacks
      ensures Live() == old(AllMachines())[found]
      ensures old(current) in stacks && stacks == old(stacks)[old(current) := stacks[old(current)]]
      ensures stacks[old(current)].op == old(stacks[current].op)
      ensures Parked(stacks[old(current)]) && PublishedDepth(stacks[old(current)]) == |old(Live()).ops|
      ensures Published(stacks) == PublishedAfter(old(Published(stacks)), old(Abs()), SwitchEvent(found))
    {
      hide OthersParked;
      hide Unpark;
      hide MachinesOf;
      hide PublishedDepth;
      hide Parked;
      hide WordOk;
      hide Published;
      hide Exec;
      LiveSizes();
      ghost var was, me, live := stacks, current, Live();
      SaveRegisters();
      SwitchWords(was, me, stacks[me]);
      Exchange(was, me, live, stacks[me], found);
      ParkedPlace(stacks[found]);
      current := found;
      LoadRegisters();
      LiveSizes();
    }

    /** deleteThread: the stacks of the running thread go, and `next` takes its place. */
    method ExitTo(next: Ptr)
      requires Valid() && Possible(Abs(), ExitEvent(next))
      modifies this
      ensures Valid() && Abs() == After(old(Abs()), ExitEvent(next)) && stacks == old(stacks) - {old(current)}
      ensures current == next && AllMachines() == old(AllMachines()) - {old(current)}
      ensures Published(stacks) == PublishedAfter(old(Published(stacks)), old(Abs()), ExitEvent(next))
    {
      hide OthersParked;
      hide Unpark;
      hide MachinesOf;
      hide Exec;
      hide Published;
      hide WordOk;
      LiveSizes();
      Leave(stacks, current, Live(), next);
      ExitWords(stacks, current);
      ParkedPlace(stacks[next]);
      stacks := stacks - {current};
      current := next;
      LoadRegisters();
    }

    /** createThread: the new thread is parked where its run method begins, with its Java object as local 0.  The
        class and method registers of the creator are left at those of run. */
    method CreateStacks(p: Ptr, memory: Stacks, classN: u1, methodN: u1, startPC: u2, maxLocals: nat, receiver: slot)
      requires Valid() && p !in stacks && Sized(memory) && 1 <= maxLocals <= OPSTACKSIZE
      modifies this
      ensures Valid() && stacks == old(stacks)[p := NewStacks(memory, classN, methodN, startPC, maxLocals, receiver)]
      ensures PublishedDepth(stacks[p]) == maxLocals
      ensures Abs() == After(old(Abs()), CreateEvent(p, classN, methodN, startPC, [receiver] + memory.op[1..maxLocals]))
      ensures Published(stacks) == old(Published(stacks)) + {p}
      ensures p in AllMachines() && var m := AllMachines()[p];
        && m.pc == startPC && m.cN == classN && m.mN == methodN && m.local == 0 && m.methods == []
        && |m.ops| == maxLocals && m.ops[0] == receiver
      ensures current == old(current) && cN == classN && mN == methodN
      ensures pc == old(pc) && local == old(local) && opSp == old(opSp) && methodSp == old(methodSp)
    {
      hide Parked;
      hide Unpark;
      hide WordOk;
      ghost var was, live := stacks, Live();
      ghost var m := Machine(startPC, classN, methodN, 0, [receiver] + memory.op[1..maxLocals], []);
      cN := classN;
      mN := methodN;
      var block := NewStacks(memory, classN, methodN, startPC, maxLocals, receiver);
      NewStacksParked(memory, classN, methodN, startPC, maxLocals, receiver);
      CreateWords(stacks, p, block);
      Join(was, current, live, p, block, Live());
      hide OthersParked;
      hide MachinesOf;
      hide NewStacks;
      hide Exec;
      stacks := stacks[p := block];
    }

    // The running thread

    /** The frame of the caller is pushed and the registers are those of the callee. */
    method EnterMethod(base: nat, top: nat, classN: u1, methodN: u1, startPC: u2)
      requires current in stacks && Sized(stacks[current]) && base <= OPSTACKSIZE && methodSp + 5 <= METHODSTACKSIZE
      requires WordOk(stacks[current]) && methodSp % 5 == 0
      modifies this
      ensures current == old(current) && current in stacks && Sized(stacks[current])
      ensures WordOk(stacks[current]) && stacks[current].methodSpPos == old(stacks[current].methodSpPos)
      ensures stacks == old(stacks)[current := stacks[current]] && stacks[current].op == old(stacks[current].op)
      ensures methodSp == old(methodSp) + 5 <= METHODSTACKSIZE && opSp == top && pc == startPC
      ensures local == Wrap8(base) && cN == classN && mN == methodN
      ensures stacks[current].calls[..methodSp] == old(stacks[current].calls[..methodSp] + [local, cN, mN, pc, base])
    {
      ghost var st, sp := stacks[current], methodSp;
      PushFrame(pc, Wrap16(base));
      FrameKeepsWord(st, stacks[current].calls, sp);
      local := Wrap8(base);
      cN := classN;
      mN := methodN;
      opSp := top;
      pc := startPC;
    }

    /** The register file after the running thread has changed its own machine. */
    lemma LocalEvent(was: map<Ptr, Stacks>, m: Machine, op: Bytecode)
      requires OthersParked(was, current) && opSp <= OPSTACKSIZE && methodSp <= METHODSTACKSIZE
      requires current in stacks && Sized(stacks[current]) && stacks == was[current := stacks[current]]
      requires HasRoom(m, op) && Live() == Exec(m, op)
      requires WordsOk(was) && WordOk(stacks[current]) && methodSp % 5 == 0
      requires stacks[current].methodSpPos == was[current].methodSpPos
      ensures Published(stacks) == Published(was)
      ensures Valid() && Possible(State(MachinesOf(was, current, m), current), Local(op))
      ensures Abs() == After(State(MachinesOf(was, current, m), current), Local(op))
    {
      hide HasRoom;
      hide Exec;
      LiveChanges(was, current, m, stacks[current], Live());
      SamePlace(was, current, stacks[current]);
      hide WordOk;
      assert MachinesOf(was, current, m)[current] == m;
      hide MachinesOf;
      hide OthersParked;
    }

    method OpStackPush(val: slot)
      requires Valid() && opSp < OPSTACKSIZE
      modifies this`stacks, this`opSp
      ensures Valid() && Abs() == After(old(Abs()), Local(PushOp(val))) && opSp == old(opSp) + 1
      ensures Published(stacks) == old(Published(stacks))
      ensures stacks == old(stacks)[current := old(stacks)[current].(op := old(stacks)[current].op[old(opSp) := val])]
    {
      ghost var was, m := stacks, Live();
      hide Parked;
      hide Unpark;
      hide MachinesOf;
      var st := stacks[current];
      stacks := stacks[current := st.(op := st.op[opSp := val])];
      opSp := opSp + 1;
      assert stacks[current].op[..opSp] == m.ops + [val];
      LocalEvent(was, m, PushOp(val));
    }

    method OpStackPop() returns (val: slot)
      requires Valid() && opSp > 0
      modifies this`opSp
      ensures Valid() && Abs() == After(old(Abs()), Local(PopOp)) && val == old(stacks[current].op[opSp - 1])
      ensures opSp == old(opSp) - 1
      ensures Published(stacks) == old(Published(stacks))
    {
      ghost var was, m := stacks, Live();
      hide Parked;
      hide Unpark;
      hide MachinesOf;
      opSp := opSp - 1;
      val := stacks[current].op[opSp];
      assert stacks[current].op[..opSp] == m.ops[..|m.ops| - 1];
      assert stacks == was[current := stacks[current]];
      LocalEvent(was, m, PopOp);
    }

    /** opStackSetValue(local + i, val) */
    method StoreValue(i: nat, val: slot)
      requires Valid() && local + i < opSp
      modifies this`stacks
      ensures Valid() && Abs() == After(old(Abs()), Local(StoreLocal(i, val)))
      ensures Published(stacks) == old(Published(stacks))
      ensures stacks == old(stacks)[current := old(stacks)[current].(op := old(stacks)[current].op[local + i := val])]
    {
      ghost var was, m := stacks, Live();
      hide Parked;
      hide Unpark;
      hide MachinesOf;
      var st := stacks[current];
      stacks := stacks[current := st.(op := st.op[local + i := val])];
      assert stacks[current].op[..opSp] == m.ops[local + i := val];
      LocalEvent(was, m, StoreLocal(i, val));
    }

    method Branch(target: u2)
      requires Valid()
      modifies this`pc
      ensures Valid() && Abs() == After(old(Abs()), Local(Goto(target))) && pc == target
      ensures Published(stacks) == old(Published(stacks))
    {
      ghost var was, m := stacks, Live();
      hide Parked;
      hide Unpark;
      hide MachinesOf;
      pc := target;
      assert stacks == was[current := stacks[current]];
      LocalEvent(was, m, Goto(target));
    }

    /** The invoke opcodes after method resolution. */
    method InvokeMethod(args: nat, isInterface: bool, classN: u1, methodN: u1, startPC: u2, maxLocals: nat)
      requires Valid() && args <= opSp && methodSp + 5 <= METHODSTACKSIZE && opSp + maxLocals <= OPSTACKSIZE
      modifies this
      ensures Valid() && Abs() == After(old(Abs()), Local(Call(
        Callee(args, isInterface, classN, methodN, startPC, old(stacks[current].op[opSp..opSp + maxLocals])))))
      ensures Published(stacks) == old(Published(stacks)) && current == old(current)
      ensures cN == classN && mN == methodN && pc == startPC
      ensures opSp == old(opSp) + maxLocals && local == Wrap8(old(opSp) - args) && methodSp == old(methodSp) + 5
      ensures stacks[current].op == old(stacks[current].op)
      ensures stacks[current].calls[..methodSp] == old(stacks[current].calls[..methodSp]) +
        [old(local), old(cN), old(mN), Wrap16(old(pc) as int + if isInterface then 2 else 0), old(opSp) - args]
    {
      hide Parked;
      hide Unpark;
      hide MachinesOf;
      hide Wrap16;
      hide Wrap8;
      ghost var was, m := stacks, Live();
      ghost var c := Callee(args, isInterface, classN, methodN, startPC, stacks[current].op[opSp..opSp + maxLocals]);
      if isInterface {
        pc := Wrap16(pc as int + 2);
      }
      SavedWords(m, c);
      EnterMethod(opSp - args, opSp + maxLocals, classN, methodN, startPC);
      assert stacks[current].op[..opSp] == m.ops + c.junk;
      LocalEvent(was, m, Call(c));
    }

    /** The registers of the caller come back, and the value that is returned, if there is one, goes on its stack. */
    method LeaveMethod(value: bool)
      requires current in stacks && Sized(stacks[current]) && opSp <= OPSTACKSIZE && 5 <= methodSp <= METHODSTACKSIZE
      requires stacks[current].calls[methodSp - 1] + (if value then 1 else 0) <= opSp
      modifies this
      ensures current == old(current) && current in stacks && Sized(stacks[current])
      ensures stacks == old(stacks)[current := stacks[current]] && opSp <= OPSTACKSIZE && methodSp == old(methodSp) - 5
      ensures stacks[current] == old(stacks[current]).(op := stacks[current].op)
      ensures HasRoom(old(Live()), Ret(value)) && Live() == Return(old(Live()), value)
    {
      ghost var m := Live();
      hide Wrap16;
      hide Wrap8;
      var first := NULLOBJECT;
      if opSp > 0 {
        first := stacks[current].op[opSp - 1];
      }
      PopFrame();
      pc := Wrap16(pc as int + 2);
      if value {
        stacks := stacks[current := stacks[current].(op := stacks[current].op[opSp := first])];
        opSp := opSp + 1;
      }
      assert stacks[current].op[..opSp] == Return(m, value).ops;
      assert stacks[current].calls[..methodSp] == Return(m, value).methods;
    }

    /** The return opcodes after the monitor has been released, in a method that was called. */
    method ReturnFromMethod(value: bool)
      requires Valid() && methodSp >= 5 && stacks[current].calls[methodSp - 1] + (if value then 1 else 0) <= opSp
      modifies this
      ensures Valid() && Abs() == After(old(Abs()), Local(Ret(value)))
      ensures Published(stacks) == old(Published(stacks))
    {
      ghost var was, m := stacks, Live();
      hide Parked;
      hide Unpark;
      hide MachinesOf;
      hide Return;
      hide HasRoom;
      LeaveMethod(value);
      LocalEvent(was, m, Ret(value));
    }

    /** NEW, CHECKCAST and others keep class and method numbers on the method stack while they work, and take them off
        again; a check of types keeps one for every superclass that it looks at. */
    method UseScratch(words: seq<u1>)
      requires Valid() && methodSp + |words| <= METHODSTACKSIZE
      modifies this`stacks, this`methodSp
      ensures Valid() && Abs() == old(Abs()) && Published(stacks) == old(Published(stacks))
    {
      hide Parked;
      hide Unpark;
      hide MachinesOf;
      ghost var was, m, sp := stacks, Live(), methodSp;
      var i := 0;
      while i < |words|
        invariant 0 <= i <= |words| && methodSp == sp + i && current in stacks
        invariant stacks == was[current := was[current].(calls := stacks[current].calls)]
        invariant |stacks[current].calls| == METHODSTACKSIZE
        invariant forall k :: 0 <= k < METHODSTACKSIZE ==>
          stacks[current].calls[k] == was[current].calls[k] || (k >= sp && stacks[current].calls[k] < 0x100)
      {
        MethodStackPush(words[i]);
        i := i + 1;
      }
      while i > 0
        invariant 0 <= i <= |words| && methodSp == sp + i
        modifies this`methodSp
      {
        var _ := MethodStackPop();
        i := i - 1;
      }
      assert stacks[current].calls[..methodSp] == was[current].calls[..sp];
      assert Live() == m;
      LiveStays(was, current, m, stacks[current]);
      SamePlace(was, current, stacks[current]);
    }

    // Any sequence of events

    /** One event, with what uninitialised locals hold. */
    method Perform(e: Event) returns (ghost d: Event)
      requires Valid() && Possible(Abs(), e)
      modifies this
      ensures Valid() && Alike(e, d) && Possible(old(Abs()), d) && Abs() == After(old(Abs()), d)
      ensures Published(stacks) == PublishedAfter(old(Published(stacks)), old(Abs()), d)
    {
      hide OthersParked;
      hide After;
      hide Published;
      hide MachinesOf;
      LiveSizes();
      d := e;
      match e {
        case Local(op) => d := PerformLocal(op);
        case SwitchEvent(found) => SwitchTo(found);
        case ExitEvent(next) => ExitTo(next);
        case CreateEvent(p, classN, methodN, startPC, operands) =>
          var memory := Stacks(seq(OPSTACKSIZE, _ => NULLOBJECT), seq(METHODSTACKSIZE, _ => 0), 0);
          d := CreateEvent(p, classN, methodN, startPC, [operands[0]] + memory.op[1..|operands|]);
          CreateStacks(p, memory, classN, methodN, startPC, |operands|, operands[0]);
        case ScratchEvent(words) =>
          UseScratch(words);
          ScratchChangesNothing(old(Abs()), words);
      }
    }

    method PerformLocal(op: Bytecode) returns (ghost d: Event)
      requires Valid() && Possible(Abs(), Local(op))
      modifies this
      ensures Valid() && Alike(Local(op), d) && Possible(old(Abs()), d) && Abs() == After(old(Abs()), d)
      ensures d.Local? && Published(stacks) == old(Published(stacks))
    {
      hide OthersParked;
      hide After;
      hide Published;
      d := Local(op);
      LiveSizes();
      hide MachinesOf;
      match op {
        case PushOp(v) => OpStackPush(v);
        case PopOp => var _ := OpStackPop();
        case StoreLocal(i, v) => StoreValue(i, v);
        case Goto(target) => Branch(target);
        case Call(c) =>
          d := Local(Call(c.(junk := stacks[current].op[opSp..opSp + |c.junk|])));
          InvokeMethod(c.args, c.isInterface, c.cN, c.mN, c.startPC, |c.junk|);
        case Ret(value) => ReturnFromMethod(value);
      }
    }

    lemma LiveSizes()
      requires Valid()
      ensures Abs().machines[current] == Live() && Abs().machines.Keys == stacks.Keys && current in stacks
      ensures Sized(stacks[current])
      ensures |Live().ops| == opSp <= OPSTACKSIZE && |Live().methods| == methodSp <= METHODSTACKSIZE
      ensures methodSp > 0 ==> Live().methods[methodSp - 1] == stacks[current].calls[methodSp - 1]
    {
    }

    /** Performs events as long as they are possible.  Whatever the sequence: the register file stays a map from
        threads to private machines, and a thread that is never the running one in between keeps its machine exactly. */
    method Replay(events: seq<Event>) returns (ghost did: seq<Event>)
      requires Valid()
      modifies this
      ensures Valid() && |did| <= |events| && forall k :: 0 <= k < |did| ==> Alike(events[k], did[k])
      ensures |did| < |events| ==> !Possible(Abs(), events[|did|])
      ensures Run(old(Abs()), did, Abs()) && Published(stacks) == PublishedBy(old(Published(stacks)), old(Abs()), did)
      ensures forall p :: p in old(stacks) && NeverRuns(old(Abs()), did, p) ==>
        p in stacks && AllMachines()[p] == old(AllMachines())[p]
    {
      hide OthersParked;
      hide After;
      hide Possible;
      hide Alike;
      hide NeverRuns;
      hide MachinesOf;
      hide Published;
      hide PublishedAfter;
      hide WordOk;
      LiveSizes();
      ghost var start, published := Abs(), Published(stacks);
      did := [];
      assert Run(start, did, Abs());
      var k := 0;
      while k < |events| && Possible(Abs(), events[k])
        invariant Valid() && 0 <= k == |did| <= |events| && forall j :: 0 <= j < k ==> Alike(events[j], did[j])
        invariant Run(start, did, Abs()) && Published(stacks) == PublishedBy(published, start, did)
        decreases |events| - k
      {
        ghost var before := Abs();
        ghost var d := Perform(events[k]);
        RunGoesOn(start, did, before, d);
        PublishedGoesOn(published, start, did, before, d);
        did := did + [d];
        k := k + 1;
      }
      forall p | p in start.machines && NeverRuns(start, did, p)
        ensures p in Abs().machines && Abs().machines[p] == start.machines[p]
      {
        SwitchingIsTransparent(start, did, p, Abs());
      }
      LiveSizes();
    }
  }

  lemma SavedWords(m: Machine, c: Callee)
    requires c.args <= |m.ops| <= OPSTACKSIZE
    ensures Wrap16(|m.ops| - c.args) == |m.ops| - c.args && Wrap16(m.pc as int) == m.pc
  {
  }
}
