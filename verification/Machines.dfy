/** The registers and stacks of one thread, and what calls and returns do to them. */
module Machines {
  import opened HeapSlots
  import opened Words

  const METHODSTACKSIZE := 164
  const OPSTACKSIZE := 424

  /** What a thread sees while it runs: registers, the operand stack up to its top (locals included), and the
      method stack up to its top. */
  datatype Machine = Machine(pc: u2, cN: u1, mN: u1, local: u1, ops: seq<slot>, methods: seq<u2>)

  /** What a call needs: the number of arguments, the receiver included; whether the opcode is INVOKEINTERFACE, which
      has two more operand bytes; the method found; and what the slots of its locals happen to hold. */
  datatype Callee = Callee(args: nat, isInterface: bool, cN: u1, mN: u1, startPC: u2, junk: seq<slot>)

  /** The operand bytes skipped before the pc is saved. */
  function Skip(c: Callee): int {
    if c.isInterface then 2 else 0
  }

  /** The five words every call pushes: local, class, method, pc and the operand depth without the arguments. */
  function Saved(m: Machine, c: Callee): seq<u2> {
    [m.local, m.cN, m.mN, Wrap16(m.pc as int + Skip(c)), Wrap16(|m.ops| - c.args)]
  }

  /** An invoke opcode that goes ahead; pc is behind the opcode. */
  function Invoke(m: Machine, c: Callee): Machine
    requires c.args <= |m.ops|
  {
    Machine(c.startPC, c.cN, c.mN, Wrap8(|m.ops| - c.args), m.ops + c.junk, m.methods + Saved(m, c))
  }

  /** A return opcode, with or without a value. */
  function Return(m: Machine, value: bool): Machine
    requires |m.methods| >= 5 && (value ==> m.ops != []) && m.methods[|m.methods| - 1] <= |m.ops|
  {
    var n := |m.methods|;
    var kept := m.ops[..m.methods[n - 1]];
    Machine(Wrap16(m.methods[n - 2] as int + 2), Wrap8(m.methods[n - 4]), Wrap8(m.methods[n - 3]),
            Wrap8(m.methods[n - 5]),
            if value then kept + [m.ops[|m.ops| - 1]] else kept, m.methods[..n - 5])
  }

  /** Bytecodes as far as stacks and registers are concerned. */
  datatype Bytecode =
    | PushOp(v: slot)
    | PopOp
    | StoreLocal(i: nat, v: slot)
    | Goto(pc: u2)
    | Call(c: Callee)
    | Ret(value: bool)

  /** The stacks have what the bytecode takes and room for what it leaves; the source checks neither. */
  predicate HasRoom(m: Machine, op: Bytecode) {
    match op
    case PushOp(_) => |m.ops| < OPSTACKSIZE
    case PopOp => m.ops != []
    case StoreLocal(i, _) => m.local + i < |m.ops|
    case Goto(_) => true
    case Call(c) => c.args <= |m.ops| && |m.methods| + 5 <= METHODSTACKSIZE && |m.ops| + |c.junk| <= OPSTACKSIZE
    case Ret(value) =>
      |m.methods| >= 5 && m.methods[|m.methods| - 1] + (if value then 1 else 0) <= |m.ops|
  }

  /** What verified class files guarantee on top of that: a method touches nothing below its own locals.  No frame
      starts at slot 256 or above. */
  predicate Legal(m: Machine, op: Bytecode) {
    HasRoom(m, op) &&
    match op
    case PopOp => |m.ops| > m.local
    case Call(c) => c.args <= |m.ops| - m.local && |m.ops| - c.args < 0x100
    case _ => true
  }

  function Exec(m: Machine, op: Bytecode): Machine
    requires HasRoom(m, op)
  {
    match op
    case PushOp(v) => m.(ops := m.ops + [v])
    case PopOp => m.(ops := m.ops[..|m.ops| - 1])
    case StoreLocal(i, v) => m.(ops := m.ops[m.local + i := v])
    case Goto(pc) => m.(pc := pc)
    case Call(c) => Invoke(m, c)
    case Ret(value) => Return(m, value)
  }

  // The method stack as a list of caller frames

  datatype Frame = Frame(local: u1, cN: u1, mN: u1, pc: u2, depth: u2)

  function FrameOf(m: Machine, c: Callee): Frame {
    Frame(m.local, m.cN, m.mN, Wrap16(m.pc as int + Skip(c)), Wrap16(|m.ops| - c.args))
  }

  ghost predicate FramesAt(methods: seq<u2>, frames: seq<Frame>) {
    && |methods| == 5 * |frames|
    && forall j :: 0 <= j < |frames| ==> FrameAt(methods, frames, j)
  }

  ghost predicate FrameAt(methods: seq<u2>, frames: seq<Frame>, j: int) {
    && 0 <= j < |frames| && 5 * j + 5 <= |methods|
    && methods[5 * j] == frames[j].local && methods[5 * j + 1] == frames[j].cN && methods[5 * j + 2] == frames[j].mN
    && methods[5 * j + 3] == frames[j].pc && methods[5 * j + 4] == frames[j].depth
  }

  /** A call appends the caller's frame to the list that the method stack encodes. */
  lemma InvokePushesFrame(m: Machine, c: Callee, frames: seq<Frame>)
    requires FramesAt(m.methods, frames) && c.args <= |m.ops| < 0x1_0000
    ensures FramesAt(Invoke(m, c).methods, frames + [FrameOf(m, c)])
  {
    var m2 := Invoke(m, c);
    var frames2 := frames + [FrameOf(m, c)];
    forall j | 0 <= j < |frames2| ensures FrameAt(m2.methods, frames2, j) {
      if j < |frames| {
        assert FrameAt(m.methods, frames, j);
      }
    }
  }

  /** A return takes the last frame off that list and puts it into the registers. */
  lemma ReturnPopsFrame(m: Machine, value: bool, frames: seq<Frame>)
    requires FramesAt(m.methods, frames) && Legal(m, Ret(value))
    ensures frames != [] && FramesAt(Return(m, value).methods, frames[..|frames| - 1])
    ensures var f, m2 := frames[|frames| - 1], Return(m, value);
      && m2.local == f.local && m2.cN == f.cN && m2.mN == f.mN && m2.pc == Wrap16(f.pc as int + 2)
      && f.depth <= |m.ops| && m2.ops == m.ops[..f.depth] + (if value then [m.ops[|m.ops| - 1]] else [])
      && m2.methods == m.methods[..|m.methods| - 5]
  {
    var m2 := Return(m, value);
    var last := |frames| - 1;
    assert FrameAt(m.methods, frames, last);
    forall j | 0 <= j < last ensures FrameAt(m2.methods, frames[..last], j) {
      assert FrameAt(m.methods, frames, j);
    }
  }

  // Nested calls

  /** m is inside the call that made m1: the method stack still begins with m1's, everything below slot `base` is as in
      `below`, and no frame above reaches below base. */
  ghost predicate Inside(m1: Machine, below: seq<slot>, m: Machine, frames: seq<Frame>) {
    && FramesAt(m.methods, frames) && m1.methods <= m.methods && |m1.methods| % 5 == 0
    && |below| <= m.local && |below| <= |m.ops| && m.ops[..|below|] == below && |m.ops| <= OPSTACKSIZE
    && forall j :: |m1.methods| / 5 <= j < |frames| ==> |below| <= frames[j].local && |below| <= frames[j].depth
  }

  lemma CallStaysInside(m1: Machine, below: seq<slot>, m: Machine, frames: seq<Frame>, c: Callee)
    requires Inside(m1, below, m, frames) && Legal(m, Call(c))
    ensures Inside(m1, below, Invoke(m, c), frames + [FrameOf(m, c)])
  {
    var m2 := Invoke(m, c);
    InvokePushesFrame(m, c, frames);
    hide FramesAt;
    assert m1.methods <= m.methods <= m2.methods;
    assert m2.ops[..|below|] == m.ops[..|below|];
  }

  lemma ReturnStaysInside(m1: Machine, below: seq<slot>, m: Machine, frames: seq<Frame>, value: bool)
    requires Inside(m1, below, m, frames) && Legal(m, Ret(value)) && |m.methods| > |m1.methods|
    ensures frames != [] && Inside(m1, below, Return(m, value), frames[..|frames| - 1])
  {
    var m2 := Return(m, value);
    ReturnPopsFrame(m, value, frames);
    assert |m.methods| == 5 * |frames|;
    hide FramesAt;
    assert |m1.methods| / 5 <= |frames| - 1 && m2.methods == m.methods[..|m.methods| - 5];
    assert m2.ops[..|below|] == m.ops[..|below|];
  }

  /** Bytecodes that do not return from the call keep the machine inside it. */
  lemma StaysInside(m1: Machine, below: seq<slot>, m: Machine, frames: seq<Frame>, op: Bytecode)
      returns (frames2: seq<Frame>)
    requires Inside(m1, below, m, frames) && Legal(m, op)
    requires op.Ret? ==> |m.methods| > |m1.methods|
    ensures Inside(m1, below, Exec(m, op), frames2)
  {
    hide FramesAt;
    hide Invoke;
    hide Return;
    match op {
      case Call(c) =>
        CallStaysInside(m1, below, m, frames, c);
        frames2 := frames + [FrameOf(m, c)];
      case Ret(value) =>
        ReturnStaysInside(m1, below, m, frames, value);
        frames2 := frames[..|frames| - 1];
      case _ =>
        frames2 := frames;
    }
  }

  /** Running ops from m, without ever returning below the level of m1, gives m2. */
  ghost predicate RunsTo(m1: Machine, m: Machine, ops: seq<Bytecode>, m2: Machine)
    decreases |ops|
  {
    if ops == [] then m == m2
    else
      && Legal(m, ops[0]) && (ops[0].Ret? ==> |m.methods| > |m1.methods|)
      && RunsTo(m1, Exec(m, ops[0]), ops[1..], m2)
  }

  lemma {:induction false} RunStaysInside(m1: Machine, below: seq<slot>, m: Machine, frames: seq<Frame>,
                                          ops: seq<Bytecode>, m2: Machine)
      returns (frames2: seq<Frame>)
    requires Inside(m1, below, m, frames) && RunsTo(m1, m, ops, m2)
    ensures Inside(m1, below, m2, frames2)
    decreases |ops|
  {
    if ops == [] {
      frames2 := frames;
    } else {
      frames2 := StaysInside(m1, below, m, frames, ops[0]);
      frames2 := RunStaysInside(m1, below, Exec(m, ops[0]), frames2, ops[1..], m2);
    }
  }

  /** A call starts inside itself, over the caller's operands without the arguments. */
  lemma CallStarts(m: Machine, c: Callee, frames: seq<Frame>)
    requires FramesAt(m.methods, frames) && |m.ops| <= OPSTACKSIZE && Legal(m, Call(c))
    ensures Inside(Invoke(m, c), m.ops[..|m.ops| - c.args], Invoke(m, c), frames + [FrameOf(m, c)])
  {
    var m1 := Invoke(m, c);
    InvokePushesFrame(m, c, frames);
    assert |m1.methods| == 5 * |frames + [FrameOf(m, c)]|;
    hide FramesAt;
    assert m1.ops[..|m.ops| - c.args] == m.ops[..|m.ops| - c.args];
  }

  /** Back at the level of the call, the method stack and the operands below it are as they were. */
  lemma InsideAgain(m1: Machine, below: seq<slot>, m: Machine, frames: seq<Frame>)
    requires Inside(m1, below, m, frames) && |m.methods| == |m1.methods|
    ensures m.methods == m1.methods && |below| <= |m.ops| && m.ops[..|below|] == below
  {
    hide FramesAt;
  }

  /** Whatever the callee and the methods it calls do, its return gives the caller back its registers, the pc behind
      the operand bytes, and its operand stack without the arguments, plus the result if there is one. */
  lemma CallReturns(m: Machine, c: Callee, frames: seq<Frame>, ops: seq<Bytecode>, m2: Machine, value: bool)
    requires FramesAt(m.methods, frames) && |m.ops| <= OPSTACKSIZE && Legal(m, Call(c))
    requires RunsTo(Invoke(m, c), Invoke(m, c), ops, m2) && |m2.methods| == |m.methods| + 5 && Legal(m2, Ret(value))
    ensures var m3 := Return(m2, value);
      && m3.local == m.local && m3.cN == m.cN && m3.mN == m.mN
      && m3.pc == Wrap16(m.pc as int + if c.isInterface then 4 else 2)
      && m3.methods == m.methods
      && m3.ops == m.ops[..|m.ops| - c.args] + if value then [m2.ops[|m2.ops| - 1]] else []
  {
    hide FramesAt;
    hide Inside;
    hide RunsTo;
    hide Return;
    hide Wrap16;
    hide Wrap8;
    var m1, below, frames1 := Invoke(m, c), m.ops[..|m.ops| - c.args], frames + [FrameOf(m, c)];
    CallStarts(m, c, frames);
    var frames2 := RunStaysInside(m1, below, m1, frames1, ops, m2);
    InsideAgain(m1, below, m2, frames2);
    InvokePushesFrame(m, c, frames);
    ReturnPopsFrame(m2, value, frames1);
    CallerFrame(m, c);
  }

  /** The frame that a call pushes holds the caller's registers and its operand depth without the arguments. */
  lemma CallerFrame(m: Machine, c: Callee)
    requires c.args <= |m.ops| < 0x1_0000
    ensures FrameOf(m, c) == Frame(m.local, m.cN, m.mN, Wrap16(m.pc as int + Skip(c)), |m.ops| - c.args)
    ensures Wrap16(Wrap16(m.pc as int + Skip(c)) as int + 2) == Wrap16(m.pc as int + Skip(c) + 2)
    ensures Invoke(m, c).methods[..|Invoke(m, c).methods| - 5] == m.methods && |Invoke(m, c).methods| == |m.methods| + 5
  {
  }

  // Blocked calls

  /** The steps of a synchronized invoke that finds the object taken: push the frame, make room for the locals, and
      take both back.  fetched is the machine with pc behind the opcode. */
  function InvokeBlocked(fetched: Machine, c: Callee): Machine
    requires c.args <= |fetched.ops|
  {
    var m1 := Invoke(fetched, c);
    var n := |m1.methods|;
    var sp := Wrap16(m1.methods[n - 1] + c.args);
    Machine(Wrap16(m1.methods[n - 2] as int - 1), Wrap8(m1.methods[n - 4]), Wrap8(m1.methods[n - 3]),
            Wrap8(m1.methods[n - 5]),
            if sp <= |m1.ops| then m1.ops[..sp] else m1.ops, m1.methods[..n - 5])
  }

  /** A blocked call leaves registers and stacks as they were before the opcode was fetched, exactly unless the opcode
      is INVOKEINTERFACE: its two extra operand bytes are not taken back off the pc. */
  lemma BlockedCallUndoneIff(before: Machine, c: Callee)
    requires before.pc < 0xFFFD && c.args <= |before.ops| < 0x1_0000
    ensures InvokeBlocked(before.(pc := before.pc + 1), c) == before.(pc := before.pc as int + Skip(c))
    ensures InvokeBlocked(before.(pc := before.pc + 1), c) == before <==> !c.isInterface
  {
    var fetched := before.(pc := before.pc + 1);
    var m1 := Invoke(fetched, c);
    assert m1.ops[..|before.ops|] == before.ops;
    assert m1.methods[..|m1.methods| - 5] == before.methods;
  }

  /** local is one byte wide: the callee's first argument is its local 0 exactly if the frame starts below slot 256. */
  lemma LocalsFoundIff(m: Machine, c: Callee)
    requires c.args <= |m.ops|
    ensures Invoke(m, c).local == |m.ops| - c.args <==> |m.ops| - c.args < 0x100
  {
  }

  lemma {:induction false} PushRun(m1: Machine, m: Machine, v: slot, n: nat)
    requires |m.ops| + n <= OPSTACKSIZE
    ensures RunsTo(m1, m, seq(n, _ => PushOp(v)), m.(ops := m.ops + seq(n, _ => v)))
    decreases n
  {
    var ops, all := seq(n, _ => PushOp(v)), m.ops + seq(n, _ => v);
    if n == 0 {
      assert all == m.ops;
    } else {
      var next := m.(ops := m.ops + [v]);
      PushRun(m1, next, v, n - 1);
      assert ops[1..] == seq(n - 1, _ => PushOp(v)) && next.ops + seq(n - 1, _ => v) == all;
    }
  }

  /** A main method with one local that has 256 values on its operand stack and calls a method with the last of them:
      the callee takes main's local 0 for its own. */
  lemma FrameAtSlot256(start: Machine, v: slot, c: Callee) returns (ops: seq<Bytecode>, m: Machine)
    requires start.local == 0 && |start.ops| == 1 && start.methods == [] && c.args == 1 && |c.junk| <= 100
    ensures RunsTo(start, start, ops, m) && HasRoom(m, Call(c)) && |m.ops| == 0x101 && m.ops[0x100] == v
    ensures Invoke(m, c).local == 0 && Invoke(m, c).ops[Invoke(m, c).local] == start.ops[0]
  {
    ops, m := seq(0x100, _ => PushOp(v)), start.(ops := start.ops + seq(0x100, _ => v));
    PushRun(start, start, v, 0x100);
    LocalsFoundIff(m, c);
  }
}
