/** The private machines of all threads, and what can happen to them. */
module RegisterEvents {
  import opened HeapSlots
  import opened ThreadSpec
  import opened Machines
  import opened Words

  datatype State = State(machines: map<Ptr, Machine>, current: Ptr)

  /** The running thread executes a bytecode, another thread takes its place, it exits, or it creates a thread, whose
      operands are the locals of its run method.  A bytecode may also keep class and method numbers on top of the method
      stack for as long as it lasts. */
  datatype Event =
    | Local(op: Bytecode)
    | SwitchEvent(found: Ptr)
    | ExitEvent(next: Ptr)
    | CreateEvent(p: Ptr, classN: u1, methodN: u1, startPC: u2, operands: seq<slot>)
    | ScratchEvent(words: seq<u1>)

  predicate Possible(s: State, e: Event) {
    && s.current in s.machines
    && match e
       case Local(op) => HasRoom(s.machines[s.current], op)
       case SwitchEvent(found) =>
         found in s.machines && found != s.current && |s.machines[s.current].methods| + 5 <= METHODSTACKSIZE
       case ExitEvent(next) => next in s.machines && next != s.current
       case CreateEvent(p, _, _, _, operands) => p !in s.machines && 1 <= |operands| <= OPSTACKSIZE
       case ScratchEvent(words) => |s.machines[s.current].methods| + |words| <= METHODSTACKSIZE
  }

  /** Only the machine of the running thread changes; a new thread gets its own.  Creation leaves the class and method
      registers of the creator at those of the new thread's run method. */
  function After(s: State, e: Event): State
    requires Possible(s, e)
  {
    var m := s.machines[s.current];
    match e
    case Local(op) => s.(machines := s.machines[s.current := Exec(m, op)])
    case SwitchEvent(found) => s.(current := found)
    case ExitEvent(next) => State(s.machines - {s.current}, next)
    case CreateEvent(p, classN, methodN, startPC, operands) =>
      s.(machines := s.machines[s.current := m.(cN := classN, mN := methodN)]
                     [p := Machine(startPC, classN, methodN, 0, operands, [])])
    case ScratchEvent(_) => s
  }

  ghost predicate Run(s: State, events: seq<Event>, s2: State)
    decreases |events|
  {
    if events == [] then s == s2 else Possible(s, events[0]) && Run(After(s, events[0]), events[1..], s2)
  }

  /** p is not the running thread when any of the events happens. */
  ghost predicate NeverRuns(s: State, events: seq<Event>, p: Ptr)
    decreases |events|
  {
    events == [] || (s.current != p && (Possible(s, events[0]) ==> NeverRuns(After(s, events[0]), events[1..], p)))
  }

  /** Two events that differ only in what uninitialised locals happen to hold. */
  predicate Alike(e: Event, d: Event) {
    match (e, d)
    case (Local(Call(c)), Local(Call(c2))) => c2 == c.(junk := c2.junk) && |c2.junk| == |c.junk|
    case (CreateEvent(p, classN, methodN, startPC, operands), CreateEvent(_, _, _, _, operands2)) =>
      d == CreateEvent(p, classN, methodN, startPC, operands2) && |operands2| == |operands| &&
      (operands != [] ==> operands2[0] == operands[0])
    case _ => e == d
  }

  lemma {:induction false} RunGoesOn(s: State, events: seq<Event>, s1: State, e: Event)
    requires Run(s, events, s1) && Possible(s1, e)
    ensures Run(s, events + [e], After(s1, e))
    decreases |events|
  {
    hide Possible;
    hide After;
    if events == [] {
      assert (events + [e])[1..] == [] && Run(After(s1, e), [], After(s1, e));
    } else {
      assert (events + [e])[1..] == events[1..] + [e];
      RunGoesOn(After(s, events[0]), events[1..], s1, e);
    }
  }

  /** However often other threads run, switch, exit and start in between, a thread that comes back finds its registers
      and stacks exactly as it left them. */
  lemma {:induction false} SwitchingIsTransparent(s: State, events: seq<Event>, p: Ptr, s2: State)
    requires Run(s, events, s2) && NeverRuns(s, events, p) && p in s.machines
    ensures p in s2.machines && s2.machines[p] == s.machines[p]
    decreases |events|
  {
    hide HasRoom;
    hide Exec;
    if events != [] {
      SwitchingIsTransparent(After(s, events[0]), events[1..], p, s2);
    }
  }

  lemma ScratchChangesNothing(s: State, words: seq<u1>)
    requires Possible(s, ScratchEvent(words))
    ensures After(s, ScratchEvent(words)) == s
  {
  }

  // Who has put an operand depth where the collector looks for it

  /** The event writes the word of p: p is parked, or created as parked. */
  predicate Publishes(s: State, e: Event, p: Ptr) {
    (e.SwitchEvent? && s.current == p) || (e.CreateEvent? && e.p == p)
  }

  ghost predicate PublishedIn(s: State, events: seq<Event>, p: Ptr)
    decreases |events|
  {
    events != [] && Possible(s, events[0])
    && (Publishes(s, events[0], p) || PublishedIn(After(s, events[0]), events[1..], p))
  }

  /** The threads with a word, when those in `published` had one before. */
  function PublishedAfter(published: set<Ptr>, s: State, e: Event): set<Ptr> {
    match e
    case SwitchEvent(_) => published + {s.current}
    case ExitEvent(_) => published - {s.current}
    case CreateEvent(p, _, _, _, _) => published + {p}
    case _ => published
  }

  ghost function PublishedBy(published: set<Ptr>, s: State, events: seq<Event>): set<Ptr>
    decreases |events|
  {
    if events == [] || !Possible(s, events[0]) then published
    else PublishedBy(PublishedAfter(published, s, events[0]), After(s, events[0]), events[1..])
  }

  lemma {:induction false} PublishedGoesOn(published: set<Ptr>, s: State, events: seq<Event>, s1: State, e: Event)
    requires Run(s, events, s1) && Possible(s1, e)
    ensures PublishedBy(published, s, events + [e]) == PublishedAfter(PublishedBy(published, s, events), s1, e)
    decreases |events|
  {
    hide Possible;
    hide After;
    hide PublishedAfter;
    if events == [] {
      assert (events + [e])[1..] == [];
    } else {
      assert (events + [e])[1..] == events[1..] + [e];
      PublishedGoesOn(PublishedAfter(published, s, events[0]), After(s, events[0]), events[1..], s1, e);
    }
  }

  /** A thread that is alive at the end has a word iff it had one at the start or an event of the run has written it. */
  lemma {:induction false} PublishedIff(published: set<Ptr>, s: State, events: seq<Event>, s2: State, p: Ptr)
    requires Run(s, events, s2) && published <= s.machines.Keys && p in s2.machines
    ensures p in PublishedBy(published, s, events) <==> p in published || PublishedIn(s, events, p)
    ensures p !in s.machines ==> PublishedIn(s, events, p)
    decreases |events|
  {
    hide HasRoom;
    hide Exec;
    if events != [] {
      PublishedIff(PublishedAfter(published, s, events[0]), After(s, events[0]), events[1..], s2, p);
    }
  }
}
