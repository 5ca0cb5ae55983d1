# BAJOS: a model of the virtual machine and of its board code

BAJOS is a small Java virtual machine for microcontrollers. This project models the parts of it whose state has to stay
consistent over every run, and four algorithms of its board code, and proves what they promise. The model follows the C
code: what the code changes in place is a field or an array of a class here, what it computes in a loop is computed in a
loop, and each such method is proved against a function or predicate about which the properties are then proved.

Paths below are those of the repository. All files are verified together with `dafny verify dfyconfig.toml`.

## The parts

**Heap** (`HeapSlots`, `HeapSpec`, `HeapLaws`, `Heap`). One array of slots, chained only by the lengths in the first
slot of each block. `HeapManager.Heap` is the allocator and collector; the ghost sequence `starts` lists the blocks. The
effect of a collection is stated in terms of reachability, and the result of an allocation in terms of the blocks that
were live; `HeapLaws` says the same in terms of single slots.

* A request has at least one slot, and the heap is not empty or the request fits: the searches start at block 0.
* The scan index of the collector is one byte wide, so that the scan of a block ends iff the block has at most 255 slots
  (`ScanEnds`). Blocks that a collection scans are therefore required to be that short, and only when one happens. As
  long as nobody asks for more than 128 slots this holds by itself from the constructor on
  (`SmallRequestsStayScannable`).
* What is scanned of a thread are the slots below the word in front of its published place, `methodSpPos`. That word is
  written only at a switch (`Registers.RegisterFile.SwitchTo`) and when a thread is created. `roots` is what the
  collector reads; `ScannedRoots` says, operand by operand, what of all that the threads hold is in it, for every state
  of the register file (`ScannedRoots.ValidStacks`).
* Free blocks count as marked and are scanned like blocks in use, and the block at 0 is never swept: both are part of
  the result. Until NEW writes its marker, a block that is reused has status FREESPACE; a block from the end of the heap
  still holds NULLOBJECT, so that its status is not FREESPACE.
* Slots are C unions with bit fields; the layout is the little-endian one.

**Threads, scheduler and monitors** (`LockTable`, `ThreadSpec`, `ListLemmas`, `ListLinks`, `ThreadSystem`, `ThreadLaws`,
`MonitorProtocol`, `MonitorRuns`, `MonitorLaws`, `Interpreter`, `Scheduling`, `Fairness`, `Starvation`).
`ThreadSystems.ThreadSystem` has the ten circular doubly linked lists with their cursors and counts, and refines the
operations of `ThreadSpec` on `World`, in which each level is a sequence that begins at the cursor; `ThreadLaws` says
what each of them does to every control block, list and mutex bit. `MonitorProtocol.Step` is one bytecode of the running
thread followed by `scheduler()`. Runs begin with the main thread and are arbitrary sequences of such steps;
`Interpreters.Interpreter` performs them on the linked control blocks, and what the methods of the thread system require
is proved to hold at every call. The monitor rules are those of section 2.11.10 of the Java Virtual Machine
Specification (Java SE 7) and section 17.2 of the Java Language Specification.

* Priorities are 1 to 10. The test `prio > 10` in `scheduler.c` is off by one: of all that is outside the array exactly
  priority 11 (modulo 256) passes it (`ThreadSystems.PriorityCheckIff`).
* Callers of wait and notify own the object; `L` is the set of the objects used as Locks, and no object is used both as
  a Lock and as a monitor. Methods are nested less than 255 deep, so that a count fits its byte; a Java thread is
  started once.
* A synchronized method does not overwrite its local 0, from which the return takes the object again.
* The method `run` of a thread and `main` are not synchronized: a synchronized `run` would be released on return but is
  never acquired.
* When one thread is left, `scheduler()` returns at once even if that thread is blocked or waiting. `RunsBlockedIff`
  says exactly when this happens; runs are followed up to such a state, and the results hold in it too.
* A thread that exits while it holds a Lock leaves it blocked for good: such Locks are the `orphans` of the state.
* `deleteThread` does not give the next thread new ticks; `findThreadCB` turns the lists that it searches.
* A slice counter is one byte (`Fairness.ReachableTicks`). The bound on how long a thread waits is in bytecodes, over
  runs of `MonitorProtocol.Step`.

**Registers and frames** (`Machines`, `RegisterEvents`, `Registers`, `ScannedRoots`). One set of registers is shared by
all threads, whose own values are in five words on top of their method stacks while they do not run. `RegisterFile.Abs`
is the map from each thread to a private machine, and every method of the register file refines one event on it
(`RegisterEvents.After`); `Replay` performs any sequence of events on the class. Words that a bytecode keeps on the
method stack only while it lasts are an event of their own, because they stay in memory above the stack. The source
checks neither stack for overflow, so that room on the stacks is required. The register `local` has one byte, which is
why frames have to start below slot 256 (`LocalsFoundIff`).

**Flash memory** (`FlashHardware`, `Flash`, `FlashFill`). Copy and pattern fill over a page buffer of double-words. The
hardware: clearing the buffer sets it to ones; a store to a flash address goes to the buffer, where it can only clear
bits, and selects the page; erasing sets a page to ones; writing clears bits of the page. Pages have any size that is a
multiple of eight. The source of a copy does not overlap its destination and may itself be in flash. The end of a range
does not pass the end of the 32-bit address space.

**1-Wire bus** (`RomSearch`, `OneWire`, `Crc`). The devices are a fixed set of 64-bit codes; all that listen answer at
once and a zero wins. The search is that of Maxim Application Note 187, the checksum that of Application Note 27.
MAXCHIP is a parameter below 128, because the number of devices shares its byte with a flag.

**Smaller cores.** `Lines`: the rasteriser that merges runs of pixels into rectangles; a coordinate of 0xFFFF never ends
the loops of `lcdFillRect` (`Lines.FillLoopEndsIff`). `GlyphBits`, `Glyphs`: the decoder of packed and run-length coded
fonts, with cells of one byte, colors of up to eight bits (six in compressed fonts) and glyphs that end before
coordinate 0xFFFF. `Clocks`: the search for PLL divisors, with products modulo 2^32 and exact below a bound on the
request (`FitsWord`). `Fields`: the places of instance fields. `Words` and `Arithmetic` hold what all parts share:
machine words, products and quotients.

## What is not as promised

Where the code does not do what it or its documentation says, the model follows the code, and a lemma or a postcondition
gives the exact condition:

* heap.c calls all objects on operand stacks roots. The operands of a parked thread are, and so is every operand of the
  running thread below the word that is read for it; a block named by any other operand of the running thread is freed
  exactly if nothing else reaches it (`ScannedRoots.OperandFreedIff`). There are two ways to lose an operand:
  * The word is out of date. It dates from the last switch of the thread, and a call, or a check of types, may have
    written something else there since. `ScannedRoots.StaleDepthLosesAnOperand` builds the case from the steps of the
    register file: a new thread runs, and pushes a reference to a fresh block.
  * There is no word. Until main is switched out for the first time, so in every program with one thread, its published
    place is 0 and the word read is the one in front of its method stack, which is not the virtual machine's own.
    Whether a block that only main holds survives depends on it alone (`ScannedRoots.NeverParkedMain`,
    `ScannedRoots.FrontWordDecides`). Over all runs the word of a thread is inside its method stack exactly if the
    thread is not main or main has been switched out; then it is at most the size of the operand stack
    (`ScannedRoots.WordsOfAnyRun`).
* A scan of a block of more than 255 slots does not end (`HeapSpec.ScanEnds`). Merging makes such blocks, but not for
  requests of at most 128 slots, and 128 is the limit (`HeapSpec.SmallRequestsStayScannable`,
  `HeapSpec.LongerRequestsDoNot`).
* A blocked or waiting thread runs on when it is the last one (`MonitorRuns.RunsBlockedIff`, with the run
  `MonitorRuns.LoneWaitGoesOn`); object.c and scheduler.c say that it sleeps.
* Threads of one priority share the time, as Thread.java says, as long as no priority is changed
  (`Fairness.GetsItsTurn`, `Fairness.CursorFitsWithoutChange`). A change of priority can leave the cursor of a level on
  another thread than the one that runs. A selection then brings the others nearer exactly if it does not choose the
  running thread again (`Scheduling.SelectionProgress`), and a thread of the level gets a turn by the yields of the
  others exactly if the running one is not the first that the search meets (`Fairness.YieldingIff`). A thread that
  lowers itself to the priority of main keeps the machine to itself for good, even if it only yields
  (`Starvation.NeverGetsItsTurn`).
* A blocked INVOKEINTERFACE does not take its two operand bytes back off the pc (`Machines.BlockedCallUndoneIff`).
* Arguments are found at local 0 exactly if the frame starts below slot 256 (`Machines.LocalsFoundIff`); a main method
  that pushes 256 values reaches that slot (`Machines.FrameAtSlot256`).
* When the processor is asked for the frequency of the oscillator itself, the peripheral bus gets that frequency too,
  whatever has been asked for it (`Clocks.ConfigureClocks`). A PLL that is slower than what has been asked for the bus
  is halved all the same (`Clocks.BusIsSlowEnough`). A processor frequency of zero never ends the search
  (`Clocks.ZeroNeverEnds`).
* The selector of the bus divider goes into a register field of fixed width. It fits exactly if the largest division of
  the processor's frequency, doubled as often as its own divider says, slows the bus down enough
  (`Clocks.BusSelectorFitsIff`; `Clocks.SelectorOverflows` is a request for which it does not).
* The methods of a class use the place that its objects keep for a field exactly if no subclass in between declares a
  field with the same name and descriptor (`Fields.OwnPlaceIff`, `Fields.SubclassTakesOver`).
* nativeSetPriority stops the machine for an object without a live thread, unless the priority is the one that is there.

## Model

| member | source | states |
|---|---|---|
| HeapManager.Heap.CanItBeAnObject | bajos/JVM/heap.c:239-252 | the walk over the blocks accepts a position iff a block starts there |
| HeapManager.Heap.MarkIfRoot | bajos/JVM/heap.c:140-196 | a block gets its mark cleared, then set iff it is free, a static class object or on the published part of some operand stack |
| HeapManager.Heap.ScanBlock | bajos/JVM/heap.c:206-225 | one scan marks every block that the slots of this one refer to, and reports whether a mark is new |
| HeapManager.Heap.MarkPass | bajos/JVM/heap.c:200-230 | one pass keeps all marks sound; without a new mark they are closed under references |
| HeapManager.Heap.CheckObjects | bajos/JVM/heap.c:128-236 | marking ends, and the memory afterwards differs from before exactly as reachability says |
| HeapManager.Heap.MergeOnce | bajos/JVM/heap.c:92-110 | joins the first two neighbours that are both free, or changes nothing when there are none |
| HeapManager.Heap.GetFreeHeapSpace | bajos/JVM/heap.c:58-125 | the result and the new heap are those of bump, first fit, collection, first fit and merging, in this order, each merge only while nothing fits |
| HeapSpec.MorePassesEnd | bajos/JVM/heap.c:200-230 | a pass with a new mark leaves fewer unmarked blocks, so the fixpoint is reached |
| HeapSpec.ClosedHoldsReachable | bajos/JVM/heap.c:197-230 | marks that hold the roots and are closed under references hold every reachable block |
| HeapSpec.CollectionExact | bajos/JVM/heap.c:128-236 | after a collection a block other than that at 0 is free iff it was free or is unreachable; reachable blocks keep length, status and contents |
| HeapSpec.AllocationSafe | bajos/JVM/heap.c:58-125 | on every path the blocks tile the heap, live blocks are untouched, and the returned block is one of the heap, large enough and apart from them |
| HeapSpec.LiveSurvivesMerges | bajos/JVM/heap.c:85-118 | collection and merging leave every live block where it is, with its contents |
| HeapSpec.GivesUpOnlyWhenFull | bajos/JVM/heap.c:85-125 | failure means that nothing fits, only live blocks are in use, and 20 pairs have been merged or no free neighbours are left |
| HeapLaws.StaticObjectStays | bajos/JVM/heap.c:144-150 | a static class object is unchanged by every collection, whoever refers to it |
| HeapLaws.StaticObjectSurvives | bajos/JVM/heap.c:58-150 | no path of an allocation moves or changes a static class object, or hands out any part of it |
| HeapLaws.HeldBlockStays | bajos/JVM/heap.c:140-230 | a collection leaves a block as it is if a chain of slots leads to it, each inside the block that the one before names, from a static or free block or from one that a scanned slot names |
| HeapLaws.HeldBlockSurvives | bajos/JVM/heap.c:58-230 | and so does every path of an allocation, which lies apart from it |
| HeapLaws.UnheldBlocksFreed | bajos/JVM/heap.c:140-236 | blocks in use, not static and not at 0, that no scanned slot and no slot of another block names are all freed, cycles included |
| HeapLaws.UnnamedBlockFreed | bajos/JVM/heap.c:140-236 | a block in use, not static and not at 0, that no slot names becomes free |
| HeapLaws.RequestMet | bajos/JVM/heap.c:58-125 | a request gets the end of the heap if there is room, else the lowest free block that is long enough without any other change, else a free block that is long enough |
| HeapLaws.RequestRefused | bajos/JVM/heap.c:85-125 | a request fails only if all free blocks are too short, and 20 pairs have been joined or no two free blocks are neighbours |
| HeapSlots.ViewsOfWord | bajos/JVM/typedefinitions.h:37-68 | marker and reference are the bit fields of one 32-bit word |
| ScannedRoots.AllOperandsScannedIff | bajos/JVM/heap.c:156-170 | in every state of the register file the collector sees all operands of all threads iff the word read for the running one is not below its real depth |
| ScannedRoots.OperandSurvives | bajos/JVM/heap.c:58-174 | no allocation moves, frees or overlaps a block named by an operand of a parked thread, or of the running one below the word read for it, whatever is read for the others |
| ScannedRoots.OperandFreedIff | bajos/JVM/heap.c:128-236 | in every state of the register file a collection frees a block that an operand names iff the roots do not reach it; never one named by an operand of a parked thread or below the word read |
| ScannedRoots.StaleDepthLosesAnOperand | bajos/JVM/heap.c:156-174 | a run of the register file that ends with an operand whose block every collection frees, whatever is around the stacks |
| ScannedRoots.NeverParkedMain | bajos/JVM/scheduler.c:226 | the start of the register file and one push lead to a state in which main has no word of its own |
| ScannedRoots.FrontWordDecides | bajos/JVM/heap.c:158-174 | in that state a collection frees the block that main holds iff the word in front of the method stack is below 2 |
| ScannedRoots.WordsOfAnyRun | bajos/JVM/heap.c:158 | after any run from the start the word read for a thread is in its method stack iff the thread is not main or main has been switched out, and is then at most the size of the operand stack |
| RegisterEvents.PublishedIff | bajos/JVM/scheduler.c:226-274 | a living thread has a word iff it had one or an event of the run has written it |
| HeapSpec.SmallRequestsStayScannable | bajos/JVM/heap.c:85-118 | allocations of at most 128 slots never make a block that is too long for the scan, since both halves of a merge are shorter than the request |
| HeapSpec.LongerRequestsDoNot | bajos/JVM/heap.c:92-110 | a merge for a request of 129 slots that makes one |
| HeapSpec.TilingUnique | bajos/JVM/heap.c:51-55 | the lengths alone determine the blocks |
| HeapSpec.BlocksDisjoint | bajos/JVM/heap.c:51-55 | different blocks do not overlap |
| HeapSpec.ScanEnds | bajos/JVM/heap.c:133-208 | counting with the one-byte index reaches a length iff it is at most 255 |
| LockTables.LockTable.TakeEffect | bajos/JVM/interpreter.c:1228-1243 | taking a free entry counts the object once and changes no other count |
| LockTables.LockTable.AddEffect | bajos/JVM/interpreter.c:1247-1271 | a reentrant call changes the count of this object only |
| LockTables.LockTable.ClearEffect | bajos/JVM/interpreter.c:1437-1443 | the last release removes this object only |
| ThreadSystems.ThreadSystem.NotifyThread | bajos/JVM/scheduler.c:77-98 | awakens the first waiting thread in search order, and nobody else |
| ThreadSystems.ThreadSystem.NotifyAll | bajos/JAVALANGNATIVE/object.c:40-64 | awakens every waiting thread of the object |
| ThreadSystems.ThreadSystem.NativeWait | bajos/JAVALANGNATIVE/object.c:67-101 | frees the monitor, lets all blocked threads try again, and makes the caller wait |
| ThreadSystems.ThreadSystem.SyncEnter | bajos/JVM/interpreter.c:1218-1273 | a synchronized call takes a free monitor, counts its own, or blocks |
| ThreadSystems.ThreadSystem.SyncExit | bajos/JVM/interpreter.c:1427-1466 | a return counts down; the last one frees the monitor and lets all blocked threads try again |
| ThreadSystems.ThreadSystem.SetMutexOnObject | bajos/JVM/scheduler.c:178-210 | takes a free Lock into the table, or blocks the thread and ends its slice |
| ThreadSystems.ThreadSystem.AwakeThreadFromMutex | bajos/JVM/scheduler.c:104-126 | hands a free Lock to the first blocked thread in search order |
| ThreadSystems.ThreadSystem.ReleaseMutexOnObject | bajos/JVM/scheduler.c:134-179 | releases a Lock and hands it on; a thread that does not hold it stops the machine |
| ThreadSystems.ThreadSystem.TryLock | bajos/JAVALANGNATIVE/lock.c:41-54 | takes a free Lock and answers true, or answers false and leaves everything as it is |
| ThreadSystems.ThreadSystem.InsertThread | bajos/JVM/scheduler.c:300-326 | the new links put the thread behind the cursor of its level; a running thread of lower priority loses its slice |
| ThreadSystems.ThreadSystem.RemoveThread | bajos/JVM/scheduler.c:335-355 | the new links leave the thread out, and the cursor moves to its predecessor if it was on it |
| ThreadSystems.ThreadSystem.FindThreadCB | bajos/JVM/scheduler.c:53-71 | finds the thread of a Java object iff there is one, and turns the list in which it is |
| ThreadSystems.ThreadSystem.CreateThread | bajos/JVM/scheduler.c:216-287 | a fresh control block in the level of its priority, or too many threads |
| ThreadSystems.ThreadSystem.DeleteThread | bajos/JVM/scheduler.c:373-393 | the running thread leaves and the cursor of the highest level that is left runs next |
| ThreadSystems.ThreadSystem.NativeSetPriority | bajos/JAVALANGNATIVE/thread.c:50-75 | moves a live thread to the level of its new priority; an object without one stops the machine unless its field already holds that priority |
| ThreadSystems.ThreadSystem.YieldThread | bajos/JAVALANGNATIVE/thread.c:35-40 | the running thread keeps no tick, and nothing else changes |
| ThreadSystems.ThreadSystem.SelectThread | bajos/JVM/scheduler.c:417-461 | the thread found by walking the levels downwards, each from behind its cursor |
| ThreadSystems.ThreadSystem.Scheduler | bajos/JVM/scheduler.c:402-485 | keeps the running thread within its slice, or admits and dispatches the one selected |
| ThreadSystems.PriorityCheckIff | bajos/JVM/scheduler.c:300-302 | of the indices outside the array the check lets exactly that of priority 11 pass |
| ThreadLaws.NotifyLaw | bajos/JVM/scheduler.c:77-98 | notify awakens exactly one of the waiting threads, the nearest behind the cursor in the lowest level that has one, and changes nothing else; without one, nothing |
| ThreadLaws.NotifyAllLaw | bajos/JAVALANGNATIVE/object.c:40-64 | notifyAll awakens all threads that wait on the object, and changes nothing else |
| ThreadLaws.WaitLaw | bajos/JAVALANGNATIVE/object.c:67-101 | wait frees the object, unblocks all that are blocked on it, and makes the caller wait with its count kept |
| ThreadLaws.EnterLaw | bajos/JVM/interpreter.c:1218-1273 | a synchronized call takes a free object with count 1, adds 1 to its own, or blocks the caller; it stops the machine iff the object is free and 24 entries are used |
| ThreadLaws.LeaveLaw | bajos/JVM/interpreter.c:1427-1466 | a synchronized return takes 1 off the count; the last one frees the object and unblocks all that are blocked on it |
| ThreadLaws.LockLaw | bajos/JVM/scheduler.c:178-210 | lock takes a free object with count 1, or blocks the thread and ends its slice, also if the object is its own |
| ThreadLaws.TryLockLaw | bajos/JAVALANGNATIVE/lock.c:41-54 | tryLock answers true iff the object was free; then the caller has it with count 1, otherwise nothing changes |
| ThreadLaws.UnlockLaw | bajos/JVM/scheduler.c:134-170 | unlock frees the Lock if nobody is blocked on it; otherwise the nearest in the lowest level takes it over with count 1 |
| ThreadLaws.CreateLaw | bajos/JVM/scheduler.c:216-287 | a new thread is runnable with a full slice and no locks, is right behind the cursor of its level, and cuts the slice of a running thread of lower priority; 46 threads are the limit |
| ThreadLaws.InitialLaw | bajos/JVM/scheduler.c:216-250 | the main thread is alone, runnable, of priority 5 with a full slice, without locks |
| ThreadLaws.ExitLaw | bajos/JVM/scheduler.c:373-393 | the exiting thread is taken out of one list, and the cursor of the highest level that has a thread runs next |
| ThreadLaws.PriorityLaw | bajos/JAVALANGNATIVE/thread.c:50-75 | the thread of the object gets the new priority and a place right behind the cursor of that level, and leaves the old list; nothing else of it changes |
| ThreadLaws.SelectLaw | bajos/JVM/scheduler.c:417-461 | the thread chosen may run, nobody above may, and nobody between the cursor of its level and it may |
| ThreadLaws.ScheduleLaw | bajos/JVM/scheduler.c:402-485 | the running thread loses a tick and goes on, or the next one gets a full slice and the object that it has been waiting for, and its list is turned to it; the machine stops iff nobody may run |
| ListLinks.InsertCircle | bajos/JVM/scheduler.c:311-320 | after the four assignments of an insertion succ and pred are inverse, and count steps visit all members once |
| ListLinks.RemoveCircle | bajos/JVM/scheduler.c:347-354 | the same after a removal, for the list without the thread |
| ListLinks.TurnCircle | bajos/JVM/scheduler.c:64 | moving the cursor keeps the circle |
| ListLemmas.InsertKeepsRings | bajos/JVM/scheduler.c:300-321 | every thread stays in exactly one list, the one its priority names |
| ListLemmas.RemoveKeepsRings | bajos/JVM/scheduler.c:335-355 | the same after a removal |
| ListLemmas.CreateKeepsOk | bajos/JVM/scheduler.c:216-287 | the same after the creation of a thread |
| ListLemmas.DeleteKeepsOk | bajos/JVM/scheduler.c:373-393 | the same after an exit; the next thread is at its cursor and has the highest priority of all |
| ListLemmas.TopOk | bajos/JVM/scheduler.c:377-381 | the downward search without a check stops at a level that has a thread, and nobody is above it |
| ListLemmas.FindThreadFound | bajos/JVM/scheduler.c:53-71 | the search fails iff no live thread belongs to the object |
| ListLemmas.SetPriorityKeepsOk | bajos/JAVALANGNATIVE/thread.c:50-75 | the lists stay in order, and no state, lock table or mutex changes |
| ListLemmas.CountsSumToThreads | bajos/JVM/scheduler.c:321-354 | the counts of the levels sum to the number of threads |
| ListLemmas.OrderIsAll | bajos/JVM/scheduler.c:83-97 | the loops over all levels visit exactly the live threads |
| MonitorProtocol.InvokeKeeps | bajos/JVM/interpreter.c:1218-1273 | a synchronized call keeps the ownership invariant |
| MonitorProtocol.ReturnKeeps | bajos/JVM/interpreter.c:1427-1500 | a return keeps it, also when the thread exits |
| MonitorProtocol.WaitKeeps | bajos/JAVALANGNATIVE/object.c:67-101 | wait keeps it |
| MonitorProtocol.NotifyKeeps | bajos/JAVALANGNATIVE/object.c:27-37 | notify keeps it |
| MonitorProtocol.NotifyAllKeeps | bajos/JAVALANGNATIVE/object.c:40-64 | notifyAll keeps it |
| MonitorProtocol.LockKeeps | bajos/JAVALANGNATIVE/lock.c:27-31 | lock keeps it |
| MonitorProtocol.UnlockKeeps | bajos/JAVALANGNATIVE/lock.c:34-38 | unlock keeps it |
| MonitorProtocol.ScheduleKeeps | bajos/JVM/scheduler.c:402-485 | scheduling keeps it, with the monitor that an awakened thread takes again |
| MonitorRuns.StepKeeps | bajos/JVM/interpreter.c:1962 | a bytecode and the scheduler behind it keep it, and the next thread may run unless it is alone |
| MonitorRuns.ReachableStates | bajos/JVM/interpreter.c:1962 | the reachable states are the first one and what legal bytecodes of threads that are not blocked make of reachable states |
| MonitorRuns.ReachableInv | bajos/JVM/interpreter.c:1962 | every reachable state has each thread in exactly one list, lock tables that agree with the mutex bits, and a current thread that may run unless it is alone |
| MonitorRuns.MutualExclusion | bajos/JVM/interpreter.c:1218-1273 | in every reachable state an object has at most one owner |
| MonitorRuns.BlockedIffOwned | bajos/JVM/scheduler.c:437-451 | in every reachable state a mutex bit is BLOCKED iff some thread owns the object, or it is a Lock whose holder has exited |
| MonitorRuns.NoLostWakeup | bajos/JVM/interpreter.c:1449-1464 | in every reachable state nobody is blocked on an object that is free |
| MonitorRuns.CountsAreFrames | bajos/JVM/interpreter.c:1434-1443 | the lock count is the number of active synchronized methods on the object, so every release finds its entry; a Lock is held once |
| MonitorRuns.WaitRestoresCount | bajos/JAVALANGNATIVE/object.c:67-101 | a thread that runs again after wait owns the object with the count it had |
| MonitorRuns.HandOff | bajos/JVM/scheduler.c:134-170 | unlock frees the Lock, or makes exactly one blocked thread its owner with count 1 while the others stay blocked |
| MonitorRuns.SearchedThreadsHaveObjects | bajos/JVM/scheduler.c:437-451 | whenever the scheduler searches in a run, every awakened thread names the object whose mutex bit is looked at |
| MonitorRuns.LoneWaitGoesOn | bajos/JVM/scheduler.c:404-408 | main alone enters a synchronized method and calls wait: a reachable state in which the thread that runs waits |
| MonitorLaws.NotifiedRuns | bajos/JVM/scheduler.c:89-93 | in every run after a notify the thread that it has awakened may run in exactly the states in which the object is free, until it runs; then it owns the object |
| MonitorLaws.TryLockTells | bajos/JAVALANGNATIVE/lock.c:41-54 | in every reachable state tryLock answers true iff nobody holds the Lock, and then the caller has become its one owner with count 1 |
| MonitorRuns.RunsBlockedIff | bajos/JVM/scheduler.c:404-408 | the running thread may not run exactly if it is alone and has just waited, asked for a taken Lock or lost the other thread |
| Interpreters.Interpreter.Turn | bajos/JVM/interpreter.c:1962 | a legal bytecode and the scheduler on the linked control blocks are one step of the protocol; every release finds its entry, every search its object, and every tryLock the answer that its state gives |
| Interpreters.Interpreter.Replay | bajos/JVM/interpreter.c:1962 | any legal sequence of bytecodes on the linked control blocks is the run of the protocol, up to the bytecode at which the machine stops, with every answer of tryLock |
| Interpreters.RunMain | bajos/JVM/bajvm.c:88-124 | from the start the linked control blocks are always in a reachable state of the protocol |
| Scheduling.ChoosesHighest | bajos/JVM/scheduler.c:417-461 | a selection takes an eligible thread of the highest level that has one, and fails iff nobody is eligible |
| Scheduling.SelectionProgress | bajos/JVM/scheduler.c:422-476 | a selection at its level brings an eligible thread nearer iff it does not choose the running thread again with the cursor elsewhere |
| Scheduling.RoundRobinCount | bajos/JVM/scheduler.c:422-476 | a thread that stays eligible is chosen within count selections at its level that turn the list |
| Scheduling.SliceOfSelection | bajos/JVM/scheduler.c:407-478 | after a selection at most priority bytecodes pass before the one that is followed by the next |
| Fairness.ReachableTicks | bajos/JVM/scheduler.c:402-477 | in every reachable state the slice counters are bytes |
| Fairness.GetsItsTurn | bajos/JVM/scheduler.c:373-477 | in every run without starts and changes of priority a thread that can run, with nobody above that could, runs after at most the rest of the slice, one slice for each member of its list tried before it, and one round for each exit |
| Fairness.TopLevelRun | bajos/JVM/scheduler.c:373-477 | in such a run from a state with no thread above the level nobody above can ever run |
| Fairness.CursorFitsWithoutChange | bajos/JVM/scheduler.c:297-477 | in every run without a change of priority the cursor of the running thread's level is on the running thread |
| Fairness.YieldingIff | bajos/JVM/scheduler.c:417-464 | when whoever runs yields, a waiting thread gets a turn iff the running one is not the first that the search meets while the cursor is on another |
| Starvation.NeverGetsItsTurn | bajos/JAVALANGNATIVE/thread.c:50-74 | a reachable state of two threads of one priority in which a yield of the running thread changes nothing |
| Machines.InvokePushesFrame | bajos/JVM/interpreter.c:1147-1158 | a call appends the frame of the caller to the list that the method stack encodes |
| Machines.CallReturns | bajos/JVM/interpreter.c:1501-1507 | whatever happens in between, the matching return restores registers, method stack and the operands below the arguments, plus the result, and goes on behind the two operand bytes, or four for INVOKEINTERFACE |
| Machines.BlockedCallUndoneIff | bajos/JVM/interpreter.c:1252-1267 | a blocked synchronized call changes nothing, iff the opcode is not INVOKEINTERFACE |
| Machines.LocalsFoundIff | bajos/JVM/interpreter.c:1158 | local 0 of the callee is its first argument iff the frame starts below slot 256 |
| Machines.FrameAtSlot256 | bajos/JVM/interpreter.c:1158 | 256 pushes and a call: the callee takes the caller's local 0 for its argument |
| Registers.RegisterFile.constructor | bajos/JVM/bajvm.c:88-124 | the register file of the main thread alone, which has never been parked |
| Registers.RegisterFile.SwitchTo | bajos/JVM/scheduler.c:467-485 | a switch changes the machine of no thread, and publishes the operand depth of the one that is parked |
| Registers.RegisterFile.ExitTo | bajos/JVM/scheduler.c:382-391 | an exit changes the machine of no other thread |
| Registers.RegisterFile.CreateStacks | bajos/JVM/scheduler.c:262-278 | a new thread resumes at the start of run with its object as local 0; the creator's class and method registers are those of run |
| Registers.RegisterFile.InvokeMethod | bajos/JVM/interpreter.c:1147-1216 | the register operations of a call are the call of the private machine: class, method and pc are the callee's, the frame begins at its arguments, and five words of the caller are saved |
| Registers.RegisterFile.ReturnFromMethod | bajos/JVM/interpreter.c:1501-1507 | the register operations of a return are the return of the private machine |
| Registers.RegisterFile.PushFrame | bajos/JVM/stack.c:123-129 | five pushes put local, class, method, pc and depth on top |
| Registers.RegisterFile.UseScratch | bajos/JVM/interpreter.c:1511-1538 | words that a bytecode keeps on the method stack for itself change no private machine |
| Registers.RegisterFile.OpStackPush | bajos/JVM/stack.c:50-56 | a push is a push of the private machine of the running thread |
| Registers.RegisterFile.OpStackPop | bajos/JVM/stack.c:62-65 | a pop is a pop of the private machine of the running thread |
| Registers.RegisterFile.Replay | bajos/JVM/scheduler.c:467-485 | any sequence of bytecodes, switches, exits and creations on the register file is that sequence on the private machines, and leaves the machine of a thread that does not run in between as it was |
| RegisterEvents.SwitchingIsTransparent | bajos/JVM/scheduler.c:467-485 | the same on the abstract state: a thread that comes back finds its machine as it was |
| FlashHardware.FlashController.StoreDword | bajos/PLATFORMS/EVK1100/atmel/flashc.c:919-951 | a store goes to the page buffer and selects the page |
| Flash.ProgramPage | bajos/PLATFORMS/EVK1100/atmel/flashc.c:1022-1051 | with an erase the page becomes what has been buffered, without one it loses the bits that have not; nothing else changes |
| Flash.CopyPage | bajos/PLATFORMS/EVK1100/atmel/flashc.c:906-1020 | for all alignments the page buffer holds the source bytes inside the range and the old bytes around it |
| Flash.CopyDwords | bajos/PLATFORMS/EVK1100/atmel/flashc.c:960-983 | the three ways of reading the source put the same bytes into the buffer |
| Flash.PageStep | bajos/PLATFORMS/EVK1100/atmel/flashc.c:903-1052 | each page programmed extends what is done, across the gap to the user page |
| Flash.SourceUnchanged | bajos/PLATFORMS/EVK1100/atmel/flashc.c:960-991 | what is read for a page is what the source held at the start, even if the source is in flash |
| Flash.ClipIsExact | bajos/PLATFORMS/EVK1100/atmel/flashc.c:875-896 | clipping both ends to the two regions loses no byte of flash and adds none |
| Flash.Memcpy | bajos/PLATFORMS/EVK1100/atmel/flashc.c:855-1060 | every byte of the range in flash is the source byte, or without an erase the bitwise and of the old byte and the source byte; every other byte of memory is unchanged |
| FlashFill.PlacePattern | bajos/PLATFORMS/EVK1100/atmel/flashc.c:694-701 | the loop puts the pattern in place for every misalignment, most significant byte first |
| FlashFill.Memset64 | bajos/PLATFORMS/EVK1100/atmel/flashc.c:681-852 | every byte of the range in flash is its byte of the pattern, or without an erase the bitwise and of the two; every other byte of memory is unchanged |
| FlashFill.Memset32 | bajos/PLATFORMS/EVK1100/atmel/flashc.c:676-679 | the same for a pattern of four bytes |
| FlashFill.Memset16 | bajos/PLATFORMS/EVK1100/atmel/flashc.c:670-673 | the same for a pattern of two bytes |
| FlashFill.Memset8 | bajos/PLATFORMS/EVK1100/atmel/flashc.c:664-667 | the same for a single byte |
| FlashFill.DoubledPattern | bajos/PLATFORMS/EVK1100/atmel/flashc.c:664-679 | a pattern written twice into a wider number is the same pattern |
| FlashFill.PatternSpells | bajos/PLATFORMS/EVK1100/atmel/flashc.c:694-701 | from the start of the range on, every group of bytes spells the pattern, most significant byte first |
| RomSearch.ChoiceIsRight | bajos/PLATFORMS/CHARON/ds182x.c:250-273 | the bit chosen keeps at least one device listening and leads to the code that is next |
| RomSearch.NextIsSuccessor | bajos/PLATFORMS/CHARON/ds182x.c:234-280 | a search that starts from the code found before finds the least code behind it |
| RomSearch.FirstIsLeast | bajos/PLATFORMS/CHARON/ds182x.c:209-211 | the first search finds the least code of all |
| RomSearch.NoZeroAtLast | bajos/PLATFORMS/CHARON/ds182x.c:279 | no position is left exactly at the greatest code |
| RomSearch.OneEnumeration | bajos/PLATFORMS/CHARON/ds182x.c:204-228 | only one sequence of a given length is the beginning of the devices in increasing order |
| RomSearch.NumericOrder | bajos/PLATFORMS/CHARON/ds182x.c:250-273 | the order in which codes are found is that of the numbers that they spell, first bit most significant |
| OneWire.LowestBitFirst | bajos/PLATFORMS/CHARON/ds182x.c:242-276 | the bits of a code are those of its bytes in the buffer, least significant one first |
| OneWire.Searcher.SearchBit | bajos/PLATFORMS/CHARON/ds182x.c:242-276 | one round reads both answers, sets one bit of the buffer and leaves the devices that agree with it listening |
| OneWire.Searcher.SearchNext | bajos/PLATFORMS/CHARON/ds182x.c:234-280 | finds the next code and returns 2 exactly at the last one, 0 exactly on an empty bus |
| OneWire.Searcher.SearchRom | bajos/PLATFORMS/CHARON/ds182x.c:204-228 | fills the array with the codes in increasing order, all of them or as many as fit, and returns their number with or without the flag |
| Crc.BuildCrc | bajos/PLATFORMS/CHARON/ds182x.c:286-305 | the byte loop feeds eight bits, lowest first, to the division by x^8 + x^5 + x^4 + 1 |
| Crc.CheckScratchPad | bajos/PLATFORMS/CHARON/ds182x.c:134-138 | a reading is flagged exactly if its last byte is not the checksum of the other eight |
| Crc.FeedIsLinear | bajos/PLATFORMS/CHARON/ds182x.c:286-305 | the checksum is linear in register and message |
| Crc.OnlyTheChecksumFits | bajos/PLATFORMS/CHARON/ds182x.c:134-138 | of all bytes appended to a message exactly its checksum leaves no residue |
| Crc.BurstIsDetected | bajos/PLATFORMS/CHARON/ds182x.c:134-138 | damage within eight consecutive bits of a message of any length is detected |
| Crc.ResidueZeroIff | bajos/PLATFORMS/CHARON/ds182x.c:286-305 | a stream of bits leaves no residue iff it is the product of x^8 + x^5 + x^4 + 1 and another polynomial |
| Crc.ChecksumDivides | bajos/PLATFORMS/CHARON/ds182x.c:134-138 | the checksum is the one byte that makes the message a multiple of that polynomial |
| Lines.Display.FillRect | bajos/PLATFORMS/STK1000/lib2d.c:129-143 | exactly the pixels between the corners get the color, in whatever order the corners are given |
| Lines.Display.DrawSteps | bajos/PLATFORMS/STK1000/lib2d.c:322-362 | the merged runs cover exactly the pixels of all steps, each once |
| Lines.Display.Line | bajos/PLATFORMS/STK1000/lib2d.c:282-364 | in all octants exactly the pixels at the rounded offsets get the color, each set once |
| Lines.FillLoopEndsIff | bajos/PLATFORMS/STK1000/lib2d.c:136-142 | a loop up to a corner ends iff the corner is not at 0xFFFF |
| Lines.NearestPixel | bajos/PLATFORMS/STK1000/lib2d.c:322-356 | each pixel is the one nearest to the ideal line, the farther one of two equally near, and the line has no gap |
| Lines.EndsOnLine | bajos/PLATFORMS/STK1000/lib2d.c:282-364 | both end points are on the line |
| GlyphBits.Refill | bajos/PLATFORMS/STK1000/fontlib.c:256-260 | the cell put on top of the buffer continues the unread bits |
| GlyphBits.TakeBits | bajos/PLATFORMS/STK1000/fontlib.c:261-281 | mask and shift take the next bits and leave the rest |
| GlyphBits.PlainPixel | bajos/PLATFORMS/STK1000/fontlib.c:202-227 | without compression color k is the field at k times the depth |
| GlyphBits.RunPixel | bajos/PLATFORMS/STK1000/fontlib.c:254-282 | with compression run r begins behind the pixels of the runs before it, and has the length that its two bits name and the color behind them |
| Glyphs.ReadRun | bajos/PLATFORMS/STK1000/fontlib.c:254-282 | the buffer holds exactly the unread bits, and gives the next length and color |
| Glyphs.LocateGlyph | bajos/PLATFORMS/STK1000/fontlib.c:173-227 | the buffer starts at the first bit of the character |
| Glyphs.PlainGlyphsFollow | bajos/PLATFORMS/STK1000/fontlib.c:202-227 | without compression the first character begins behind header and widths, and each other one behind the pixels of the one before it |
| Glyphs.PackedGlyphsFollow | bajos/PLATFORMS/STK1000/fontlib.c:173-200 | with compression the first character begins behind the two tables, and each other one after as many cells as the entry of the one before it says, times the padding |
| Glyphs.NextPixel | bajos/PLATFORMS/STK1000/fontlib.c:254-283 | pixel after pixel the colors are those of the expanded bit string |
| Glyphs.DrawGlyph | bajos/PLATFORMS/STK1000/fontlib.c:229-304 | every pixel of the glyph on the screen shows the color of the font data, unless it is transparent, and no other pixel changes |
| Clocks.FindDivisor | bajos/PLATFORMS/EVK1100/atmel/pm_conf_clocks.c:95-103 | the loop finds the least divisor that makes the ratio exact |
| Clocks.ConfigureClocks | bajos/PLATFORMS/EVK1100/atmel/pm_conf_clocks.c:60-214 | below the bound on the request it hangs iff the processor has no frequency, fails iff no setting is exact, and otherwise the registers give exactly the frequency asked for; the bus is never too fast unless the oscillator drives it |
| Clocks.SolvableMeans | bajos/PLATFORMS/EVK1100/atmel/pm_conf_clocks.c:92-108 | the search succeeds iff any divisor below 32 and any factor in range give exactly the frequency |
| Clocks.ZeroNeverEnds | bajos/PLATFORMS/EVK1100/atmel/pm_conf_clocks.c:122-128 | from a factor of zero the loop goes round for ever |
| Clocks.BusSelectorFitsIff | bajos/PLATFORMS/EVK1100/atmel/pm.c:326-348 | after a request below the bound the selector fits a field of given width iff the largest division that it can stand for makes the bus slow enough |
| Clocks.SelectorOverflows | bajos/PLATFORMS/EVK1100/atmel/pm.c:326-348 | an oscillator of 12 MHz, a processor at 66 MHz and one hertz for the bus: the search succeeds with a selector that three bits do not hold |
| Clocks.BusIsSlowEnough | bajos/PLATFORMS/EVK1100/atmel/pm_conf_clocks.c:160-171 | the bus divider keeps what has been asked for, and its limit if that was within it, and no smaller one but none at all would |
| Fields.Loader.FindFieldByName | bajos/JVM/classfile.c:118-151 | finds a field iff some class of the chain declares one of this name and descriptor that is neither static nor a constant of a primitive type, at the first place of such a field |
| Fields.Loader.CountFields | bajos/JVM/interpreter.c:1532-1546 | NEW counts as many slots as the chain has normal fields |
| Fields.PlacesAreDistinct | bajos/JVM/classfile.c:118-151 | two accesses use one place iff they name the same field, and every place is inside the object |
| Fields.OwnPlaceIff | bajos/JVM/classfile.c:118-151 | in an object of a subclass, a field of class j of the chain is found at the place behind those of the classes in front, iff none of them declares a normal field with its name and descriptor |
| Fields.SubclassTakesOver | bajos/JVM/classfile.c:118-151 | two classes that both declare "int x": the place of the superclass's field is never used |

## Left out

- MONITORENTER and MONITOREXIT: their blocked path does not follow the protocol of synchronized methods.
- interruptThread and the natives that interrupt: they write lock tables without the mutex bit, outside the invariant.
- Exceptions: frames are popped without a release of their monitors.
- createDims, which allocates while the outer array is on no stack that is scanned.
- Static synchronized methods are the same protocol on the class object, and have no separate operation here.
- errorExit, exit and a failing malloc are outcomes at which a run ends; the text of messages is left out.
- Class files are read and matched elsewhere: methods are found before a call, and names are compared as strings.
- The loops that wake threads in nativeWait and in the return opcodes, and those that look for one thread in notify and in awakeThreadFromMutex, are the same text in the source and one method each here.
- MonitorRuns.ReachableStates: what a blocked or waiting thread does when it runs on alone is not followed, because it acts without the monitor that it waits for.
- ThreadSystems.ThreadSystem.Scheduler: the registers of the second half of scheduler() are `Registers.RegisterFile.SwitchTo`; the two classes are not one object.
- ThreadSystems.ThreadSystem.CreateThread: the control block and the stacks of a thread are created in different classes.
- Registers.RegisterFile.InvokeMethod: the slots of new locals hold whatever was there before.
- Registers.RegisterFile.constructor: the class initialisers, which run on the stacks of main before it, are not modelled.
- Fairness.GetsItsTurn: starts and changes of priority by the threads that run in between put others in front and are not bounded; the round for an exit is there because the next thread keeps whatever ticks it had.
- Control blocks and stacks are values in maps from addresses, not objects: aliasing is that of equal addresses.
- The error status of the flash controller, locked pages and the wait for its commands.
- FlashHardware.FlashController.ErasePage: the check of an erased page is not modelled, because the copy and the fill do not ask for it.
- 1-Wire timing and interrupts; devices that come or go during a search.
- Glyphs.DrawGlyph: the choice of the cell of a character, its padding in fixed fonts and the line feed come before the modelled part.
- Clocks.ConfigureClocks: for a request above the bound, whose products wrap around, only the form of the registers and the limit of the bus are stated.
- Interpreters.Interpreter.Replay: frames are the monitors of the active methods; the word of the Java object that holds a priority is an input.
- Boards, serial lines, displays other than the pixel buffer, floating point and arithmetic opcodes, string natives.
