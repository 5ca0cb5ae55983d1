/** The allocator and the mark-sweep collector, over one array of slots. */
module HeapManager {
  import opened HeapSlots
  import opened HeapSpec
  import opened Words

  class Heap {
    var mem: array<slot>
    var heapTop: nat
    ghost var starts: seq<nat>

    ghost predicate Valid()
      reads this, mem
    {
      mem.Length < 0xFFFF && Tiled(mem[..], starts, heapTop)
    }

    function GetNextHeapObjectPos(pos: nat): (next: nat)
      requires pos < mem.Length
      reads this, mem
    {
      if pos + mem[pos].Length() < heapTop then pos + mem[pos].Length() else heapTop + 1
    }

    /** In block order, the successor of block i is block i+1, and the last one leaves the heap. */
    lemma NextIsNextStart(i: nat)
      requires Valid() && i < |starts|
      ensures starts[i] < heapTop
      ensures i + 1 < |starts| ==> GetNextHeapObjectPos(starts[i]) == starts[i + 1] < heapTop
      ensures i + 1 == |starts| ==> GetNextHeapObjectPos(starts[i]) == heapTop + 1
    {
      assert Adjacent(mem[..], starts, heapTop, i);
      assert starts[i] in starts;
      if i + 1 < |starts| {
        assert starts[i + 1] in starts;
      }
    }

    method CanItBeAnObject(pos: nat) returns (retV: bool)
      requires Valid() && heapTop > 0
      ensures retV <==> pos in starts
    {
      retV := false;
      var nextElementPos := 0;
      ghost var i := 0;
      while true
        invariant 0 <= i < |starts| && nextElementPos == starts[i]
        invariant pos !in starts[..i]
        decreases |starts| - i
      {
        NextIsNextStart(i);
        if nextElementPos == pos {
          return true;
        }
        assert starts[..i + 1] == starts[..i] + [starts[i]];
        nextElementPos := GetNextHeapObjectPos(nextElementPos);
        if nextElementPos >= heapTop {
          assert starts[..i + 1] == starts;
          return false;
        }
        i := i + 1;
      }
    }

    /** Does any scanned stack slot name the block at pos?  Threads in list order, each stack from the top down. */
    static method IsOnSomeStack(roots: Roots, pos: nat) returns (found: bool)
      ensures found <==> OnSomeStack(roots, pos)
    {
      found := false;
      var t := 0;
      while t < |roots|
        invariant 0 <= t <= |roots|
        invariant forall k :: 0 <= k < t ==> !OnStack(roots[k], pos)
      {
        var opSPPos := |roots[t]|;
        while opSPPos > 0
          invariant 0 <= opSPPos <= |roots[t]|
          invariant forall k :: opSPPos <= k < |roots[t]| ==>
            !(roots[t][k].Pos() == pos && roots[t][k].RefMagic() == OBJECTMAGIC)
        {
          opSPPos := opSPPos - 1;
          if roots[t][opSPPos].Pos() == pos && roots[t][opSPPos].RefMagic() == OBJECTMAGIC {
            assert OnStack(roots[t], pos);
            return true;
          }
        }
        assert !OnStack(roots[t], pos);
        t := t + 1;
      }
    }

    /** Marks the block at pos if it is free, static or named by a scanned stack slot, and unmarks it otherwise. */
    method MarkIfRoot(roots: Roots, pos: nat)
      requires pos < mem.Length
      modifies mem
      ensures mem[..] ==
        old(mem[..])[pos := old(mem[pos]).(rootCheck := if IsRoot(old(mem[..]), roots, pos) then 1 else 0)]
    {
      mem[pos] := mem[pos].(rootCheck := 0);
      if mem[pos].status == FREESPACE || mem[pos].status == STATICCLASSOBJECT {
        mem[pos] := mem[pos].(rootCheck := 1);
        return;
      }
      var found := IsOnSomeStack(roots, pos);
      if found {
        mem[pos] := mem[pos].(rootCheck := 1);
      }
    }

    method MarkRoots(roots: Roots)
      requires Valid() && heapTop > 0
      modifies mem
      ensures Valid() && OnlyMarks(old(mem[..]), mem[..], starts)
      ensures forall p :: p in starts ==> mem[p].rootCheck == if IsRoot(old(mem[..]), roots, p) then 1 else 0
    {
      ghost var m := mem[..];
      var nextElementPos := 0;
      ghost var i := 0;
      while true
        invariant Valid() && OnlyMarks(m, mem[..], starts)
        invariant 0 <= i < |starts| && nextElementPos == starts[i]
        invariant RootsMarked(m, mem[..], starts, roots, i)
        decreases |starts| - i
      {
        ghost var m1 := mem[..];
        assert starts[i] in starts;
        MarkIfRoot(roots, nextElementPos);
        RootStep(m, m1, mem[..], starts, heapTop, roots, i);
        NextIsNextStart(i);
        nextElementPos := GetNextHeapObjectPos(nextElementPos);
        if nextElementPos >= heapTop {
          break;
        }
        i := i + 1;
      }
    }

    /** Marks the block that slot q refers to, if q holds a recognised reference to an unmarked one. */
    method MarkReferent(q: nat) returns (changed: bool)
      requires Valid() && heapTop > 0 && q < mem.Length && q !in starts
      modifies mem
      ensures Valid() && OnlyMarks(old(mem[..]), mem[..], starts)
      ensures forall p :: p in starts ==>
        mem[p].rootCheck == if Refers(old(mem[..]), starts, q, p) then 1 else old(mem[p].rootCheck)
      ensures !changed ==> mem[..] == old(mem[..])
      ensures changed ==> NewMark(old(mem[..]), mem[..], starts)
    {
      ghost var m := mem[..];
      var ref := mem[q];
      changed := false;
      if ref.RefMagic() == OBJECTMAGIC && ref != NULLOBJECT {
        var canBe := CanItBeAnObject(ref.Pos());
        if canBe && mem[ref.Pos()].MarkerMagic() == OBJECTMAGIC && mem[ref.Pos()].rootCheck == 0 {
          mem[ref.Pos()] := mem[ref.Pos()].(rootCheck := 1);
          MarkKeepsTiling(m, m, mem[..], starts, heapTop, ref.Pos());
          changed := true;
        }
      }
    }

    /** One round of the scan of the block at b: slot i. */
    method ScanSlot(b: nat, i: nat, changed0: bool, ghost m: Memory) returns (changed: bool)
      requires Valid() && heapTop > 0 && Tiled(m, starts, heapTop) && b in starts && b < |m| && 1 <= i < m[b].Length()
      requires ScannedTo(m, mem[..], starts, b, i, changed0)
      modifies mem
      ensures Valid() && ScannedTo(m, mem[..], starts, b, i + 1, changed)
    {
      hide Refers;
      ghost var m1 := mem[..];
      BlockInside(m, starts, heapTop, b);
      InsideIsNotStart(m, starts, heapTop, b, b + i);
      var marked := MarkReferent(b + i);
      ScanStep(m, m1, mem[..], starts, heapTop, b, b + i);
      changed := changed0 || marked;
      hide Tiled;
    }

    /** Marks every block that the block at b refers to. */
    method ScanBlock(b: nat) returns (changed: bool)
      requires Valid() && heapTop > 0 && b in starts && mem[b].Length() <= 0xFF
      modifies mem
      ensures Valid() && OnlyMarks(old(mem[..]), mem[..], starts)
      ensures MarksGrow(old(mem[..]), mem[..], starts)
      ensures forall p :: p in starts && Points(old(mem[..]), starts, b, p) ==> mem[p].rootCheck == 1
      ensures forall p :: p in starts && mem[p].rootCheck == 1 ==>
        old(mem[p].rootCheck) == 1 || Points(old(mem[..]), starts, b, p)
      ensures !changed ==> mem[..] == old(mem[..])
      ensures changed ==> NewMark(old(mem[..]), mem[..], starts)
    {
      hide ScannedTo;
      hide OnlyMarks;
      hide MarksGrow;
      hide NewMark;
      hide Points;
      hide Adjacent;
      ghost var m := mem[..];
      changed := false;
      var i: u1 := 1;
      BlockInside(m, starts, heapTop, b);
      ScanBegins(m, starts, b);
      while i < mem[b].Length()
        invariant Valid() && Tiled(m, starts, heapTop) && b < |m| == mem.Length && 1 <= i <= m[b].Length() <= 0xFF
        invariant ScannedTo(m, mem[..], starts, b, i, changed) && mem[b].Length() == m[b].Length()
        decreases m[b].Length() - i
      {
        changed := ScanSlot(b, i, changed, m);
        ScannedLength(m, mem[..], starts, b, i + 1, changed);
        i := NextIndex(i);
      }
      ScanEnded(m, mem[..], starts, b, i, changed);
    }

    /** If the block at b is marked, marks what it refers to; m is the memory before any marking. */
    method VisitBlock(ghost m: Memory, ghost roots: Roots, b: nat) returns (changed: bool)
      requires Valid() && heapTop > 0 && OnlyMarks(m, mem[..], starts) && b in starts
      requires MarksSound(m, mem[..], starts, roots)
      requires Reachable(m, starts, roots, b) ==> m[b].Length() <= 0xFF
      modifies mem
      ensures Valid() && OnlyMarks(m, mem[..], starts) && MarksSound(m, mem[..], starts, roots)
      ensures MarksGrow(old(mem[..]), mem[..], starts)
      ensures changed ==> NewMark(old(mem[..]), mem[..], starts)
      ensures !changed ==> mem[..] == old(mem[..]) && BlockClosed(m, mem[..], starts, b)
    {
      changed := false;
      if mem[b].rootCheck == 1 {
        ghost var m1 := mem[..];
        SameLengthsKeepTiling(m1, m, starts, heapTop);
        changed := ScanBlock(b);
        ScanReaches(m, m1, mem[..], starts, heapTop, roots, b);
      }
    }

    /** One pass of the marking loop over the whole heap. */
    method MarkPass(ghost m: Memory, ghost roots: Roots) returns (stillAConcatedObject: bool)
      requires Valid() && heapTop > 0 && OnlyMarks(m, mem[..], starts)
      requires MarksSound(m, mem[..], starts, roots)
      requires forall p :: p in starts && Reachable(m, starts, roots, p) ==> m[p].Length() <= 0xFF
      modifies mem
      ensures Valid() && OnlyMarks(m, mem[..], starts) && MarksSound(m, mem[..], starts, roots)
      ensures MarksGrow(old(mem[..]), mem[..], starts)
      ensures stillAConcatedObject ==> NewMark(old(mem[..]), mem[..], starts)
      ensures !stillAConcatedObject ==> MarksClosed(m, mem[..], starts)
    {
      ghost var m0 := mem[..];
      stillAConcatedObject := false;
      var nextElementPos := 0;
      ghost var i := 0;
      while true
        invariant Valid() && OnlyMarks(m, mem[..], starts) && MarksSound(m, mem[..], starts, roots)
        invariant 0 <= i < |starts| && nextElementPos == starts[i]
        invariant MarksGrow(m0, mem[..], starts)
        invariant stillAConcatedObject ==> NewMark(m0, mem[..], starts)
        invariant !stillAConcatedObject ==>
          mem[..] == m0 && forall j :: 0 <= j < i ==> BlockClosed(m, m0, starts, starts[j])
        decreases |starts| - i
      {
        assert starts[i] in starts;
        var changed := VisitBlock(m, roots, nextElementPos);
        stillAConcatedObject := stillAConcatedObject || changed;
        NextIsNextStart(i);
        nextElementPos := GetNextHeapObjectPos(nextElementPos);
        if nextElementPos >= heapTop {
          break;
        }
        i := i + 1;
      }
    }

    method Sweep()
      requires Valid() && heapTop > 0
      modifies mem
      ensures Valid() && |mem[..]| == |old(mem[..])|
      ensures forall q :: 0 <= q < mem.Length && (q == 0 || q !in starts || old(mem[q].rootCheck) == 1) ==>
        mem[q] == old(mem[q])
      ensures forall q :: q in starts && q != 0 && old(mem[q].rootCheck) == 0 ==>
        mem[q] == old(mem[q]).(status := FREESPACE)
    {
      ghost var m := mem[..];
      NextIsNextStart(0);
      var nextElementPos := GetNextHeapObjectPos(0);
      ghost var i := 1;
      while nextElementPos < heapTop
        invariant Valid() && |m| == mem.Length
        invariant 1 <= i <= |starts| && nextElementPos == if i < |starts| then starts[i] else heapTop + 1
        invariant Swept(m, mem[..], starts, i)
        decreases |starts| - i
      {
        ghost var m1 := mem[..];
        if mem[nextElementPos].rootCheck == 0 {
          mem[nextElementPos] := mem[nextElementPos].(status := FREESPACE);
        }
        SweepStep(m, m1, mem[..], starts, heapTop, i);
        NextIsNextStart(i);
        nextElementPos := GetNextHeapObjectPos(nextElementPos);
        i := i + 1;
      }
      SweptAll(m, mem[..], starts, heapTop);
    }

    /** Marks from the stacks and static objects, then frees every block left unmarked. */
    method CheckObjects(roots: Roots)
      requires Valid() && heapTop > 0
      requires forall p :: p in starts && Reachable(mem[..], starts, roots, p) ==> mem[p].Length() <= 0xFF
      modifies mem
      ensures Valid() && Collected(old(mem[..]), mem[..], starts, roots)
    {
      ghost var m := mem[..];
      MarkRoots(roots);
      RootsReachable(m, starts, roots);
      var stillAConcatedObject := true;
      while stillAConcatedObject
        invariant Valid() && OnlyMarks(m, mem[..], starts)
        invariant forall p :: p in starts && IsRoot(m, roots, p) ==> mem[p].rootCheck == 1
        invariant MarksSound(m, mem[..], starts, roots)
        invariant !stillAConcatedObject ==> MarksClosed(m, mem[..], starts)
        decreases Unmarked(mem[..], starts), stillAConcatedObject
      {
        ghost var m1 := mem[..];
        stillAConcatedObject := MarkPass(m, roots);
        MorePassesEnd(m1, mem[..], starts, stillAConcatedObject);
      }
      MarkedIsReachable(m, mem[..], starts, roots);
      Sweep();
    }

    /** heapInit: every slot becomes the null reference and the heap is empty. */
    constructor (maxHeap: nat)
      requires maxHeap < 0xFFFF
      ensures Valid() && heapTop == 0 && fresh(mem) && mem.Length == maxHeap
      ensures SmallBlocks(mem[..], starts) && forall q :: 0 <= q < maxHeap ==> mem[q] == NULLOBJECT
    {
      mem := new slot[maxHeap];
      heapTop := maxHeap;
      starts := [];
      new;
      while heapTop > 0
        invariant 0 <= heapTop <= maxHeap == mem.Length && fresh(mem) && starts == []
        invariant forall q :: heapTop <= q < maxHeap ==> mem[q] == NULLOBJECT
      {
        heapTop := heapTop - 1;
        mem[heapTop] := NULLOBJECT;
      }
    }

    method SearchFirstFit(length: u2) returns (found: bool, pos: nat)
      requires Valid() && heapTop > 0
      ensures found ==> FirstFit(mem[..], starts, length, pos)
      ensures !found ==> NoFit(mem[..], starts, length)
    {
      pos := 0;
      ghost var i := 0;
      StartsSorted(mem[..], starts, heapTop);
      while true
        invariant 0 <= i < |starts| && pos == starts[i]
        invariant forall j :: 0 <= j < i ==> !Fits(mem[..], starts[j], length)
        decreases |starts| - i
      {
        if mem[pos].status == FREESPACE && mem[pos].Length() >= length {
          return true, pos;
        }
        NextIsNextStart(i);
        var next := GetNextHeapObjectPos(pos);
        if next >= heapTop {
          return false, pos;
        }
        pos := next;
        i := i + 1;
      }
    }

    /** Merges the first two neighbouring free blocks, if there are any. */
    method MergeOnce() returns (merged: bool)
      requires Valid() && heapTop > 0
      modifies mem, this`starts
      ensures Valid()
      ensures merged ==> MergedOnce(old(mem[..]), old(starts), mem[..], starts)
      ensures !merged ==> mem[..] == old(mem[..]) && starts == old(starts) && NoFreeNeighbours(mem[..], starts)
    {
      ghost var m := mem[..];
      var nextElementPos, oldElementPos := 0, 0;
      ghost var i := 0;
      NextIsNextStart(0);
      nextElementPos := GetNextHeapObjectPos(nextElementPos);
      while nextElementPos < heapTop
        invariant Valid() && mem[..] == m && starts == old(starts)
        invariant 0 <= i < |starts| && oldElementPos == starts[i]
        invariant nextElementPos == if i + 1 < |starts| then starts[i + 1] else heapTop + 1
        invariant forall j :: 0 <= j < i ==> !BothFree(m, starts, j)
        decreases |starts| - i
      {
        assert Adjacent(m, starts, heapTop, i) && Adjacent(m, starts, heapTop, i + 1);
        if mem[nextElementPos].status == FREESPACE && mem[oldElementPos].status == FREESPACE {
          mem[oldElementPos] :=
            mem[oldElementPos].WithLength(mem[oldElementPos].Length() + mem[nextElementPos].Length());
          starts := starts[..i + 1] + starts[i + 2..];
          assert MergedAt(m, old(starts), mem[..], starts, i);
          MergeKeepsTiling(m, old(starts), mem[..], starts, heapTop);
          return true;
        }
        oldElementPos := nextElementPos;
        NextIsNextStart(i + 1);
        nextElementPos := GetNextHeapObjectPos(nextElementPos);
        i := i + 1;
      }
      return false;
    }

    /** Up to 20 rounds of one merge followed by one search. */
    method MergeAndSearch(length: u2) returns (r: Allocation, ghost times: nat)
      requires Valid() && heapTop > 0 && NoFit(mem[..], starts, length)
      modifies mem, this`starts
      ensures Valid() && Merges(old(mem[..]), old(starts), mem[..], starts, length, times)
      ensures times <= GARBAGEFUSIONTRIALS
      ensures r.Allocated? ==> FirstFit(mem[..], starts, length, r.pos)
      ensures r.GaveUp? ==> NoFit(mem[..], starts, length)
      ensures r.GaveUp? ==> times == GARBAGEFUSIONTRIALS || NoFreeNeighbours(mem[..], starts)
    {
      hide Merges;
      hide MergedOnce;
      hide NoFit;
      hide FirstFit;
      hide Tiled;
      hide NoFreeNeighbours;
      ghost var m, s := mem[..], starts;
      StartsInside(m, s, heapTop);
      NoMergeYet(m, s, length);
      times := 0;
      var schmelz := 0;
      while schmelz < 20
        invariant Valid() && heapTop > 0 && 0 <= times <= schmelz <= 20
        invariant Merges(m, s, mem[..], starts, length, times)
        invariant (forall p :: p in starts ==> p < mem.Length) && NoFit(mem[..], starts, length)
        invariant times == schmelz || NoFreeNeighbours(mem[..], starts)
      {
        ghost var m1, s1 := mem[..], starts;
        var merged := MergeOnce();
        StartsInside(mem[..], starts, heapTop);
        if merged {
          if times < schmelz {
            NoneToMerge(m1, s1, mem[..], starts);
          }
          OneMoreMerge(m, s, m1, s1, mem[..], starts, length, times);
          times := times + 1;
        }
        var found, pos := SearchFirstFit(length);
        if found {
          return Allocated(pos), times;
        }
        schmelz := schmelz + 1;
      }
      return GaveUp, times;
    }

    /** The slow path: collect, search, merge and search. */
    method CollectAndMerge(length: u2, roots: Roots) returns (r: Allocation, ghost m1: Memory, ghost times: nat)
      requires Valid() && heapTop > 0
      requires forall p :: p in starts && Reachable(mem[..], starts, roots, p) ==> mem[p].Length() <= 0xFF
      modifies mem, this`starts
      ensures Valid()
      ensures CollectsAndMerges(old(mem[..]), old(starts), heapTop, roots, length, r, mem[..], starts, heapTop, m1,
                                times)
    {
      hide Merges;
      CheckObjects(roots);
      hide Collected;
      m1, times := mem[..], 0;
      NoMergeYet(m1, starts, length);
      var found, pos := SearchFirstFit(length);
      if found {
        return Allocated(pos), m1, 0;
      }
      r, times := MergeAndSearch(length);
    }

    /** Finds a block of at least `length` slots: bump, first fit, collect, first fit, merge.  For requests of at
        most 128 slots the blocks stay short enough to be scanned. */
    method GetFreeHeapSpace(length: u2, roots: Roots) returns (r: Allocation)
      requires Valid() && length >= 1
      requires heapTop > 0 || length <= mem.Length
      requires heapTop + length > mem.Length && NoFit(mem[..], starts, length) ==>
        forall p :: p in starts && Reachable(mem[..], starts, roots, p) ==> mem[p].Length() <= 0xFF
      modifies this`heapTop, this`starts, mem
      ensures Valid()
      ensures Allocates(old(mem[..]), old(starts), old(heapTop), roots, length, r, mem[..], starts, heapTop)
      ensures length <= 0x80 && old(SmallBlocks(mem[..], starts)) ==> SmallBlocks(mem[..], starts)
    {
      hide SmallBlocks;
      hide CollectsAndMerges;
      ghost var m, s, top := mem[..], starts, heapTop;
      if heapTop + length - 1 < mem.Length {
        mem[heapTop] := mem[heapTop].WithLength(length);
        BumpKeeps(m, s, top, length, mem[..], s + [top]);
        starts := starts + [heapTop];
        heapTop := heapTop + length;
        AllocationStaysSmall(m, s, top, roots, length, Allocated(heapTop - length), mem[..], starts, heapTop);
        return Allocated(heapTop - length);
      }
      var found, pos := SearchFirstFit(length);
      if found {
        AllocationStaysSmall(m, s, top, roots, length, Allocated(pos), m, s, top);
        return Allocated(pos);
      }
      ghost var m1, times;
      r, m1, times := CollectAndMerge(length, roots);
      AllocationStaysSmall(m, s, top, roots, length, r, mem[..], starts, heapTop);
    }
  }
}
