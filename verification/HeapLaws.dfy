/** Collection and allocation in terms of markers and slots alone: what keeps a block, what frees it, and which block a
    request gets. */
module HeapLaws {
  import opened HeapSlots
  import opened HeapSpec
  import opened Words

  /** The block at b is in m2 what it is in m: same status, length and contents. */
  ghost predicate Unchanged(m: Memory, m2: Memory, b: nat) {
    && b < |m| == |m2| && b + m[b].Length() <= |m|
    && m2[b].status == m[b].status && m2[b].Length() == m[b].Length() && m2[b].MarkerMagic() == m[b].MarkerMagic()
    && m2[b].mutex == m[b].mutex
    && forall q :: b < q < b + m[b].Length() ==> m2[q] == m[q]
  }

  /** Slot q, inside the block at b, is a reference to the block at c. */
  ghost predicate Links(m: Memory, b: nat, q: nat, c: nat) {
    && b < q < |m| && q < b + m[b].Length() && c < |m|
    && m[q].RefMagic() == OBJECTMAGIC && m[q] != NULLOBJECT && m[q].Pos() == c && m[c].MarkerMagic() == OBJECTMAGIC
  }

  /** Slot number at[i] of the block at trail[i] refers to the block at trail[i + 1]. */
  ghost predicate Trail(m: Memory, s: seq<nat>, trail: seq<nat>, at: seq<nat>) {
    && |trail| == |at| + 1 && (forall i :: 0 <= i < |trail| ==> trail[i] in s && trail[i] < |m|)
    && forall i :: 0 <= i < |at| ==> Links(m, trail[i], at[i], trail[i + 1])
  }

  lemma {:induction false} TrailReaches(m: Memory, s: seq<nat>, roots: Roots, trail: seq<nat>, at: seq<nat>)
    requires (forall p :: p in s ==> p < |m|) && Trail(m, s, trail, at)
    requires m[trail[0]].status == STATICCLASSOBJECT || m[trail[0]].status == FREESPACE
      || exists t, k :: 0 <= t < |roots| && 0 <= k < |roots[t]| && roots[t][k].RefMagic() == OBJECTMAGIC
                        && roots[t][k].Pos() == trail[0]
    ensures Reachable(m, s, roots, trail[|at|])
    decreases |at|
  {
    if at == [] {
      if t, k :| 0 <= t < |roots| && 0 <= k < |roots[t]| && roots[t][k].RefMagic() == OBJECTMAGIC
                 && roots[t][k].Pos() == trail[0] {
        assert OnStack(roots[t], trail[0]);
      }
      assert ReachableIn(m, s, roots, trail[0], 0);
    } else {
      var n := |at| - 1;
      TrailReaches(m, s, roots, trail[..n + 1], at[..n]);
      assert Refers(m, s, at[n], trail[n + 1]);
      assert Points(m, s, trail[n], trail[n + 1]);
      ReachableStep(m, s, roots, trail[n], trail[n + 1]);
    }
  }

  lemma KeptIsUnchanged(m: Memory, m2: Memory, b: nat)
    requires Kept(m, m2, b)
    ensures Unchanged(m, m2, b)
  {
  }

  /** A collection keeps every block at the end of a trail of references that begins at a static class object, at a free
      block, or at a block that a scanned slot names. */
  lemma HeldBlockStays(m: Memory, m2: Memory, s: seq<nat>, top: nat, roots: Roots, trail: seq<nat>, at: seq<nat>)
    requires Tiled(m, s, top) && Collected(m, m2, s, roots) && Trail(m, s, trail, at)
    requires m[trail[0]].status == STATICCLASSOBJECT || m[trail[0]].status == FREESPACE
      || exists t, k :: 0 <= t < |roots| && 0 <= k < |roots[t]| && roots[t][k].RefMagic() == OBJECTMAGIC
                        && roots[t][k].Pos() == trail[0]
    ensures Tiled(m2, s, top) && Unchanged(m, m2, trail[|at|])
  {
    TrailReaches(m, s, roots, trail, at);
    hide Trail;
    hide Unchanged;
    hide Reachable;
    assert trail[|at|] in s by { TrailEnd(m, s, trail, at); }
    CollectionExact(m, m2, s, top, roots, trail[|at|]);
    KeptIsUnchanged(m, m2, trail[|at|]);
  }

  lemma TrailEnd(m: Memory, s: seq<nat>, trail: seq<nat>, at: seq<nat>)
    requires Trail(m, s, trail, at)
    ensures trail[|at|] in s && trail[|at|] < |m|
  {
  }

  /** No path of an allocation moves or changes such a block when it is in use, or hands it out again. */
  lemma HeldBlockSurvives(m: Memory, s: seq<nat>, top: nat, roots: Roots, length: u2, r: Allocation, m2: Memory,
                          s2: seq<nat>, top2: nat, trail: seq<nat>, at: seq<nat>)
    requires Tiled(m, s, top) && length >= 1 && Allocates(m, s, top, roots, length, r, m2, s2, top2)
    requires Trail(m, s, trail, at) && m[trail[|at|]].status != FREESPACE
    requires m[trail[0]].status == STATICCLASSOBJECT || m[trail[0]].status == FREESPACE
      || exists t, k :: 0 <= t < |roots| && 0 <= k < |roots[t]| && roots[t][k].RefMagic() == OBJECTMAGIC
                        && roots[t][k].Pos() == trail[0]
    ensures Tiled(m2, s2, top2) && trail[|at|] in s2 && Unchanged(m, m2, trail[|at|])
    ensures r.Allocated? ==>
      && r.pos in s2 && r.pos < |m2|
      && (r.pos + m2[r.pos].Length() <= trail[|at|] || trail[|at|] + m[trail[|at|]].Length() <= r.pos)
  {
    TrailReaches(m, s, roots, trail, at);
    TrailEnd(m, s, trail, at);
    hide Trail;
    hide Allocates;
    hide Unchanged;
    hide Reachable;
    AllocationSafe(m, s, top, roots, length, r, m2, s2, top2);
    assert Live(m, s, roots, trail[|at|]);
    hide Kept;
    KeptIsUnchanged(m, m2, trail[|at|]);
  }

  /** A static class object needs nobody to name it: it is a block with the same contents after a collection, ... */
  lemma StaticObjectStays(m: Memory, m2: Memory, s: seq<nat>, top: nat, roots: Roots, b: nat)
    requires Tiled(m, s, top) && Collected(m, m2, s, roots) && b in s && m[b].status == STATICCLASSOBJECT
    ensures Tiled(m2, s, top) && Unchanged(m, m2, b)
  {
    hide Collected;
    hide Unchanged;
    HeldBlockStays(m, m2, s, top, roots, [b], []);
  }

  /** ... and after an allocation, and lies apart from what has been allocated. */
  lemma StaticObjectSurvives(m: Memory, s: seq<nat>, top: nat, roots: Roots, length: u2, r: Allocation, m2: Memory,
                             s2: seq<nat>, top2: nat, b: nat)
    requires Tiled(m, s, top) && length >= 1 && Allocates(m, s, top, roots, length, r, m2, s2, top2)
    requires b in s && m[b].status == STATICCLASSOBJECT
    ensures Tiled(m2, s2, top2) && b in s2 && Unchanged(m, m2, b)
    ensures r.Allocated? ==>
      r.pos in s2 && r.pos < |m2| && (r.pos + m2[r.pos].Length() <= b || b + m[b].Length() <= r.pos)
  {
    hide Allocates;
    hide Unchanged;
    HeldBlockSurvives(m, s, top, roots, length, r, m2, s2, top2, [b], []);
  }

  /** Blocks in use, none of them static or at 0, that no scanned slot and no slot of any other block names, are all
      freed, even if they refer to each other.  Nothing else about them changes. */
  lemma UnheldBlocksFreed(m: Memory, m2: Memory, s: seq<nat>, top: nat, roots: Roots, garbage: set<nat>)
    requires Tiled(m, s, top) && Collected(m, m2, s, roots)
    requires forall b :: b in garbage ==>
      b != 0 && b in s && m[b].status != FREESPACE && m[b].status != STATICCLASSOBJECT
    requires forall b, t, k :: b in garbage && 0 <= t < |roots| && 0 <= k < |roots[t]| ==>
      !(roots[t][k].RefMagic() == OBJECTMAGIC && roots[t][k].Pos() == b)
    requires forall b, c, q :: b in garbage && c in s && c !in garbage && c < q < c + m[c].Length() && q < |m| ==>
      !Links(m, c, q, b)
    ensures |m2| == |m| && forall b :: b in garbage ==> m2[b] == m[b].(status := FREESPACE, rootCheck := 0)
  {
    var marked := set p | p in s && p !in garbage;
    forall b | b in s && IsRoot(m, roots, b) ensures b in marked {
    }
    forall b, c | b in s && c in s && b in marked && Points(m, s, b, c) ensures c in marked {
      var q :| b < q < b + m[b].Length() && q < |m| && Refers(m, s, q, c);
      assert Links(m, b, q, c);
    }
    forall b | b in garbage ensures m2[b] == m[b].(status := FREESPACE, rootCheck := 0) {
      OutsideClosedUnreachable(m, s, roots, marked, b);
    }
  }

  /** One block that no slot names at all. */
  lemma UnnamedBlockFreed(m: Memory, m2: Memory, s: seq<nat>, top: nat, roots: Roots, b: nat)
    requires Tiled(m, s, top) && Collected(m, m2, s, roots)
    requires b != 0 && b in s && m[b].status != FREESPACE && m[b].status != STATICCLASSOBJECT
    requires forall t, k :: 0 <= t < |roots| && 0 <= k < |roots[t]| ==>
      !(roots[t][k].RefMagic() == OBJECTMAGIC && roots[t][k].Pos() == b)
    requires forall q :: 0 <= q < |m| && q !in s ==> !(m[q].RefMagic() == OBJECTMAGIC && m[q].Pos() == b)
    ensures |m2| == |m| && m2[b].status == FREESPACE
  {
    hide Collected;
    forall c, q | c in s && c < q < c + m[c].Length() && q < |m| ensures q !in s {
      InsideIsNotStart(m, s, top, c, q);
    }
    UnheldBlocksFreed(m, m2, s, top, roots, {b});
  }

  /** Which block a request gets.  At the end of the heap as long as there is room; otherwise the lowest free one
      that is long enough, without any other change; after a collection a free one that is long enough. */
  lemma RequestMet(m: Memory, s: seq<nat>, top: nat, roots: Roots, length: u2, r: Allocation, m2: Memory, s2: seq<nat>,
                   top2: nat)
    requires Tiled(m, s, top) && length >= 1 && Allocates(m, s, top, roots, length, r, m2, s2, top2)
    ensures top + length <= |m| ==>
      && r == Allocated(top) && top2 == top + length && s2 == s + [top] && |m2| == |m|
      && m2[top].Length() == length && m2[top].status == m[top].status
      && forall q :: 0 <= q < |m| && q != top ==> m2[q] == m[q]
    ensures top + length > |m| ==> top2 == top
    ensures top + length > |m| && (exists b :: b in s && m[b].status == FREESPACE && m[b].Length() >= length) ==>
      && r.Allocated? && m2 == m && s2 == s && r.pos in s
      && m[r.pos].status == FREESPACE && m[r.pos].Length() >= length
      && forall b :: b in s && b < r.pos ==> !(m[b].status == FREESPACE && m[b].Length() >= length)
    ensures top + length > |m| && r.Allocated? ==>
      r.pos in s && r.pos < |m2| && m2[r.pos].status == FREESPACE && m2[r.pos].Length() >= length
  {
    if top + length > |m| {
      if b :| b in s && m[b].status == FREESPACE && m[b].Length() >= length {
        assert Fits(m, b, length);
      } else if NoFit(m, s, length) {
        var m1, times :| CollectsAndMerges(m, s, top, roots, length, r, m2, s2, top2, m1, times);
        LengthsCollected(m, m1, s, top, roots);
        hide Collected;
        hide Merges;
        MergesKeep(m1, s, m2, s2, top, length, times);
      }
    }
  }

  /** A request fails only if every free block that is left is too short, and 20 pairs of free blocks have been joined
      or no two free blocks are neighbours any more. */
  lemma RequestRefused(m: Memory, s: seq<nat>, top: nat, roots: Roots, length: u2, m2: Memory, s2: seq<nat>, top2: nat)
    requires Tiled(m, s, top) && length >= 1 && Allocates(m, s, top, roots, length, GaveUp, m2, s2, top2)
    ensures top + length > |m| && Tiled(m2, s2, top)
    ensures forall b :: b in s2 && m2[b].status == FREESPACE ==> m2[b].Length() < length
    ensures |s2| == |s| - 20 || forall b, c :: b in s2 && c in s2 && c == b + m2[b].Length() ==>
      m2[b].status != FREESPACE || m2[c].status != FREESPACE
  {
    hide Tiled;
    GivesUpOnlyWhenFull(m, s, top, roots, length, m2, s2, top2);
    AllocationSafe(m, s, top, roots, length, GaveUp, m2, s2, top2);
    assert top2 == top;
    hide Allocates;
    forall b | b in s2 && m2[b].status == FREESPACE ensures m2[b].Length() < length {
      assert !Fits(m2, b, length);
    }
    forall b, c | NoFreeNeighbours(m2, s2) && b in s2 && c in s2 && c == b + m2[b].Length()
      ensures m2[b].status != FREESPACE || m2[c].status != FREESPACE
    {
      var i :| 0 <= i < |s2| && s2[i] == b;
      NeighbourIsNext(m2, s2, top, i);
      assert !BothFree(m2, s2, i);
    }
  }

  lemma NeighbourIsNext(m: Memory, s: seq<nat>, top: nat, i: nat)
    requires Tiled(m, s, top) && i < |s| && s[i] + m[s[i]].Length() in s
    ensures i + 1 < |s| && s[i + 1] == s[i] + m[s[i]].Length()
  {
    assert Adjacent(m, s, top, i);
  }
}
