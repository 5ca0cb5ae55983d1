/** What the heap means: how blocks tile the slot array and which blocks are reachable. */
module HeapSpec {
  import opened HeapSlots
  import opened Words

  type Memory = seq<slot>
  type Roots = seq<seq<slot>>   // per thread, the operand-stack slots that are scanned

  // Tiling

  /** Block i ends where block i+1 starts, and the last one ends at the top. */
  ghost predicate Adjacent(m: Memory, starts: seq<nat>, top: nat, i: int) {
    && 0 <= i < |starts| && starts[i] < top <= |m|
    && m[starts[i]].Length() >= 1
    && starts[i] + m[starts[i]].Length() == if i + 1 < |starts| then starts[i + 1] else top
  }

  /** The blocks at `starts`, in order, cover exactly the slots [0, top). */
  ghost predicate Tiled(m: Memory, starts: seq<nat>, top: nat) {
    && top <= |m|
    && (|starts| == 0 <==> top == 0)
    && (|starts| != 0 ==> starts[0] == 0)
    && (forall s :: s in starts ==> s < top)
    && (forall i :: 0 <= i < |starts| ==> starts[i] < top)
    && forall i :: 0 <= i < |starts| ==> Adjacent(m, starts, top, i)
  }

  lemma {:induction false} StartsIncrease(m: Memory, starts: seq<nat>, top: nat, i: nat, j: nat)
    requires Tiled(m, starts, top) && i < j < |starts|
    ensures starts[i] < |m| && starts[i] + m[starts[i]].Length() <= starts[j]
    decreases j
  {
    assert Adjacent(m, starts, top, j - 1);
    if i + 1 < j {
      StartsIncrease(m, starts, top, i, j - 1);
    }
  }

  /** Distinct blocks do not overlap. */
  lemma BlocksDisjoint(m: Memory, starts: seq<nat>, top: nat, p: nat, q: nat)
    requires Tiled(m, starts, top) && p in starts && q in starts && p < q
    ensures p + m[p].Length() <= q && q + m[q].Length() <= top
  {
    var i :| 0 <= i < |starts| && starts[i] == p;
    var j :| 0 <= j < |starts| && starts[j] == q;
    if j < i {
      StartsIncrease(m, starts, top, j, i);
    } else if i < j {
      StartsIncrease(m, starts, top, i, j);
    }
    assert Adjacent(m, starts, top, i) && Adjacent(m, starts, top, j);
    if j + 1 < |starts| {
      assert Adjacent(m, starts, top, j + 1);
    }
  }

  lemma BlockInside(m: Memory, starts: seq<nat>, top: nat, p: nat)
    requires Tiled(m, starts, top) && p in starts
    ensures p < p + m[p].Length() <= top
  {
    var i :| 0 <= i < |starts| && starts[i] == p;
    assert Adjacent(m, starts, top, i);
    if i + 1 < |starts| {
      assert starts[i + 1] in starts;
    }
  }

  lemma StartsSorted(m: Memory, starts: seq<nat>, top: nat)
    requires Tiled(m, starts, top)
    ensures forall i, j :: 0 <= i < j < |starts| ==> starts[i] < starts[j]
    ensures forall i, j :: 0 <= i < |starts| && 0 <= j < |starts| && starts[i] == starts[j] ==> i == j
  {
    forall i, j | 0 <= i < j < |starts| ensures starts[i] < starts[j] {
      StartsIncrease(m, starts, top, i, j);
      assert Adjacent(m, starts, top, i);
    }
  }

  /** The lengths alone determine the blocks. */
  lemma {:induction false} TilingUnique(m: Memory, s: seq<nat>, t: seq<nat>, top: nat, n: nat)
    requires Tiled(m, s, top) && Tiled(m, t, top)
    ensures n < |s| ==> n < |t| && s[n] == t[n]
  {
    if 0 < n < |s| {
      TilingUnique(m, s, t, top, n - 1);
      assert Adjacent(m, s, top, n - 1) && Adjacent(m, t, top, n - 1) && Adjacent(m, s, top, n);
    }
  }

  /** A slot strictly inside a block is not itself the start of a block. */
  lemma InsideIsNotStart(m: Memory, starts: seq<nat>, top: nat, b: nat, q: nat)
    requires Tiled(m, starts, top) && b in starts && b < q < b + m[b].Length()
    ensures q !in starts && q < top
  {
    if q in starts {
      BlocksDisjoint(m, starts, top, b, q);
    }
    var i :| 0 <= i < |starts| && starts[i] == b;
    assert Adjacent(m, starts, top, i);
    if i + 1 < |starts| {
      assert Adjacent(m, starts, top, i + 1);
    }
  }

  // Reachability

  /** Slot q holds what the collector recognises as a reference to block p. */
  ghost predicate Refers(m: Memory, starts: seq<nat>, q: nat, p: nat)
    requires q < |m| && forall s :: s in starts ==> s < |m|
  {
    && m[q].RefMagic() == OBJECTMAGIC && m[q] != NULLOBJECT
    && m[q].Pos() == p && p in starts && m[p].MarkerMagic() == OBJECTMAGIC
  }

  ghost predicate Points(m: Memory, starts: seq<nat>, b: nat, p: nat)
    requires b < |m| && forall s :: s in starts ==> s < |m|
  {
    exists q :: b < q < b + m[b].Length() && q < |m| && Refers(m, starts, q, p)
  }

  ghost predicate OnStack(stack: seq<slot>, p: nat) {
    exists k :: 0 <= k < |stack| && stack[k].Pos() == p && stack[k].RefMagic() == OBJECTMAGIC
  }

  ghost predicate OnSomeStack(roots: Roots, p: nat) {
    exists t :: 0 <= t < |roots| && OnStack(roots[t], p)
  }

  /** Free blocks, static class objects and blocks some scanned stack slot names. */
  ghost predicate IsRoot(m: Memory, roots: Roots, p: nat)
    requires p < |m|
  {
    m[p].status == FREESPACE || m[p].status == STATICCLASSOBJECT || OnSomeStack(roots, p)
  }

  ghost predicate ReachableIn(m: Memory, starts: seq<nat>, roots: Roots, p: nat, n: nat)
    requires forall s :: s in starts ==> s < |m|
    decreases n
  {
    && p in starts
    && (IsRoot(m, roots, p)
        || (n > 0 && exists b :: b in starts && ReachableIn(m, starts, roots, b, n - 1) && Points(m, starts, b, p)))
  }

  /** Block p is a root or is found from one by following references. */
  ghost predicate Reachable(m: Memory, starts: seq<nat>, roots: Roots, p: nat)
    requires forall s :: s in starts ==> s < |m|
  {
    exists n: nat :: ReachableIn(m, starts, roots, p, n)
  }

  lemma ReachableStep(m: Memory, starts: seq<nat>, roots: Roots, b: nat, p: nat)
    requires forall s :: s in starts ==> s < |m|
    requires b in starts && p in starts && Reachable(m, starts, roots, b) && Points(m, starts, b, p)
    ensures Reachable(m, starts, roots, p)
  {
    var n: nat :| ReachableIn(m, starts, roots, b, n);
    assert ReachableIn(m, starts, roots, p, n + 1);
  }

  /** A set that holds the roots and is closed under references holds every reachable block. */
  lemma {:induction false} ClosedHoldsReachable(m: Memory, starts: seq<nat>, roots: Roots, marked: set<nat>, p: nat,
                                                n: nat)
    requires forall s :: s in starts ==> s < |m|
    requires forall b :: b in starts && IsRoot(m, roots, b) ==> b in marked
    requires forall b, c :: b in starts && c in starts && b in marked && Points(m, starts, b, c) ==> c in marked
    requires ReachableIn(m, starts, roots, p, n)
    ensures p in marked
    decreases n
  {
    if !IsRoot(m, roots, p) {
      var b :| b in starts && ReachableIn(m, starts, roots, b, n - 1) && Points(m, starts, b, p);
      ClosedHoldsReachable(m, starts, roots, marked, b, n - 1);
    }
  }

  lemma OutsideClosedUnreachable(m: Memory, starts: seq<nat>, roots: Roots, marked: set<nat>, p: nat)
    requires forall s :: s in starts ==> s < |m|
    requires forall b :: b in starts && IsRoot(m, roots, b) ==> b in marked
    requires forall b, c :: b in starts && c in starts && b in marked && Points(m, starts, b, c) ==> c in marked
    requires p !in marked
    ensures !Reachable(m, starts, roots, p)
  {
    if Reachable(m, starts, roots, p) {
      var n: nat :| ReachableIn(m, starts, roots, p, n);
      ClosedHoldsReachable(m, starts, roots, marked, p, n);
    }
  }

  // Collection

  /** m2 is m except that markers may carry other rootCheck bits. */
  ghost predicate OnlyMarks(m: Memory, m2: Memory, starts: seq<nat>) {
    && |m| == |m2|
    && (forall q :: 0 <= q < |m| && q !in starts ==> m2[q] == m[q])
    && (forall q :: 0 <= q < |m| && q in starts ==> m2[q] == m[q].(rootCheck := m2[q].rootCheck))
  }

  lemma SameLengthsKeepTiling(m: Memory, m2: Memory, starts: seq<nat>, top: nat)
    requires Tiled(m, starts, top) && |m| == |m2|
    requires forall p :: p in starts ==> m2[p].Length() == m[p].Length()
    ensures Tiled(m2, starts, top)
  {
    forall i | 0 <= i < |starts| ensures Adjacent(m2, starts, top, i) {
      assert Adjacent(m, starts, top, i) && starts[i] in starts;
    }
  }

  lemma MarkKeepsTiling(m: Memory, m1: Memory, m2: Memory, starts: seq<nat>, top: nat, p: nat)
    requires Tiled(m1, starts, top) && OnlyMarks(m, m1, starts) && p in starts
    requires |m2| == |m1| && m2[p] == m1[p].(rootCheck := m2[p].rootCheck)
    requires forall q :: 0 <= q < |m1| && q != p ==> m2[q] == m1[q]
    ensures Tiled(m2, starts, top) && OnlyMarks(m, m2, starts)
  {
    SameLengthsKeepTiling(m1, m2, starts, top);
  }

  /** The first `done` blocks carry a mark exactly if they are roots. */
  ghost predicate RootsMarked(m: Memory, m2: Memory, starts: seq<nat>, roots: Roots, done: nat)
    requires |m| == |m2| && done <= |starts| && forall i :: 0 <= i < |starts| ==> starts[i] < |m|
  {
    forall j :: 0 <= j < done ==> m2[starts[j]].rootCheck == if IsRoot(m, roots, starts[j]) then 1 else 0
  }

  lemma RootStep(m: Memory, m1: Memory, m2: Memory, starts: seq<nat>, top: nat, roots: Roots, i: nat)
    requires Tiled(m, starts, top) && Tiled(m1, starts, top) && OnlyMarks(m, m1, starts) && i < |starts|
    requires RootsMarked(m, m1, starts, roots, i) && |m2| == |m1|
    requires m2[starts[i]] == m1[starts[i]].(rootCheck := if IsRoot(m, roots, starts[i]) then 1 else 0)
    requires forall q :: 0 <= q < |m1| && q != starts[i] ==> m2[q] == m1[q]
    ensures Tiled(m2, starts, top) && OnlyMarks(m, m2, starts) && RootsMarked(m, m2, starts, roots, i + 1)
  {
    StartsSorted(m, starts, top);
    MarkKeepsTiling(m, m1, m2, starts, top, starts[i]);
  }

  /** The blocks 1 .. done-1 have been swept: unmarked ones are free and nothing else differs. */
  ghost predicate Swept(m: Memory, m2: Memory, starts: seq<nat>, done: nat)
    requires |m| == |m2| && 1 <= done <= |starts| && forall i :: 0 <= i < |starts| ==> starts[i] < |m|
  {
    && (forall j :: 1 <= j < done ==>
         m2[starts[j]] == if m[starts[j]].rootCheck == 0 then m[starts[j]].(status := FREESPACE) else m[starts[j]])
    && (forall q :: 0 <= q < |m| && q !in starts[1..done] ==> m2[q] == m[q])
  }

  lemma SweepStep(m: Memory, m1: Memory, m2: Memory, starts: seq<nat>, top: nat, i: nat)
    requires Tiled(m, starts, top) && Tiled(m1, starts, top) && 1 <= i < |starts| && |m| == |m1| == |m2|
    requires Swept(m, m1, starts, i)
    requires m2[starts[i]] ==
      if m1[starts[i]].rootCheck == 0 then m1[starts[i]].(status := FREESPACE) else m1[starts[i]]
    requires forall q :: 0 <= q < |m1| && q != starts[i] ==> m2[q] == m1[q]
    ensures Tiled(m2, starts, top) && Swept(m, m2, starts, i + 1)
  {
    StartsSorted(m, starts, top);
    SameLengthsKeepTiling(m1, m2, starts, top);
    assert starts[1..i + 1] == starts[1..i] + [starts[i]];
  }

  lemma SweptAll(m: Memory, m2: Memory, starts: seq<nat>, top: nat)
    requires Tiled(m, starts, top) && |m2| == |m| && top > 0 && Swept(m, m2, starts, |starts|)
    ensures forall q :: 0 <= q < |m| && (q == 0 || q !in starts || m[q].rootCheck == 1) ==> m2[q] == m[q]
    ensures forall q :: q in starts && q != 0 && m[q].rootCheck == 0 ==> m2[q] == m[q].(status := FREESPACE)
  {
    StartsSorted(m, starts, top);
    assert forall q :: q in starts && q != 0 ==> q in starts[1..];
  }

  lemma MarksKeepPoints(m: Memory, m2: Memory, starts: seq<nat>, top: nat, b: nat, p: nat)
    requires Tiled(m, starts, top) && OnlyMarks(m, m2, starts) && b in starts
    ensures Points(m2, starts, b, p) <==> Points(m, starts, b, p)
  {
    forall q | b < q < b + m[b].Length()
      ensures q < |m| && m2[q] == m[q] && (Refers(m2, starts, q, p) <==> Refers(m, starts, q, p))
    {
      InsideIsNotStart(m, starts, top, b, q);
    }
  }

  ghost predicate MarksSound(m: Memory, m2: Memory, starts: seq<nat>, roots: Roots)
    requires |m| == |m2| && forall s :: s in starts ==> s < |m|
  {
    forall p :: p in starts && m2[p].rootCheck == 1 ==> Reachable(m, starts, roots, p)
  }

  ghost predicate MarksGrow(m1: Memory, m2: Memory, starts: seq<nat>)
    requires |m1| == |m2| && forall s :: s in starts ==> s < |m1|
  {
    forall p :: p in starts && m1[p].rootCheck == 1 ==> m2[p].rootCheck == 1
  }

  ghost predicate NewMark(m1: Memory, m2: Memory, starts: seq<nat>)
    requires |m1| == |m2| && forall s :: s in starts ==> s < |m1|
  {
    exists p :: p in starts && m1[p].rootCheck == 0 && m2[p].rootCheck == 1
  }

  /** Exactly the blocks marked in m, and those that slots of block b below `limit` refer to, are marked in m2. */
  ghost predicate MarkedFrom(m: Memory, m2: Memory, starts: seq<nat>, b: nat, limit: nat)
    requires |m| == |m2| && limit <= |m| && forall s :: s in starts ==> s < |m|
  {
    && (forall p :: p in starts && m[p].rootCheck == 1 ==> m2[p].rootCheck == 1)
    && (forall p, q :: p in starts && b < q < limit && Refers(m, starts, q, p) ==> m2[p].rootCheck == 1)
    && (forall p :: p in starts && m2[p].rootCheck == 1 ==>
         m[p].rootCheck == 1 || exists q :: b < q < limit && Refers(m, starts, q, p))
  }

  lemma ScanStep(m: Memory, m1: Memory, m2: Memory, starts: seq<nat>, top: nat, b: nat, q: nat)
    requires Tiled(m, starts, top) && b < q < |m| && q !in starts
    requires OnlyMarks(m, m1, starts) && OnlyMarks(m1, m2, starts) && MarkedFrom(m, m1, starts, b, q)
    requires forall p :: p in starts ==> m2[p].rootCheck == if Refers(m1, starts, q, p) then 1 else m1[p].rootCheck
    ensures OnlyMarks(m, m2, starts) && MarkedFrom(m, m2, starts, b, q + 1)
    ensures NewMark(m, m1, starts) || NewMark(m1, m2, starts) ==> NewMark(m, m2, starts)
  {
    forall p ensures Refers(m1, starts, q, p) <==> Refers(m, starts, q, p) {
    }
  }

  /** The scan of the block at b has come to its slot i. */
  ghost predicate ScannedTo(m: Memory, m2: Memory, starts: seq<nat>, b: nat, i: nat, changed: bool)
    requires b < |m| && forall s :: s in starts ==> s < |m|
  {
    && b + i <= |m| && OnlyMarks(m, m2, starts) && MarkedFrom(m, m2, starts, b, b + i)
    && if changed then NewMark(m, m2, starts) else m2 == m
  }

  lemma ScanBegins(m: Memory, starts: seq<nat>, b: nat)
    requires b < |m| && forall s :: s in starts ==> s < |m|
    ensures ScannedTo(m, m, starts, b, 1, false)
  {
  }

  lemma ScannedLength(m: Memory, m2: Memory, starts: seq<nat>, b: nat, i: nat, changed: bool)
    requires b in starts && b < |m| && (forall s :: s in starts ==> s < |m|) && ScannedTo(m, m2, starts, b, i, changed)
    ensures |m2| == |m| && m2[b].Length() == m[b].Length()
  {
  }

  lemma ScanEnded(m: Memory, m2: Memory, starts: seq<nat>, b: nat, i: nat, changed: bool)
    requires b < |m| && (forall s :: s in starts ==> s < |m|) && 1 <= i == m[b].Length()
    requires ScannedTo(m, m2, starts, b, i, changed)
    ensures |m| == |m2| && OnlyMarks(m, m2, starts) && MarksGrow(m, m2, starts)
    ensures if changed then NewMark(m, m2, starts) else m2 == m
    ensures forall p :: p in starts && Points(m, starts, b, p) ==> m2[p].rootCheck == 1
    ensures forall p :: p in starts && m2[p].rootCheck == 1 ==> m[p].rootCheck == 1 || Points(m, starts, b, p)
  {
  }

  ghost predicate BlockClosed(m: Memory, m2: Memory, starts: seq<nat>, b: nat)
    requires |m| == |m2| && b in starts && forall s :: s in starts ==> s < |m|
  {
    m2[b].rootCheck == 1 ==> forall c :: c in starts && Points(m, starts, b, c) ==> m2[c].rootCheck == 1
  }

  /** No marked block of m2 refers to an unmarked one. */
  ghost predicate MarksClosed(m: Memory, m2: Memory, starts: seq<nat>)
    requires |m| == |m2| && forall s :: s in starts ==> s < |m|
  {
    forall b :: b in starts ==> BlockClosed(m, m2, starts, b)
  }

  lemma ScanReaches(m: Memory, m1: Memory, m2: Memory, starts: seq<nat>, top: nat, roots: Roots, b: nat)
    requires Tiled(m, starts, top) && Tiled(m1, starts, top) && OnlyMarks(m, m1, starts) && OnlyMarks(m1, m2, starts)
    requires b in starts && m1[b].rootCheck == 1
    requires MarksSound(m, m1, starts, roots) && MarksGrow(m1, m2, starts)
    requires forall p :: p in starts && Points(m1, starts, b, p) ==> m2[p].rootCheck == 1
    requires forall p :: p in starts && m2[p].rootCheck == 1 ==> m1[p].rootCheck == 1 || Points(m1, starts, b, p)
    ensures OnlyMarks(m, m2, starts) && BlockClosed(m, m2, starts, b)
    ensures MarksSound(m, m2, starts, roots)
  {
    forall p | p in starts
      ensures Points(m, starts, b, p) <==> Points(m1, starts, b, p)
      ensures m2[p].rootCheck == 1 ==> Reachable(m, starts, roots, p)
    {
      MarksKeepPoints(m, m1, starts, top, b, p);
      if m2[p].rootCheck == 1 && m1[p].rootCheck != 1 {
        ReachableStep(m, starts, roots, b, p);
      }
    }
  }

  lemma RootsReachable(m: Memory, starts: seq<nat>, roots: Roots)
    requires forall s :: s in starts ==> s < |m|
    ensures forall p :: p in starts && IsRoot(m, roots, p) ==> Reachable(m, starts, roots, p)
  {
    forall p | p in starts && IsRoot(m, roots, p) ensures Reachable(m, starts, roots, p) {
      assert ReachableIn(m, starts, roots, p, 0);
    }
  }

  ghost function Unmarked(m: Memory, starts: seq<nat>): set<nat>
    requires forall s :: s in starts ==> s < |m|
  {
    set p | p in starts && m[p].rootCheck == 0
  }

  /** A pass that marked something leaves strictly fewer unmarked blocks. */
  lemma MorePassesEnd(m1: Memory, m2: Memory, starts: seq<nat>, marked: bool)
    requires |m1| == |m2| && forall s :: s in starts ==> s < |m1|
    requires MarksGrow(m1, m2, starts) && (marked ==> NewMark(m1, m2, starts))
    ensures Unmarked(m2, starts) <= Unmarked(m1, starts)
    ensures marked ==> Unmarked(m2, starts) < Unmarked(m1, starts)
  {
    if marked {
      var p :| p in starts && m1[p].rootCheck == 0 && m2[p].rootCheck == 1;
      assert p in Unmarked(m1, starts) && p !in Unmarked(m2, starts);
    }
  }

  /** Once marking has closed, the marked blocks are exactly the reachable ones. */
  lemma MarkedIsReachable(m: Memory, m2: Memory, starts: seq<nat>, roots: Roots)
    requires (forall s :: s in starts ==> s < |m|) && OnlyMarks(m, m2, starts) && MarksClosed(m, m2, starts)
    requires forall p :: p in starts && IsRoot(m, roots, p) ==> m2[p].rootCheck == 1
    requires MarksSound(m, m2, starts, roots)
    ensures forall p :: p in starts ==> (m2[p].rootCheck == 1 <==> Reachable(m, starts, roots, p))
  {
    var marked := set p | p in starts && m2[p].rootCheck == 1;
    forall b, c | b in starts && c in starts && b in marked && Points(m, starts, b, c) ensures c in marked {
      assert BlockClosed(m, m2, starts, b);
    }
    forall p | p in starts && Reachable(m, starts, roots, p) ensures m2[p].rootCheck == 1 {
      var n: nat :| ReachableIn(m, starts, roots, p, n);
      ClosedHoldsReachable(m, starts, roots, marked, p, n);
    }
  }

  /** The effect of one collection on block markers, and on nothing else. */
  ghost predicate Collected(m: Memory, m2: Memory, starts: seq<nat>, roots: Roots)
    requires forall s :: s in starts ==> s < |m|
  {
    && |m| == |m2|
    && (forall q :: 0 <= q < |m| && q !in starts ==> m2[q] == m[q])
    && (forall p :: p in starts ==>
         m2[p] == if Reachable(m, starts, roots, p) then m[p].(rootCheck := 1)
                  else if p == 0 then m[p].(rootCheck := 0)
                  else m[p].(rootCheck := 0, status := FREESPACE))
  }

  lemma CollectionExact(m: Memory, m2: Memory, starts: seq<nat>, top: nat, roots: Roots, p: nat)
    requires Tiled(m, starts, top) && Collected(m, m2, starts, roots) && p in starts
    ensures Tiled(m2, starts, top)
    ensures p != 0 ==>
      (m2[p].status == FREESPACE <==>
       m[p].status == FREESPACE || !Reachable(m, starts, roots, p))
    ensures Reachable(m, starts, roots, p) ==> Kept(m, m2, p)
  {
    SameLengthsKeepTiling(m, m2, starts, top);
    BlockInside(m, starts, top, p);
    if m[p].status == FREESPACE {
      assert ReachableIn(m, starts, roots, p, 0);
    }
    if Reachable(m, starts, roots, p) {
      forall q | p < q < p + m[p].Length() ensures q < |m| && m2[q] == m[q] {
        InsideIsNotStart(m, starts, top, p, q);
      }
    }
  }

  /** Block p has the same length, status and contents in m2: only its rootCheck bit may differ. */
  ghost predicate Kept(m: Memory, m2: Memory, p: nat) {
    && p < |m| == |m2| && p + m[p].Length() <= |m|
    && m2[p] == m[p].(rootCheck := m2[p].rootCheck)
    && (forall q :: p < q < p + m[p].Length() ==> m2[q] == m[q])
  }

  // Allocation

  ghost predicate Fits(m: Memory, p: nat, length: int)
    requires p < |m|
  {
    m[p].status == FREESPACE && m[p].Length() >= length
  }

  ghost predicate NoFit(m: Memory, starts: seq<nat>, length: int)
    requires forall s :: s in starts ==> s < |m|
  {
    forall p :: p in starts ==> !Fits(m, p, length)
  }

  /** p is the lowest free block that is large enough. */
  ghost predicate FirstFit(m: Memory, starts: seq<nat>, length: int, p: nat)
    requires forall s :: s in starts ==> s < |m|
  {
    p in starts && Fits(m, p, length) && forall q :: q in starts && q < p ==> !Fits(m, q, length)
  }

  /** Blocks i and i+1 are neighbours and both free. */
  ghost predicate BothFree(m: Memory, starts: seq<nat>, i: int) {
    && 0 <= i && i + 1 < |starts| && starts[i] < |m| && starts[i + 1] < |m|
    && m[starts[i]].status == FREESPACE && m[starts[i + 1]].status == FREESPACE
  }

  datatype Allocation = Allocated(pos: nat) | GaveUp

  const GARBAGEFUSIONTRIALS := 20

  /** The first pair of free neighbours has become one free block. */
  ghost predicate MergedAt(m: Memory, s: seq<nat>, m2: Memory, s2: seq<nat>, i: int) {
    && BothFree(m, s, i) && (forall j :: 0 <= j < i ==> !BothFree(m, s, j))
    && s2 == s[..i + 1] + s[i + 2..]
    && m[s[i]].Length() + m[s[i + 1]].Length() < 0x1_0000
    && m2 == m[s[i] := m[s[i]].WithLength(m[s[i]].Length() + m[s[i + 1]].Length())]
  }

  ghost predicate MergedOnce(m: Memory, s: seq<nat>, m2: Memory, s2: seq<nat>) {
    |m| == |m2| && exists i :: MergedAt(m, s, m2, s2, i)
  }

  /** A merge that is made because no free block fits. */
  ghost predicate MergeRound(m: Memory, s: seq<nat>, m2: Memory, s2: seq<nat>, length: u2) {
    (forall p :: p in s ==> p < |m|) && NoFit(m, s, length) && MergedOnce(m, s, m2, s2)
  }

  /** m2, s2 is the result of `times` single merges of m, s, each made while no free block has `length` slots. */
  ghost predicate Merges(m: Memory, s: seq<nat>, m2: Memory, s2: seq<nat>, length: u2, times: nat)
    decreases times
  {
    if times == 0 then m2 == m && s2 == s
    else exists m1, s1 :: Merges(m, s, m1, s1, length, times - 1) && MergeRound(m1, s1, m2, s2, length)
  }

  ghost predicate NoFreeNeighbours(m: Memory, s: seq<nat>) {
    forall i :: !BothFree(m, s, i)
  }

  /** What one call of the allocator may do: bump, first fit, collect and fit, or collect and merge. */
  ghost predicate Allocates(m: Memory, s: seq<nat>, top: nat, roots: Roots, length: u2,
                            r: Allocation, m2: Memory, s2: seq<nat>, top2: nat)
    requires Tiled(m, s, top)
  {
    if top + length <= |m| then
      && r == Allocated(top) && top2 == top + length && s2 == s + [top]
      && (top < |m| ==> m2 == m[top := m[top].WithLength(length)])
    else if !NoFit(m, s, length) then
      r.Allocated? && FirstFit(m, s, length, r.pos) && m2 == m && s2 == s && top2 == top
    else
      exists m1, times :: CollectsAndMerges(m, s, top, roots, length, r, m2, s2, top2, m1, times)
  }

  ghost predicate CollectsAndMerges(m: Memory, s: seq<nat>, top: nat, roots: Roots, length: u2,
                                    r: Allocation, m2: Memory, s2: seq<nat>, top2: nat, m1: Memory, times: nat)
    requires Tiled(m, s, top)
  {
    && top2 == top && Collected(m, m1, s, roots) && Merges(m1, s, m2, s2, length, times) && times <= GARBAGEFUSIONTRIALS
    && Tiled(m2, s2, top)
    && match r {
      case Allocated(pos) => FirstFit(m2, s2, length, pos)
      case GaveUp => NoFit(m2, s2, length) && (times == GARBAGEFUSIONTRIALS || NoFreeNeighbours(m2, s2))
    }
  }

  lemma MergedBlock(m: Memory, s: seq<nat>, m2: Memory, s2: seq<nat>, top: nat, i: nat, j: nat)
    requires Tiled(m, s, top) && MergedAt(m, s, m2, s2, i) && j < |s2|
    ensures s2[j] == s[if j <= i then j else j + 1] && Adjacent(m2, s2, top, j)
  {
    StartsSorted(m, s, top);
    assert Adjacent(m, s, top, i) && Adjacent(m, s, top, i + 1);
    assert Adjacent(m, s, top, if j <= i then j else j + 1);
    if j + 1 < |s2| {
      assert s2[j + 1] == s[if j + 1 <= i then j + 1 else j + 2];
    }
  }

  lemma MergeKeepsTiling(m: Memory, s: seq<nat>, m2: Memory, s2: seq<nat>, top: nat)
    requires Tiled(m, s, top) && MergedOnce(m, s, m2, s2)
    ensures Tiled(m2, s2, top) && |s2| == |s| - 1 && forall p :: p in s2 ==> p in s
  {
    var i :| MergedAt(m, s, m2, s2, i);
    forall j | 0 <= j < |s2| ensures Adjacent(m2, s2, top, j) && s2[j] < top && s2[j] in s {
      MergedBlock(m, s, m2, s2, top, i, j);
    }
  }

  /** Block p, in use in m, is still a block in m2 and holds the same slots. */
  ghost predicate Copied(m: Memory, m2: Memory, s2: seq<nat>, p: nat) {
    && p < |m| == |m2| && p in s2 && 1 <= m[p].Length() && p + m[p].Length() <= |m|
    && m2[p..p + m[p].Length()] == m[p..p + m[p].Length()]
  }

  lemma CopiedMarker(m: Memory, m2: Memory, s2: seq<nat>, p: nat)
    requires Copied(m, m2, s2, p)
    ensures m2[p] == m[p]
  {
    assert m2[p] == m2[p..p + m[p].Length()][0] == m[p..p + m[p].Length()][0];
  }

  /** One merge leaves every block in use exactly as it was. */
  lemma MergeCopies(m: Memory, s: seq<nat>, m2: Memory, s2: seq<nat>, top: nat, p: nat)
    requires Tiled(m, s, top) && MergedOnce(m, s, m2, s2) && p in s && m[p].status != FREESPACE
    ensures Copied(m, m2, s2, p)
  {
    var i :| MergedAt(m, s, m2, s2, i);
    BlockInside(m, s, top, p);
    var j :| 0 <= j < |s| && s[j] == p;
    assert p == s2[if j <= i then j else j - 1];
    BlocksApart(m, s, top, s[i], p);
  }

  /** Merging neither frees a block nor takes one into use. */
  lemma MergeKeepsStatus(m: Memory, s: seq<nat>, m2: Memory, s2: seq<nat>, top: nat, p: nat)
    requires Tiled(m, s, top) && MergedOnce(m, s, m2, s2) && p in s2
    ensures p in s && p < |m| == |m2| && (m2[p].status == FREESPACE <==> m[p].status == FREESPACE)
  {
    MergeKeepsTiling(m, s, m2, s2, top);
  }

  lemma {:induction false} MergesCopy(m: Memory, s: seq<nat>, m2: Memory, s2: seq<nat>, top: nat, length: u2,
                                      times: nat, p: nat)
    requires Tiled(m, s, top) && Merges(m, s, m2, s2, length, times) && p in s && m[p].status != FREESPACE
    ensures Copied(m, m2, s2, p)
    decreases times
  {
    hide MergedOnce;
    hide NoFit;
    BlockInside(m, s, top, p);
    hide Tiled;
    if times > 0 {
      var m1, s1 :| Merges(m, s, m1, s1, length, times - 1) && MergeRound(m1, s1, m2, s2, length);
      hide Merges;
      MergesCopy(m, s, m1, s1, top, length, times - 1, p);
      CopiedMarker(m, m1, s1, p);
      MergesKeep(m, s, m1, s1, top, length, times - 1);
      MergeCopies(m1, s1, m2, s2, top, p);
      CopiedTwice(m, m1, s1, m2, s2, p);
    }
  }

  lemma CopiedTwice(m: Memory, m1: Memory, s1: seq<nat>, m2: Memory, s2: seq<nat>, p: nat)
    requires Copied(m, m1, s1, p) && p < |m1| && Copied(m1, m2, s2, p) && m1[p] == m[p]
    ensures Copied(m, m2, s2, p)
  {
  }

  lemma {:induction false} MergesKeep(m: Memory, s: seq<nat>, m2: Memory, s2: seq<nat>, top: nat, length: u2,
                                      times: nat)
    requires Tiled(m, s, top) && Merges(m, s, m2, s2, length, times)
    ensures Tiled(m2, s2, top) && |s2| == |s| - times && |m2| == |m|
    ensures forall p :: p in s2 ==> p in s && (m2[p].status == FREESPACE <==> m[p].status == FREESPACE)
    decreases times
  {
    if times > 0 {
      var m1, s1 :| Merges(m, s, m1, s1, length, times - 1) && MergeRound(m1, s1, m2, s2, length);
      hide NoFit;
      MergesKeep(m, s, m1, s1, top, length, times - 1);
      MergeKeepsTiling(m1, s1, m2, s2, top);
      forall p | p in s2 ensures p in s && (m2[p].status == FREESPACE <==> m[p].status == FREESPACE) {
        MergeKeepsStatus(m1, s1, m2, s2, top, p);
      }
    }
  }

  lemma NoMergeYet(m: Memory, s: seq<nat>, length: u2)
    ensures Merges(m, s, m, s, length, 0)
  {
  }

  lemma NoneToMerge(m: Memory, s: seq<nat>, m2: Memory, s2: seq<nat>)
    requires NoFreeNeighbours(m, s)
    ensures !MergedOnce(m, s, m2, s2)
  {
  }

  lemma StartsInside(m: Memory, s: seq<nat>, top: nat)
    requires Tiled(m, s, top)
    ensures forall p :: p in s ==> p < |m|
  {
  }

  lemma OneMoreMerge(m: Memory, s: seq<nat>, m1: Memory, s1: seq<nat>, m2: Memory, s2: seq<nat>, length: u2, times: nat)
    requires Merges(m, s, m1, s1, length, times) && MergeRound(m1, s1, m2, s2, length)
    ensures Merges(m, s, m2, s2, length, times + 1)
  {
  }

  // Blocks that the collector can scan

  /** No block is longer than the scan index can count. */
  ghost predicate SmallBlocks(m: Memory, s: seq<nat>) {
    forall p :: p in s ==> p < |m| && m[p].Length() <= 0xFF
  }

  lemma MergeStaysSmall(m: Memory, s: seq<nat>, m2: Memory, s2: seq<nat>, top: nat, length: u2)
    requires Tiled(m, s, top) && SmallBlocks(m, s) && MergeRound(m, s, m2, s2, length) && length <= 0x80
    ensures SmallBlocks(m2, s2)
  {
    var i :| MergedAt(m, s, m2, s2, i);
    assert s[i] in s && s[i + 1] in s;
    assert !Fits(m, s[i], length) && !Fits(m, s[i + 1], length);
    forall p | p in s2 ensures p < |m2| && m2[p].Length() <= 0xFF {
      assert p in s;
    }
  }

  lemma {:induction false} MergesStaySmall(m: Memory, s: seq<nat>, m2: Memory, s2: seq<nat>, top: nat, length: u2,
                                           times: nat)
    requires Tiled(m, s, top) && SmallBlocks(m, s) && Merges(m, s, m2, s2, length, times) && length <= 0x80
    ensures SmallBlocks(m2, s2)
    decreases times
  {
    if times > 0 {
      var m1, s1 :| Merges(m, s, m1, s1, length, times - 1) && MergeRound(m1, s1, m2, s2, length);
      hide MergeRound;
      hide SmallBlocks;
      MergesStaySmall(m, s, m1, s1, top, length, times - 1);
      MergesKeep(m, s, m1, s1, top, length, times - 1);
      MergeStaysSmall(m1, s1, m2, s2, top, length);
    }
  }

  /** As long as nobody asks for more than 128 slots, no block ever gets longer than the collector can scan: two
      blocks are merged only while both are shorter than the request. */
  lemma SmallRequestsStayScannable(m: Memory, s: seq<nat>, top: nat, roots: Roots, length: u2,
                                   r: Allocation, m2: Memory, s2: seq<nat>, top2: nat)
    requires Tiled(m, s, top) && 1 <= length <= 0x80 && SmallBlocks(m, s)
    requires Allocates(m, s, top, roots, length, r, m2, s2, top2)
    ensures SmallBlocks(m2, s2)
  {
    if top + length > |m| && NoFit(m, s, length) {
      var m1, times :| CollectsAndMerges(m, s, top, roots, length, r, m2, s2, top2, m1, times);
      SameLengthsKeepTiling(m, m1, s, top);
      assert SmallBlocks(m1, s);
      MergesStaySmall(m1, s, m2, s2, top, length, times);
    } else if top + length <= |m| {
      BumpKeeps(m, s, top, length, m2, s2);
    }
  }

  /** The bound is sharp: two free blocks of 128 slots, merged for a request of 129, are too long to be scanned. */
  lemma LongerRequestsDoNot() returns (m: Memory, s: seq<nat>, m2: Memory, s2: seq<nat>)
    ensures Tiled(m, s, 0x100) && SmallBlocks(m, s) && MergeRound(m, s, m2, s2, 0x81) && !SmallBlocks(m2, s2)
  {
    var free: slot := Slot(FREESPACE, 0, 0, 0x80, 0, OBJECTMAGIC, 0, 0);
    m, s := seq(0x100, _ => free), [0, 0x80];
    m2, s2 := m[0 := free.WithLength(0x100)], [0];
    forall i | 0 <= i < 2 ensures Adjacent(m, s, 0x100, i) {
    }
    assert BothFree(m, s, 0) && s[..1] + s[2..] == s2;
    assert MergedAt(m, s, m2, s2, 0);
    assert 0 in s2;
  }

  lemma AllocationStaysSmall(m: Memory, s: seq<nat>, top: nat, roots: Roots, length: u2,
                             r: Allocation, m2: Memory, s2: seq<nat>, top2: nat)
    requires Tiled(m, s, top) && length >= 1 && Allocates(m, s, top, roots, length, r, m2, s2, top2)
    ensures length <= 0x80 && SmallBlocks(m, s) ==> SmallBlocks(m2, s2)
  {
    if length <= 0x80 && SmallBlocks(m, s) {
      SmallRequestsStayScannable(m, s, top, roots, length, r, m2, s2, top2);
    }
  }

  /** A block in use that the roots reach. */
  ghost predicate Live(m: Memory, s: seq<nat>, roots: Roots, p: nat)
    requires forall q :: q in s ==> q < |m|
  {
    p in s && m[p].status != FREESPACE && Reachable(m, s, roots, p)
  }

  /** A live block survives the call with its marker (but for the rootCheck bit) and its contents. */
  lemma LiveSurvivesMerges(m: Memory, s: seq<nat>, top: nat, roots: Roots, length: u2, r: Allocation,
                           m2: Memory, s2: seq<nat>, top2: nat, m1: Memory, times: nat, p: nat)
    requires Tiled(m, s, top) && CollectsAndMerges(m, s, top, roots, length, r, m2, s2, top2, m1, times)
    requires Live(m, s, roots, p)
    ensures p in s2 && Kept(m, m2, p)
    ensures r.Allocated? ==> r.pos + m2[r.pos].Length() <= p || p + m[p].Length() <= r.pos
  {
    hide Merges;
    hide NoFit;
    hide Reachable;
    CollectionExact(m, m1, s, top, roots, p);
    BlockInside(m, s, top, p);
    hide Collected;
    MergesCopy(m1, s, m2, s2, top, length, times, p);
    KeptThenCopied(m, m1, m2, p);
    CopiedMarker(m1, m2, s2, p);
    if r.Allocated? {
      BlocksApart(m2, s2, top, r.pos, p);
    }
  }

  lemma KeptThenCopied(m: Memory, m1: Memory, m2: Memory, p: nat)
    requires Kept(m, m1, p) && 1 <= m[p].Length() && |m2| == |m|
    requires m2[p..p + m[p].Length()] == m1[p..p + m[p].Length()]
    ensures Kept(m, m2, p)
  {
    forall q | p <= q < p + m[p].Length() ensures m2[q] == m1[q] {
      assert m2[p..p + m[p].Length()][q - p] == m1[p..p + m[p].Length()][q - p];
    }
  }

  lemma BumpKeeps(m: Memory, s: seq<nat>, top: nat, length: u2, m2: Memory, s2: seq<nat>)
    requires Tiled(m, s, top) && length >= 1 && top + length <= |m|
    requires m2 == m[top := m[top].WithLength(length)] && s2 == s + [top]
    ensures Tiled(m2, s2, top + length)
    ensures forall p :: p in s ==> p in s2 && Kept(m, m2, p) && m2[p] == m[p] && p + m[p].Length() <= top
  {
    forall i {:trigger Adjacent(m2, s2, top + length, i)} | 0 <= i < |s2| ensures Adjacent(m2, s2, top + length, i) {
      if i < |s| {
        assert Adjacent(m, s, top, i);
      }
    }
    forall p | p in s ensures p in s2 && Kept(m, m2, p) && p + m[p].Length() <= top {
      BlockInside(m, s, top, p);
    }
  }

  /** The heap is tiled, live blocks are untouched, and a returned block is large enough and apart from them. */
  ghost predicate Safe(m: Memory, s: seq<nat>, roots: Roots, length: u2,
                       r: Allocation, m2: Memory, s2: seq<nat>, top2: nat)
    requires forall p :: p in s ==> p < |m|
  {
    && Tiled(m2, s2, top2) && top2 <= |m2| == |m|
    && (forall p: nat :: Live(m, s, roots, p) ==> p in s2 && Kept(m, m2, p))
    && (r.Allocated? ==>
         && r.pos in s2 && m2[r.pos].Length() >= length && r.pos + m2[r.pos].Length() <= top2
         && forall p: nat :: Live(m, s, roots, p) ==>
              r.pos + m2[r.pos].Length() <= p || p + m[p].Length() <= r.pos)
  }

  lemma FitSafe(m: Memory, s: seq<nat>, top: nat, roots: Roots, length: u2, p: nat)
    requires Tiled(m, s, top) && FirstFit(m, s, length, p)
    ensures Safe(m, s, roots, length, Allocated(p), m, s, top)
  {
    BlockInside(m, s, top, p);
    forall q: nat | Live(m, s, roots, q)
      ensures Kept(m, m, q) && (p + m[p].Length() <= q || q + m[q].Length() <= p)
    {
      BlockInside(m, s, top, q);
      BlocksApart(m, s, top, p, q);
    }
  }

  lemma LengthsCollected(m: Memory, m1: Memory, s: seq<nat>, top: nat, roots: Roots)
    requires Tiled(m, s, top) && Collected(m, m1, s, roots)
    ensures Tiled(m1, s, top) && |m1| == |m|
  {
    SameLengthsKeepTiling(m, m1, s, top);
  }

  lemma MergeSafe(m: Memory, s: seq<nat>, top: nat, roots: Roots, length: u2, r: Allocation,
                  m2: Memory, s2: seq<nat>, top2: nat, m1: Memory, times: nat)
    requires Tiled(m, s, top) && CollectsAndMerges(m, s, top, roots, length, r, m2, s2, top2, m1, times)
    ensures Safe(m, s, roots, length, r, m2, s2, top2)
  {
    hide Collected;
    hide Merges;
    hide NoFit;
    hide Kept;
    hide Live;
    LengthsCollected(m, m1, s, top, roots);
    MergesKeep(m1, s, m2, s2, top, length, times);
    if r.Allocated? {
      BlockInside(m2, s2, top, r.pos);
    }
    hide Tiled;
    forall p: nat | Live(m, s, roots, p)
      ensures p in s2 && Kept(m, m2, p)
      ensures r.Allocated? ==> r.pos + m2[r.pos].Length() <= p || p + m[p].Length() <= r.pos
    {
      LiveSurvivesMerges(m, s, top, roots, length, r, m2, s2, top2, m1, times, p);
    }
  }

  /** Whatever path an allocation takes, the heap stays tiled, and if it succeeds the returned block is a block
      of the heap, is large enough and lies apart from every live block; live blocks are untouched. */
  lemma AllocationSafe(m: Memory, s: seq<nat>, top: nat, roots: Roots, length: u2,
                       r: Allocation, m2: Memory, s2: seq<nat>, top2: nat)
    requires Tiled(m, s, top) && length >= 1 && Allocates(m, s, top, roots, length, r, m2, s2, top2)
    ensures Safe(m, s, roots, length, r, m2, s2, top2)
  {
    if top + length <= |m| {
      BumpKeeps(m, s, top, length, m2, s2);
    } else if !NoFit(m, s, length) {
      FitSafe(m, s, top, roots, length, r.pos);
    } else {
      var m1, times :| CollectsAndMerges(m, s, top, roots, length, r, m2, s2, top2, m1, times);
      MergeSafe(m, s, top, roots, length, r, m2, s2, top2, m1, times);
    }
  }

  lemma BlocksApart(m: Memory, s: seq<nat>, top: nat, p: nat, q: nat)
    requires Tiled(m, s, top) && p in s && q in s && p != q
    ensures p + m[p].Length() <= q || q + m[q].Length() <= p
  {
    if p < q {
      BlocksDisjoint(m, s, top, p, q);
    } else {
      BlocksDisjoint(m, s, top, q, p);
    }
  }

  /** The allocator gives up only when the rest of the array is too short, no free block fits, every block in use
      but the one at 0 is reachable, and either all trials have merged a pair or no free neighbours are left. */
  lemma GivesUpOnlyWhenFull(m: Memory, s: seq<nat>, top: nat, roots: Roots, length: u2,
                            m2: Memory, s2: seq<nat>, top2: nat)
    requires Tiled(m, s, top) && Allocates(m, s, top, roots, length, GaveUp, m2, s2, top2)
    ensures top + length > |m| && (forall p :: p in s2 ==> p < |m2|) && NoFit(m2, s2, length)
    ensures NoFreeNeighbours(m2, s2) || |s2| == |s| - GARBAGEFUSIONTRIALS
    ensures forall p :: p in s2 && p != 0 && m2[p].status != FREESPACE ==> Live(m, s, roots, p)
  {
    var m1, times :| CollectsAndMerges(m, s, top, roots, length, GaveUp, m2, s2, top2, m1, times);
    SameLengthsKeepTiling(m, m1, s, top);
    MergesKeep(m1, s, m2, s2, top, length, times);
    forall p | p in s2 && p != 0 && m2[p].status != FREESPACE ensures Live(m, s, roots, p) {
      CollectionExact(m, m1, s, top, roots, p);
    }
  }

  /** The scan index of the collector is one byte wide. */
  function NextIndex(i: u1): u1 {
    Wrap8(i as int + 1)
  }

  ghost function ScanIndex(steps: nat): u1 {
    if steps == 0 then 1 else NextIndex(ScanIndex(steps - 1))
  }

  lemma {:induction false} ScanIndexValue(steps: nat)
    ensures ScanIndex(steps) == (steps + 1) % 0x100
  {
    if steps > 0 {
      ScanIndexValue(steps - 1);
      NextIndexWraps(steps);
    }
  }

  lemma NextIndexWraps(k: nat)
    ensures NextIndex(k % 0x100) == (k + 1) % 0x100
  {
    var q, r := k / 0x100, k % 0x100;
    if r == 0xFF {
      assert k + 1 == 0x100 * (q + 1);
    } else {
      assert k + 1 == 0x100 * q + (r + 1);
    }
  }

  /** The scan of a block ends exactly when the block has at most 255 slots. */
  lemma ScanEnds(length: u2)
    ensures (exists n :: ScanIndex(n) >= length) <==> length <= 0xFF
  {
    if length <= 0xFF {
      var n := if length == 0 then 0 else length - 1;
      ScanIndexValue(n);
      assert ScanIndex(n) >= length;
    } else {
      forall n ensures ScanIndex(n) < length { }
    }
  }
}
