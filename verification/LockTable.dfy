/** The lock table of one thread: which objects it has locked, and how often. */
module LockTables {
  datatype Option<+T> = None | Some(value: T)

  type Obj = nat

  /** Two parallel arrays, hasMutexLockForObject and lockCount; None stands for the null reference. */
  datatype LockTable = LockTable(objs: seq<Option<Obj>>, counts: seq<int>)
  {
    /** Every object has at most one entry, and exactly the entries in use have a positive count. */
    ghost predicate Valid() {
      && |objs| == |counts|
      && (forall i, j :: 0 <= i < j < |objs| && objs[i].Some? ==> objs[i] != objs[j])
      && (forall i :: 0 <= i < |objs| ==> 0 <= counts[i] < 0x100 && (counts[i] > 0 <==> objs[i].Some?))
    }

    /** The first entry equal to e, or the number of entries if there is none. */
    function Find(e: Option<Obj>): (i: nat)
      ensures i <= |objs| && (forall j :: 0 <= j < i ==> objs[j] != e) && (i < |objs| ==> objs[i] == e)
    {
      FindFrom(e, 0)
    }

    function FindFrom(e: Option<Obj>, from: nat): (i: nat)
      requires from <= |objs|
      ensures from <= i <= |objs| && (forall j :: from <= j < i ==> objs[j] != e) && (i < |objs| ==> objs[i] == e)
      decreases |objs| - from
    {
      if from == |objs| || objs[from] == e then from else FindFrom(e, from + 1)
    }

    predicate Holds(o: Obj) {
      Find(Some(o)) < |objs|
    }

    predicate Full() {
      Find(None) == |objs|
    }

    function CountOf(o: Obj): int
      requires |objs| == |counts|
    {
      if Holds(o) then counts[Find(Some(o))] else 0
    }

    /** Enters o in the first unused entry, with count 1. */
    function Take(o: Obj): LockTable
      requires |objs| == |counts| && !Full()
    {
      LockTable(objs[Find(None) := Some(o)], counts[Find(None) := 1])
    }

    /** Adds d to the one-byte count of o. */
    function Add(o: Obj, d: int): LockTable
      requires |objs| == |counts| && Holds(o)
    {
      LockTable(objs, counts[Find(Some(o)) := (counts[Find(Some(o))] + d) % 0x100])
    }

    /** Gives up the entry of o. */
    function Clear(o: Obj): LockTable
      requires |objs| == |counts| && Holds(o)
    {
      LockTable(objs[Find(Some(o)) := None], counts[Find(Some(o)) := 0])
    }

    lemma HoldsIff(o: Obj)
      requires |objs| == |counts|
      ensures Holds(o) <==> Some(o) in objs
      ensures Valid() ==> (Holds(o) <==> CountOf(o) > 0)
    {
    }

    /** A valid table has one way only to read off a count. */
    lemma CountAt(i: nat, o: Obj)
      requires Valid() && i < |objs| && objs[i] == Some(o)
      ensures Holds(o) && CountOf(o) == counts[i]
    {
      assert Find(Some(o)) == i;
    }

    lemma NoCount(o: Obj)
      requires Valid() && forall i :: 0 <= i < |objs| ==> objs[i] != Some(o)
      ensures !Holds(o) && CountOf(o) == 0
    {
    }

    lemma TakeEffect(o: Obj, x: Obj)
      requires Valid() && !Full() && !Holds(o)
      ensures Take(o).Valid() && |Take(o).objs| == |objs|
      ensures Take(o).CountOf(x) == if x == o then 1 else CountOf(x)
    {
      var t := Take(o);
      SameElsewhere(t, Find(None), x);
      if x == o {
        t.CountAt(Find(None), o);
      }
    }

    lemma AddEffect(o: Obj, d: int, x: Obj)
      requires Valid() && Holds(o) && 0 < CountOf(o) + d < 0x100
      ensures Add(o, d).Valid() && |Add(o, d).objs| == |objs|
      ensures Add(o, d).CountOf(x) == if x == o then CountOf(o) + d else CountOf(x)
    {
      var t := Add(o, d);
      SameElsewhere(t, Find(Some(o)), x);
      if x == o {
        t.CountAt(Find(Some(o)), o);
      }
    }

    lemma ClearEffect(o: Obj, x: Obj)
      requires Valid() && Holds(o)
      ensures Clear(o).Valid() && |Clear(o).objs| == |objs| && !Clear(o).Full()
      ensures Clear(o).CountOf(x) == if x == o then 0 else CountOf(x)
    {
      var t := Clear(o);
      assert t.objs[Find(Some(o))] == None;
      SameElsewhere(t, Find(Some(o)), x);
      if x == o {
        t.NoCount(o);
      }
    }

    /** Tables that agree but for entry k give the same count to every object not at k in either. */
    lemma SameElsewhere(t: LockTable, k: nat, x: Obj)
      requires Valid() && t.Valid() && |t.objs| == |objs| && k < |objs|
      requires forall i :: 0 <= i < |objs| && i != k ==> t.objs[i] == objs[i] && t.counts[i] == counts[i]
      ensures objs[k] != Some(x) && t.objs[k] != Some(x) ==> t.CountOf(x) == CountOf(x)
    {
      if objs[k] != Some(x) && t.objs[k] != Some(x) {
        if Holds(x) {
          t.CountAt(Find(Some(x)), x);
        } else {
          t.NoCount(x);
        }
      }
    }
  }
}
