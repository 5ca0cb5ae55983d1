/** The ROM codes on a 1-Wire bus as paths in a binary tree, and what a search with one saved position finds there. */
module RomSearch {

  /** A ROM code in the order in which its bits are sent. */
  type Code = c: seq<bool> | |c| == 64 witness seq(64, _ => false)

  // The order of the codes: the bit that is sent first decides first

  ghost predicate SplitsAt(a: Code, b: Code, k: int) {
    0 <= k < 64 && a[..k] == b[..k] && !a[k] && b[k]
  }

  ghost predicate Before(a: Code, b: Code) {
    exists k :: SplitsAt(a, b, k)
  }

  lemma {:induction false} FirstDifference(a: Code, b: Code, k: nat)
    requires k <= 64 && a[..k] == b[..k] && a != b
    ensures exists m :: k <= m < 64 && (SplitsAt(a, b, m) || SplitsAt(b, a, m))
    decreases 64 - k
  {
    assert a[..64] == a && b[..64] == b;
    if a[k] == b[k] {
      assert a[..k + 1] == a[..k] + [a[k]];
      assert b[..k + 1] == b[..k] + [b[k]];
      FirstDifference(a, b, k + 1);
    } else {
      assert SplitsAt(a, b, k) || SplitsAt(b, a, k);
    }
  }

  lemma NotBothOrders(a: Code, b: Code, i: int, j: int)
    requires SplitsAt(a, b, i)
    ensures !SplitsAt(b, a, j)
  {
    if i < j < 64 {
      assert b[..j][i] == b[i] && a[..j][i] == a[i];
    } else if 0 <= j < i {
      assert b[..i][j] == b[j] && a[..i][j] == a[j];
    }
  }

  /** Any two codes are ordered in exactly one way. */
  lemma OneOrder(a: Code, b: Code)
    ensures a == b || Before(a, b) || Before(b, a)
    ensures Before(a, b) ==> a != b && !Before(b, a)
  {
    if a != b {
      FirstDifference(a, b, 0);
    }
    if Before(a, b) {
      var i :| SplitsAt(a, b, i);
      forall j ensures !SplitsAt(b, a, j) {
        NotBothOrders(a, b, i, j);
      }
    }
  }

  lemma BeforeTransitive(a: Code, b: Code, c: Code)
    requires Before(a, b) && Before(b, c)
    ensures Before(a, c)
  {
    var i, j :| SplitsAt(a, b, i) && SplitsAt(b, c, j);
    if i < j {
      assert b[..i] == b[..j][..i] && c[..i] == c[..j][..i];
      assert b[i] == b[..j][i] && c[i] == c[..j][i];
      assert SplitsAt(a, c, i);
    } else {
      assert a[..j] == a[..i][..j] && b[..j] == b[..i][..j];
      if j < i {
        assert a[j] == a[..i][j] && b[j] == b[..i][j];
      }
      assert SplitsAt(a, c, j);
    }
  }

  /** The number that bits spell, the first one weighing most. */
  ghost function Number(s: seq<bool>): nat {
    if s == [] then 0 else 2 * Number(s[..|s| - 1]) + if s[|s| - 1] then 1 else 0
  }

  lemma {:induction false} SmallerFromSplit(a: Code, b: Code, k: int, n: nat)
    requires SplitsAt(a, b, k) && k < n <= 64
    ensures Number(a[..n]) < Number(b[..n])
    decreases n
  {
    assert a[..n][..n - 1] == a[..n - 1] && b[..n][..n - 1] == b[..n - 1];
    if k < n - 1 {
      SmallerFromSplit(a, b, k, n - 1);
    }
  }

  lemma BeforeIsSmaller(a: Code, b: Code)
    requires Before(a, b)
    ensures Number(a) < Number(b)
  {
    var k :| SplitsAt(a, b, k);
    SmallerFromSplit(a, b, k, 64);
    assert a[..64] == a && b[..64] == b;
  }

  /** The order is that of the numbers that the codes spell. */
  lemma NumericOrder(a: Code, b: Code)
    ensures Before(a, b) <==> Number(a) < Number(b)
  {
    hide Before;
    OneOrder(a, b);
    if Before(a, b) {
      BeforeIsSmaller(a, b);
    } else if Before(b, a) {
      BeforeIsSmaller(b, a);
    }
  }

  // Where a code could have been continued with a one

  ghost predicate ZeroAt(S: set<Code>, q: Code, m: int) {
    0 <= m < 64 && !q[m] && exists a :: a in S && a[..m] == q[..m] && a[m]
  }

  /** The number (from 1) of the last such bit among the first k, or 0. */
  ghost function LastZero(S: set<Code>, q: Code, k: nat): (z: nat)
    requires k <= 64
    ensures z <= k && (z > 0 ==> ZeroAt(S, q, z - 1))
    ensures forall m :: z <= m < k ==> !ZeroAt(S, q, m)
  {
    if k == 0 then 0 else if ZeroAt(S, q, k - 1) then k else LastZero(S, q, k - 1)
  }

  /** No position is left exactly at the greatest code. */
  lemma NoZeroAtLast(S: set<Code>, q: Code)
    ensures LastZero(S, q, 64) == 0 <==> forall s :: s in S ==> !Before(q, s)
  {
    var z := LastZero(S, q, 64);
    if z > 0 {
      assert ZeroAt(S, q, z - 1);
      var a :| a in S && a[..z - 1] == q[..z - 1] && a[z - 1];
      assert SplitsAt(q, a, z - 1);
    }
    forall s | s in S && Before(q, s) ensures z > 0 {
      var k :| SplitsAt(q, s, k);
      assert ZeroAt(S, q, k);
    }
  }

  /** Bit m of path is what the search chooses when it starts from code p and position z: below z like p, one at z,
      and zero behind it unless all codes with this beginning have a one. */
  ghost predicate ChosenBit(S: set<Code>, p: Code, z: nat, path: Code, m: int) {
    && 0 <= m < 64
    && (if m + 1 < z then path[m] == p[m]
        else if m + 1 == z then path[m]
        else path[m] ==> forall a :: a in S && a[..m] == path[..m] ==> a[m])
  }

  ghost predicate Chosen(S: set<Code>, p: Code, z: nat, path: Code, k: int) {
    forall m :: 0 <= m < k ==> ChosenBit(S, p, z, path, m)
  }

  /** A search can start with p and z: it is the first one, or p is the code found before. */
  ghost predicate Seed(S: set<Code>, p: Code, z: nat) {
    z == 0 || (p in S && z == LastZero(S, p, 64))
  }

  lemma {:induction false} ChosenLikeP(S: set<Code>, p: Code, z: nat, path: Code, k: nat)
    requires Chosen(S, p, z, path, k) && k < 64 && (k < z || k == 0)
    ensures path[..k] == p[..k]
  {
    forall m | 0 <= m < k ensures path[m] == p[m] {
      assert ChosenBit(S, p, z, path, m);
    }
  }

  /** Two codes that agree with the path up to z: the chosen one comes first. */
  lemma LeastBelow(S: set<Code>, p: Code, z: nat, q: Code, s: Code)
    requires q in S && s in S && Chosen(S, p, z, q, 64) && z <= 64 && s[..z] == q[..z]
    ensures s == q || Before(q, s)
  {
    if s != q {
      FirstDifference(q, s, z);
      var m :| z <= m < 64 && (SplitsAt(q, s, m) || SplitsAt(s, q, m));
      assert ChosenBit(S, p, z, q, m);
    }
  }

  /** The first search finds the least code. */
  lemma FirstIsLeast(S: set<Code>, p: Code, q: Code, s: Code)
    requires q in S && s in S && Chosen(S, p, 0, q, 64)
    ensures s == q || Before(q, s)
  {
    LeastBelow(S, p, 0, q, s);
  }

  /** Every other search finds the least code behind the one found before. */
  lemma NextIsSuccessor(S: set<Code>, p: Code, z: nat, q: Code)
    requires p in S && q in S && z == LastZero(S, p, 64) && z > 0 && Chosen(S, p, z, q, 64)
    ensures Before(p, q)
    ensures forall s :: s in S && Before(p, s) ==> s == q || Before(q, s)
  {
    ChosenLikeP(S, p, z, q, z - 1);
    assert ChosenBit(S, p, z, q, z - 1);
    assert ZeroAt(S, p, z - 1);
    assert SplitsAt(p, q, z - 1);
    forall s | s in S && Before(p, s) ensures s == q || Before(q, s) {
      var k :| SplitsAt(p, s, k);
      assert ZeroAt(S, p, k);
      SameSplit(S, p, z, q, s, k);
    }
  }

  lemma SameSplit(S: set<Code>, p: Code, z: nat, q: Code, s: Code, k: int)
    requires q in S && s in S && 0 < z <= 64 && Chosen(S, p, z, q, 64) && SplitsAt(p, s, k) && k < z
    requires q[..z - 1] == p[..z - 1] && q[z - 1]
    ensures s == q || Before(q, s)
  {
    if k == z - 1 {
      TakeMore(s, k);
      TakeMore(q, k);
      LeastBelow(S, p, z, q, s);
    } else {
      assert q[..k] == q[..z - 1][..k] && p[..k] == p[..z - 1][..k];
      assert q[k] == q[..z - 1][k] && p[k] == p[..z - 1][k];
      assert SplitsAt(q, s, k);
    }
  }

  // One step down the tree

  /** What the bus answers at bit k: the codes that are still listening, then all of them inverted, wired together. */
  ghost predicate AllOnes(active: set<Code>, k: int)
    requires 0 <= k < 64
  {
    forall c :: c in active ==> c[k]
  }

  ghost predicate AllZeros(active: set<Code>, k: int)
    requires 0 <= k < 64
  {
    forall c :: c in active ==> !c[k]
  }

  /** The codes that begin like path. */
  ghost function Active(S: set<Code>, path: Code, k: int): set<Code>
    requires 0 <= k <= 64
  {
    set c | c in S && c[..k] == path[..k]
  }

  lemma TakeMore(c: Code, k: int)
    requires 0 <= k < 64
    ensures c[..k + 1] == c[..k] + [c[k]]
  {
  }

  lemma ActiveStep(S: set<Code>, path: Code, k: int, bit: bool)
    requires 0 <= k < 64
    ensures (set c | c in Active(S, path, k) && c[k] == bit) == Active(S, path[k := bit], k + 1)
  {
    var path2 := path[k := bit];
    TakeMore(path2, k);
    assert path2[..k] == path[..k];
    forall c: Code | c in S ensures c[..k + 1] == path2[..k + 1] <==> c[..k] == path[..k] && c[k] == bit {
      TakeMore(c, k);
      if c[..k + 1] == path2[..k + 1] {
        assert c[..k] == c[..k + 1][..k] == path2[..k + 1][..k];
        assert c[k] == c[..k + 1][k] == path2[..k + 1][k];
      }
    }
  }

  lemma ChosenUpdate(S: set<Code>, p: Code, z: nat, path: Code, k: int, bit: bool)
    requires 0 <= k < 64 && Chosen(S, p, z, path, k)
    ensures Chosen(S, p, z, path[k := bit], k)
  {
    var path2 := path[k := bit];
    forall m | 0 <= m < k ensures ChosenBit(S, p, z, path2, m) {
      assert ChosenBit(S, p, z, path, m);
      assert path2[..m] == path[..m];
    }
  }

  lemma {:induction false} LastZeroUpdate(S: set<Code>, path: Code, j: nat, k: int, bit: bool)
    requires j <= k < 64
    ensures LastZero(S, path[k := bit], j) == LastZero(S, path, j)
    decreases j
  {
    if j > 0 {
      assert path[k := bit][..j - 1] == path[..j - 1];
      LastZeroUpdate(S, path, j - 1, k, bit);
    }
  }

  /** The bit that the search chooses at position k. */
  ghost function Choice(active: set<Code>, p: Code, z: nat, k: int): bool
    requires 0 <= k < 64
  {
    if AllOnes(active, k) then true
    else if AllZeros(active, k) then false
    else if k + 1 > z then false
    else if k + 1 == z then true
    else p[k]
  }

  lemma ChoiceIsRight(S: set<Code>, p: Code, z: nat, path: Code, k: int)
    requires 0 <= k < 64 && Seed(S, p, z) && Chosen(S, p, z, path, k) && Active(S, path, k) != {}
    ensures var active := Active(S, path, k);
      var path2 := path[k := Choice(active, p, z, k)];
      && Chosen(S, p, z, path2, k + 1) && Active(S, path2, k + 1) != {} && !(AllOnes(active, k) && AllZeros(active, k))
      && (ZeroAt(S, path2, k) <==> !AllOnes(active, k) && !AllZeros(active, k) && !path2[k])
  {
    var active := Active(S, path, k);
    var bit := Choice(active, p, z, k);
    var path2 := path[k := bit];
    assert path2[..k] == path[..k];
    var one :| one in active;
    if k < z {
      ChosenLikeP(S, p, z, path, k);
      assert p in active;
      if k + 1 == z {
        assert ZeroAt(S, p, k);
        var a :| a in S && a[..k] == p[..k] && a[k];
        assert a in active;
      }
    }
    ActiveStep(S, path, k, bit);
    assert exists c :: c in active && c[k] == bit;
    var c :| c in active && c[k] == bit;
    assert c in Active(S, path2, k + 1);
    ChosenUpdate(S, p, z, path, k, bit);
    assert ChosenBit(S, p, z, path2, k) by {
      if k + 1 > z && bit {
        forall a: Code | a in S && a[..k] == path2[..k] ensures a[k] {
          assert a in active;
        }
      }
    }
    if ZeroAt(S, path2, k) {
      var a :| a in S && a[..k] == path2[..k] && a[k];
      assert a in active;
    }
    if !AllZeros(active, k) && !bit {
      var a :| a in active && a[k];
      assert ZeroAt(S, path2, k);
    }
  }

  // Enumerations

  ghost predicate Increasing(found: seq<Code>) {
    forall i, j :: 0 <= i < j < |found| ==> Before(found[i], found[j])
  }

  /** found is the beginning of S in increasing order. */
  ghost predicate Enumerates(found: seq<Code>, S: set<Code>) {
    && Increasing(found)
    && (forall i :: 0 <= i < |found| ==> found[i] in S)
    && (forall s, i :: s in S && s !in found && 0 <= i < |found| ==> Before(found[i], s))
  }

  /** Only one sequence of a given length is the beginning of S in increasing order. */
  lemma {:induction false} OneEnumeration(f: seq<Code>, g: seq<Code>, S: set<Code>)
    requires Enumerates(f, S) && Enumerates(g, S) && |f| == |g|
    ensures f == g
  {
    if f != [] {
      var n := |f| - 1;
      PrefixEnumerates(f, S);
      PrefixEnumerates(g, S);
      OneEnumeration(f[..n], g[..n], S);
      LastFollows(f, g, S);
      LastFollows(g, f, S);
      OneOrder(f[n], g[n]);
      assert f == f[..n] + [f[n]] && g == g[..n] + [g[n]];
    }
  }

  lemma LastFollows(f: seq<Code>, g: seq<Code>, S: set<Code>)
    requires Enumerates(f, S) && Enumerates(g, S) && |f| == |g| > 0 && f[..|f| - 1] == g[..|f| - 1]
    ensures !Before(g[|f| - 1], f[|f| - 1])
  {
    var n := |f| - 1;
    OneOrder(g[n], f[n]);
    if f[n] != g[n] {
      assert g[n] !in f by {
        if i :| 0 <= i < |f| && f[i] == g[n] {
          assert f[..n][i] == g[..n][i];
          OneOrder(g[i], g[n]);
        }
      }
    }
  }

  lemma PrefixEnumerates(f: seq<Code>, S: set<Code>)
    requires Enumerates(f, S) && f != []
    ensures Enumerates(f[..|f| - 1], S)
  {
    var n := |f| - 1;
    forall s, i | s in S && s !in f[..n] && 0 <= i < n ensures Before(f[..n][i], s) {
      assert f == f[..n] + [f[n]];
      assert s in f ==> s == f[n];
    }
  }

  /** The least code behind the last one continues an enumeration. */
  lemma Continues(found: seq<Code>, S: set<Code>, q: Code)
    requires Enumerates(found, S) && q in S
    requires found != [] ==> Before(found[|found| - 1], q)
    requires forall s :: s in S && (found != [] ==> Before(found[|found| - 1], s)) ==> s == q || Before(q, s)
    ensures Enumerates(found + [q], S)
  {
    var more := found + [q];
    forall i, j | 0 <= i < j < |more| ensures Before(more[i], more[j]) {
      if j == |found| && i < |found| - 1 {
        BeforeTransitive(found[i], found[|found| - 1], q);
      }
    }
    forall s, i | s in S && s !in more && 0 <= i < |more| ensures Before(more[i], s) {
      assert s != more[|found|];
      assert s !in found;
      if found != [] {
        assert Before(found[|found| - 1], s);
      }
    }
  }

  lemma {:induction false} SizeOf(found: seq<Code>, S: set<Code>)
    requires Increasing(found) && (forall i :: 0 <= i < |found| ==> found[i] in S)
    ensures |found| <= |S|
    ensures |found| == |S| <==> forall s :: s in S ==> s in found
  {
    if found == [] {
      assert |S| == 0 <==> S == {};
    } else {
      var n := |found| - 1;
      var last := found[n];
      forall i | 0 <= i < n ensures found[..n][i] in S - {last} {
        OneOrder(found[i], last);
      }
      SizeOf(found[..n], S - {last});
      assert found == found[..n] + [last];
      if forall s :: s in S ==> s in found {
        forall s | s in S - {last} ensures s in found[..n] {
        }
      }
      if |found| == |S| {
        forall s | s in S ensures s in found {
          if s != last {
            assert s in S - {last};
          }
        }
      }
    }
  }

  /** Each search continues the enumeration by one code. */
  lemma SearchContinues(found: seq<Code>, S: set<Code>, p: Code, z: nat, q: Code)
    requires Enumerates(found, S) && q in S && Chosen(S, p, z, q, 64)
    requires if found == [] then z == 0 else p == found[|found| - 1] && z == LastZero(S, p, 64) > 0
    ensures Enumerates(found + [q], S)
  {
    if found == [] {
      forall s | s in S ensures s == q || Before(q, s) {
        FirstIsLeast(S, p, q, s);
      }
    } else {
      NextIsSuccessor(S, p, z, q);
    }
    Continues(found, S, q);
  }

  /** All codes have been found exactly when no position is left. */
  lemma FoundAll(found: seq<Code>, S: set<Code>)
    requires Enumerates(found, S) && found != []
    ensures |found| <= |S| && (|found| == |S| <==> LastZero(S, found[|found| - 1], 64) == 0)
  {
    var n := |found| - 1;
    SizeOf(found, S);
    NoZeroAtLast(S, found[n]);
    forall i | 0 <= i < |found| ensures !Before(found[n], found[i]) {
      OneOrder(found[i], found[n]);
    }
  }
}
