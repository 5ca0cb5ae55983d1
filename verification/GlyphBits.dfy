/** Font data as one string of bits, and the pixels of a glyph as a reading of that string. */
module GlyphBits {
  import opened Arithmetic
  import opened Words

  type Cell = u1

  /** Bit k of the memory, the lowest bit of each cell first. */
  function BitAt(memory: nat -> Cell, k: nat): (b: nat)
    ensures b < 2
  {
    memory(k / 8) / Pow2(k % 8) % 2
  }

  /** The number in the n bits from k on, the lowest one first. */
  function Field(memory: nat -> Cell, k: nat, n: nat): nat
    decreases n
  {
    if n == 0 then 0 else BitAt(memory, k) + 2 * Field(memory, k + 1, n - 1)
  }

  /** How pixels are coded: the number of bits of a color, and for compressed fonts the four lengths of runs. */
  datatype Format = Format(depth: nat, compressed: bool, table: seq<nat>) {
    predicate Ok() {
      1 <= depth <= 8 && |table| == 4 && (forall i :: 0 <= i < 4 ==> table[i] < 0x1_0000) && (compressed ==> depth <= 6)
    }
  }

  const COLOR_TABLE_BITS := 4

  /** Colors that the table of colors does not have are drawn in color 1. */
  function Mapped(depth: nat, value: nat): nat {
    if depth > COLOR_TABLE_BITS && value > 0 then 1 else value
  }

  /** The bits of a run in front of its color. */
  function Prefix(f: Format): nat {
    if f.compressed then 2 else 0
  }

  /** A length of zero in the table wraps around when the first pixel is counted. */
  function RunAt(f: Format, memory: nat -> Cell, pos: nat): (n: nat)
    requires f.Ok()
    ensures n >= 1
  {
    if !f.compressed then 1
    else
      FieldBound(memory, pos, 2);
      assert Pow2(2) == 4;
      var n := f.table[Field(memory, pos, 2)];
      if n == 0 then 0x1_0000 else n
  }

  function ColorAt(f: Format, memory: nat -> Cell, pos: nat): nat {
    Mapped(f.depth, Field(memory, pos + Prefix(f), f.depth))
  }

  function NextRun(f: Format, pos: nat): nat {
    pos + Prefix(f) + f.depth
  }

  /** The color of pixel k of the glyph whose first run is at pos. */
  function Pixel(f: Format, memory: nat -> Cell, pos: nat, k: nat): nat
    requires f.Ok()
    decreases k
  {
    var n := RunAt(f, memory, pos);
    if k < n then ColorAt(f, memory, pos) else Pixel(f, memory, NextRun(f, pos), k - n)
  }

  lemma OneLess(k: nat, n: nat)
    ensures 0 * n == 0 && k * n >= 0 && (k > 0 ==> (k - 1) * n >= 0 && n + (k - 1) * n == k * n)
  {
  }

  /** Without compression the colors simply follow one another. */
  lemma {:induction false} PlainPixel(f: Format, memory: nat -> Cell, pos: nat, k: nat)
    requires f.Ok() && !f.compressed
    ensures var value := Field(memory, pos + k * f.depth, f.depth);
      Pixel(f, memory, pos, k) == if f.depth <= 4 || value == 0 then value else 1
    decreases k
  {
    hide Field;
    OneLess(k, f.depth);
    if k > 0 {
      PlainPixel(f, memory, pos + f.depth, k - 1);
    }
  }

  /** The pixels of the first r runs. */
  ghost function RunsLength(f: Format, memory: nat -> Cell, pos: nat, r: nat): nat
    requires f.Ok() && f.compressed
  {
    if r == 0 then 0
    else RunsLength(f, memory, pos, r - 1) + LengthOf(f, memory, RunPos(f, pos, r - 1))
  }

  /** Where run number r is coded. */
  ghost function RunPos(f: Format, pos: nat, r: nat): nat {
    OneLess(r, 2 + f.depth);
    pos + r * (2 + f.depth)
  }

  /** The length of the run that is coded at pos: what the table has for its first two bits, and 0x10000 for zero. */
  ghost function LengthOf(f: Format, memory: nat -> Cell, pos: nat): nat
    requires f.Ok() && f.compressed
  {
    var code := BitAt(memory, pos) + 2 * BitAt(memory, pos + 1);
    if f.table[code] == 0 then 0x1_0000 else f.table[code]
  }

  lemma LengthIsRun(f: Format, memory: nat -> Cell, pos: nat)
    requires f.Ok() && f.compressed
    ensures RunAt(f, memory, pos) == LengthOf(f, memory, pos)
  {
    hide BitAt;
    assert Field(memory, pos + 1, 1) == BitAt(memory, pos + 1) + 2 * Field(memory, pos + 2, 0);
    assert Field(memory, pos, 2) == BitAt(memory, pos) + 2 * Field(memory, pos + 1, 1);
  }

  /** With compression the runs follow one another, two bits of length and the color each: run number r has the pixels
      behind those of the runs before it. */
  lemma {:induction false} RunPixel(f: Format, memory: nat -> Cell, pos: nat, r: nat, k: nat)
    requires f.Ok() && f.compressed && k < LengthOf(f, memory, RunPos(f, pos, r))
    ensures var value := Field(memory, RunPos(f, pos, r) + 2, f.depth);
      Pixel(f, memory, pos, RunsLength(f, memory, pos, r) + k) == if f.depth <= 4 || value == 0 then value else 1
    decreases r
  {
    hide Field;
    hide LengthOf;
    hide RunAt;
    LengthIsRun(f, memory, pos);
    if r > 0 {
      OneLess(r, 2 + f.depth);
      var next := pos + (2 + f.depth);
      assert next + (r - 1) * (2 + f.depth) == pos + r * (2 + f.depth);
      RunsFromSecond(f, memory, pos, r);
      RunPixel(f, memory, next, r - 1, k);
    }
  }

  lemma {:induction false} RunsFromSecond(f: Format, memory: nat -> Cell, pos: nat, r: nat)
    requires f.Ok() && f.compressed && r > 0
    ensures RunsLength(f, memory, pos, r) ==
      LengthOf(f, memory, pos) + RunsLength(f, memory, pos + (2 + f.depth), r - 1)
    decreases r
  {
    hide LengthOf;
    OneLess(r, 2 + f.depth);
    if r > 1 {
      RunsFromSecond(f, memory, pos, r - 1);
      OneLess(r - 1, 2 + f.depth);
      assert pos + (2 + f.depth) + (r - 2) * (2 + f.depth) == pos + (r - 1) * (2 + f.depth);
    } else {
      assert pos + (r - 1) * (2 + f.depth) == pos;
    }
  }

  // Fields

  lemma {:induction false} FieldBound(memory: nat -> Cell, k: nat, n: nat)
    ensures Field(memory, k, n) < Pow2(n)
    decreases n
  {
    if n > 0 {
      FieldBound(memory, k + 1, n - 1);
    }
  }

  lemma {:induction false} FieldSplits(memory: nat -> Cell, k: nat, n: nat, m: nat)
    ensures Field(memory, k, n + m) == Field(memory, k, n) + Pow2(n) * Field(memory, k + n, m)
    decreases n
  {
    hide BitAt;
    if n > 0 {
      FieldSplits(memory, k + 1, n - 1, m);
      assert k + 1 + (n - 1) == k + n;
      TwiceProduct(Pow2(n - 1), Field(memory, k + n, m));
    }
  }

  lemma TwiceProduct(a: nat, b: nat)
    ensures 2 * a * b == 2 * (a * b)
  {
  }

  /** The bits of one cell, without its j lowest ones. */
  lemma {:induction false} CellBits(memory: nat -> Cell, i: nat, j: nat)
    requires j <= 8
    ensures Field(memory, 8 * i + j, 8 - j) == memory(i) / Pow2(j)
    decreases 8 - j
  {
    hide Pow2;
    if j < 8 {
      CellBits(memory, i, j + 1);
      QuotientUnique(8 * i + j, 8, i, j);
      HalfOfQuotient(memory(i), Pow2(j));
      NextPower(j);
    } else {
      EightBits(memory(i));
    }
  }

  lemma NextPower(n: nat)
    ensures Pow2(n + 1) == 2 * Pow2(n)
  {
  }

  lemma EightBits(x: Cell)
    ensures x / Pow2(8) == 0
  {
    assert Pow2(4) == 16 && Pow2(8) == 16 * Pow2(4);
  }

  /** The buffer holds the next `count` bits; the cell that is put on top of them continues the field. */
  lemma Refill(memory: nat -> Cell, pos: nat, count: nat, i: nat)
    requires 8 * i == pos + count
    ensures Field(memory, pos, count) + Pow2(count) * memory(i) == Field(memory, pos, count + 8)
  {
    hide Field;
    FieldSplits(memory, pos, count, 8);
    CellBits(memory, i, 0);
    assert 8 * i + 0 == pos + count;
    WholeCell(memory(i));
  }

  lemma WholeCell(x: nat)
    ensures x / Pow2(0) == x
  {
  }

  /** Taking n bits out of the buffer. */
  lemma TakeBits(memory: nat -> Cell, pos: nat, count: nat, n: nat)
    requires n <= count
    ensures Field(memory, pos, count) % Pow2(n) == Field(memory, pos, n)
    ensures Field(memory, pos, count) / Pow2(n) == Field(memory, pos + n, count - n)
  {
    hide Field;
    hide Pow2;
    FieldSplits(memory, pos, n, count - n);
    FieldBound(memory, pos, n);
    QuotientUnique(Field(memory, pos, count), Pow2(n), Field(memory, pos + n, count - n), Field(memory, pos, n));
  }
}
