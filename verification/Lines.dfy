/** Lines on the display, drawn as runs of filled rectangles. */
module Lines {
  import opened Arithmetic
  import opened Words

  const SCREEN_WIDTH := 320
  const SCREEN_HEIGHT := 240

  function Abs(x: int): nat {
    if x < 0 then -x else x
  }

  /** How far a line has moved along its minor axis after i steps along its major axis. */
  function MinorOffset(i: nat, minor: nat, major: nat): nat
    requires major > 0
  {
    (2 * i * minor + major) / (2 * major)
  }

  /** The position that is j steps away from `from`. */
  function Move(from: int, up: bool, j: int): int {
    if up then from + j else from - j
  }

  /** The pixels of a line, in all octants: the longer axis is followed pixel by pixel. */
  predicate OnLine(x1: int, y1: int, x2: int, y2: int, x: int, y: int) {
    var dx, dy := Abs(x2 - x1), Abs(y2 - y1);
    if dx > dy then
      Between(x1, x, x2) && y == Move(y1, y1 < y2, MinorOffset(Abs(x - x1), dy, dx))
    else if dy > 0 then
      Between(y1, y, y2) && x == Move(x1, x1 < x2, MinorOffset(Abs(y - y1), dx, dy))
    else
      x == x1 && y == y1
  }

  predicate Between(a: int, x: int, b: int) {
    a <= x <= b || b <= x <= a
  }

  predicate OnScreen(x: int, y: int) {
    0 <= x < SCREEN_WIDTH && 0 <= y < SCREEN_HEIGHT
  }

  // What the offset means

  lemma OffsetBounds(i: nat, minor: nat, major: nat)
    requires major > 0
    ensures var m := MinorOffset(i, minor, major); 0 <= 2 * (i * minor) + major - 2 * (major * m) < 2 * major
  {
    var n := 2 * i * minor + major;
    assert n == 2 * (i * minor) + major;
    assert n / (2 * major) * (2 * major) + n % (2 * major) == n;
    assert n / (2 * major) * (2 * major) == 2 * (major * (n / (2 * major)));
  }

  lemma OffsetUnique(i: nat, minor: nat, major: nat, m: nat)
    requires major > 0 && 0 <= 2 * (i * minor) + major - 2 * (major * m) < 2 * major
    ensures MinorOffset(i, minor, major) == m
  {
    OffsetBounds(i, minor, major);
    var k := MinorOffset(i, minor, major);
    if k < m {
      Multiples(major, k, m);
    } else if m < k {
      Multiples(major, m, k);
    }
  }

  /** The pixel is the one nearest to the ideal line, the farther one if two are equally near, and a line neither stops
      nor jumps. */
  lemma NearestPixel(i: nat, minor: nat, major: nat)
    requires major > 0 && minor <= major
    ensures 2 * (i * minor) - major < 2 * (major * MinorOffset(i, minor, major)) <= 2 * (i * minor) + major
    ensures var m, next := MinorOffset(i, minor, major), MinorOffset(i + 1, minor, major); m <= next <= m + 1
  {
    hide MinorOffset;
    var m, next := MinorOffset(i, minor, major), MinorOffset(i + 1, minor, major);
    OffsetBounds(i, minor, major);
    OffsetBounds(i + 1, minor, major);
    OneMore(minor, i);
    if next < m {
      Multiples(major, next, m);
    } else if m + 1 < next {
      Multiples(major, m, next - 1);
      Multiples(major, next - 1, next);
    }
  }

  lemma OffsetEnds(minor: nat, major: nat)
    requires major > 0
    ensures MinorOffset(0, minor, major) == 0 && MinorOffset(major, minor, major) == minor
  {
    OffsetUnique(0, minor, major, 0);
    OffsetUnique(major, minor, major, minor);
  }

  /** Both end points are on the line. */
  lemma EndsOnLine(x1: int, y1: int, x2: int, y2: int)
    ensures OnLine(x1, y1, x2, y2, x1, y1) && OnLine(x1, y1, x2, y2, x2, y2)
  {
    var dx, dy := Abs(x2 - x1), Abs(y2 - y1);
    if dx > dy {
      OffsetEnds(dy, dx);
    } else if dy > 0 {
      OffsetEnds(dx, dy);
    }
  }

  // A line in terms of its axes

  /** A line that starts at u on the major and v on the minor axis; `swap` says that the major axis is y. */
  datatype Segment = Segment(u: int, v: int, uUp: bool, vUp: bool, major: nat, minor: nat, swap: bool)

  /** The pixels of the first n steps. */
  predicate InSteps(g: Segment, x: int, y: int, n: int)
    requires g.major > 0
  {
    var a, b := if g.swap then y else x, if g.swap then x else y;
    var j := if g.uUp then a - g.u else g.u - a;
    0 <= j < n && b == Move(g.v, g.vUp, MinorOffset(j, g.minor, g.major))
  }

  lemma SegmentIsLine(g: Segment, x1: int, y1: int, x2: int, y2: int, x: int, y: int)
    requires x1 != x2 && y1 != y2
    requires g.swap == (Abs(x2 - x1) <= Abs(y2 - y1))
    requires g == if g.swap then Segment(y1, x1, y1 < y2, x1 < x2, Abs(y2 - y1), Abs(x2 - x1), true)
                  else Segment(x1, y1, x1 < x2, y1 < y2, Abs(x2 - x1), Abs(y2 - y1), false)
    ensures InSteps(g, x, y, g.major + 1) <==> OnLine(x1, y1, x2, y2, x, y)
  {
    hide MinorOffset;
  }

  /** Steps r to n - 1 form one run: they are the pixels of a rectangle that is one pixel thick. */
  lemma RunIsRectangle(g: Segment, r: nat, n: nat, m: nat, x: int, y: int)
    requires g.major > 0 && r < n
    requires forall j :: r <= j < n ==> MinorOffset(j, g.minor, g.major) == m
    ensures var a, b := if g.swap then y else x, if g.swap then x else y;
      (InSteps(g, x, y, n) <==>
       InSteps(g, x, y, r) || (Between(Move(g.u, g.uUp, r), a, Move(g.u, g.uUp, n - 1)) && b == Move(g.v, g.vUp, m)))
  {
    hide MinorOffset;
  }

  class Display {
    const pixels: array2<nat>
    ghost var calls: nat

    ghost predicate Valid()
      reads this
    {
      pixels.Length0 == SCREEN_WIDTH && pixels.Length1 == SCREEN_HEIGHT
    }

    constructor ()
      ensures Valid() && fresh(pixels)
    {
      pixels := new nat[SCREEN_WIDTH, SCREEN_HEIGHT];
      calls := 0;
    }

    method SetPixelRGB(x: u2, y: u2, color: nat)
      requires Valid()
      modifies this`calls, pixels
      ensures calls == old(calls) + 1
      ensures forall i, j :: OnScreen(i, j) ==> pixels[i, j] == if i == x && j == y then color else old(pixels[i, j])
    {
      if x < SCREEN_WIDTH && y < SCREEN_HEIGHT {
        pixels[x, y] := color;
      }
      calls := calls + 1;
    }

    method FillRow(x1: u2, x2: u2, y: u2, color: nat)
      requires Valid() && x1 <= x2 < 0xFFFF
      modifies this`calls, pixels
      ensures calls == old(calls) + (x2 - x1 + 1)
      ensures forall i, j :: OnScreen(i, j) ==>
        pixels[i, j] == if x1 <= i <= x2 && j == y then color else old(pixels[i, j])
    {
      var x := x1;
      while x <= x2
        invariant x1 <= x <= x2 + 1 && calls == old(calls) + (x - x1)
        invariant forall i, j :: OnScreen(i, j) ==>
          pixels[i, j] == if x1 <= i < x && j == y then color else old(pixels[i, j])
      {
        SetPixelRGB(x, y, color);
        x := Wrap16(x + 1);
      }
    }

    /** lcdFillRect; a corner at 0xFFFF would never end its loops. */
    method FillRect(x1: u2, y1: u2, x2: u2, y2: u2, color: nat)
      requires Valid() && x1 < 0xFFFF && y1 < 0xFFFF && x2 < 0xFFFF && y2 < 0xFFFF
      modifies this`calls, pixels
      ensures calls == old(calls) + (Abs(x2 - x1) + 1) * (Abs(y2 - y1) + 1)
      ensures forall i, j :: OnScreen(i, j) ==>
        pixels[i, j] == if Between(x1, i, x2) && Between(y1, j, y2) then color else old(pixels[i, j])
    {
      var left, right, top, bottom := x1, x2, y1, y2;
      if left > right {
        left, right := right, left;
      }
      if top > bottom {
        top, bottom := bottom, top;
      }
      var y: u2 := top;
      while y <= bottom
        invariant top <= y <= bottom + 1 && calls == old(calls) + (right - left + 1) * (y - top)
        invariant forall i, j :: OnScreen(i, j) ==>
          pixels[i, j] == if left <= i <= right && top <= j < y then color else old(pixels[i, j])
      {
        assert (right - left + 1) * (y + 1 - top) == (right - left + 1) * (y - top) + (right - left + 1);
        FillRow(left, right, y, color);
        y := Wrap16(y + 1);
      }
    }

    /** One run: from step r to step n - 1, at m steps along the minor axis. */
    method FlushRun(a1: u2, b1: u2, a2: u2, b2: u2, color: nat, ghost g: Segment, ghost r: nat, ghost n: nat,
                    ghost m: nat)
      requires Valid() && a1 < 0xFFFF && b1 < 0xFFFF && a2 < 0xFFFF && b2 < 0xFFFF && g.major > 0
      requires r < n && forall j :: r <= j < n ==> MinorOffset(j, g.minor, g.major) == m
      requires (if g.swap then (b1, a1) else (a1, b1)) == (Move(g.u, g.uUp, r), Move(g.v, g.vUp, m))
      requires (if g.swap then (b2, a2) else (a2, b2)) == (Move(g.u, g.uUp, n - 1), Move(g.v, g.vUp, m))
      modifies this`calls, pixels
      ensures calls == old(calls) + (n - r)
      ensures forall i, j :: OnScreen(i, j) ==>
        pixels[i, j] == if InSteps(g, i, j, n) && !InSteps(g, i, j, r) then color else old(pixels[i, j])
    {
      hide MinorOffset;
      FillRect(a1, b1, a2, b2, color);
      forall i, j | OnScreen(i, j)
        ensures pixels[i, j] == if InSteps(g, i, j, n) && !InSteps(g, i, j, r) then color else old(pixels[i, j])
      {
        RunIsRectangle(g, r, n, m, i, j);
      }
    }

    /** The error term after i steps, before its minor axis has been adjusted. */
    ghost function ErrorTerm(i: nat, minor: nat, major: nat): int
      requires major > 0
    {
      2 * (i * minor) + 2 * minor - major - 2 * (major * MinorOffset(i, minor, major))
    }

    lemma FirstError(minor: nat, major: nat)
      requires major > 0
      ensures ErrorTerm(0, minor, major) == minor - major + minor && MinorOffset(0, minor, major) == 0
    {
      hide MinorOffset;
      OffsetEnds(minor, major);
    }

    /** The inner loop of lcdLine and the two additions behind it. */
    method AdvanceMinor(i: nat, v: u2, dx: u2, dy: u2, sy: u2, y0: u2, e0: int) returns (y1: u2, e: int)
      requires 0 < dy <= dx && (sy == 1 || sy == 0xFFFF)
      requires e0 == ErrorTerm(i, dy, dx) && y0 == Wrap16(Move(v, sy == 1, MinorOffset(i, dy, dx)))
      ensures e == ErrorTerm(i + 1, dy, dx) && y1 == Wrap16(Move(v, sy == 1, MinorOffset(i + 1, dy, dx)))
    {
      hide MinorOffset;
      hide Wrap16;
      y1, e := y0, e0;
      ghost var m := MinorOffset(i, dy, dx);
      OffsetBounds(i, dy, dx);
      while e >= 0
        invariant 0 <= m && e == 2 * (i * dy) + 2 * dy - dx - 2 * (dx * m) && -2 * dx <= e < 2 * dx
        invariant y1 == Wrap16(Move(v, sy == 1, m))
        decreases e
      {
        OneMore(dx, m);
        WrapStep(v, sy, m);
        y1 := Wrap16(y1 + sy);
        e := e - dx;
        e := e - dx;
        m := m + 1;
      }
      e := e + dy;
      e := e + dy;
      OneMore(dy, i);
      OffsetUnique(i + 1, dy, dx, m);
    }

    /** The loop of lcdLine, after the axes have been swapped so that x is the major one. */
    method DrawSteps(u: u2, v: u2, dx: u2, dy: u2, sx: u2, sy: u2, swap: bool, color: nat, ghost g: Segment)
      requires Valid() && 0 < dy <= dx < 0xFFFF && g == Segment(u, v, sx == 1, sy == 1, dx, dy, swap)
      requires (sx == 1 || sx == 0xFFFF) && 0 <= Move(u, sx == 1, dx) < 0xFFFF && u < 0xFFFF
      requires (sy == 1 || sy == 0xFFFF) && 0 <= Move(v, sy == 1, dy) < 0xFFFF && v < 0xFFFF
      modifies this`calls, pixels
      ensures calls == old(calls) + dx + 1
      ensures forall i, j :: OnScreen(i, j) ==>
        pixels[i, j] == if InSteps(g, i, j, dx + 1) then color else old(pixels[i, j])
    {
      hide MinorOffset;
      hide InSteps;
      hide ErrorTerm;
      hide Wrap16;
      var x1: u2, y1: u2 := u, v;
      var e: int := dy - dx + dy;
      var x2: u2, y2: u2, x3: u2, y3: u2 := x1, y1, x1, y1;
      var i: nat := 0;
      ghost var r: nat, m: nat, mr: nat := 0, 0, 0;
      FirstError(dy, dx);
      StartsEmpty(g);
      NoWrap(u, sx, 0, dx);
      NoWrap(v, sy, 0, dy);
      while i <= dx
        invariant 0 <= r <= i <= dx + 1 && x1 == Wrap16(Move(u, sx == 1, i)) && y1 == Wrap16(Move(v, sy == 1, m))
        invariant m == MinorOffset(i, dy, dx) && e == ErrorTerm(i, dy, dx)
        invariant forall j :: r <= j < i ==> MinorOffset(j, dy, dx) == mr
        invariant mr <= dy && x2 == Move(u, sx == 1, r) && y2 == Move(v, sy == 1, mr) == y3
        invariant if i == 0 then r == 0 && mr == 0 else r < i && x3 == Move(u, sx == 1, i - 1)
        invariant calls == old(calls) + r
        invariant forall a, b :: OnScreen(a, b) ==>
          pixels[a, b] == if InSteps(g, a, b, r) then color else old(pixels[a, b])
      {
        OffsetWithin(i, dy, dx);
        NoWrap(u, sx, i, dx);
        NoWrap(v, sy, m, dy);
        if x1 != x2 && y1 != y2 {
          if swap {
            x2, y2 := y2, x2;
            x3, y3 := y3, x3;
          }
          FlushRun(x2, y2, x3, y3, color, g, r, i, mr);
          StepsGrow(g, r, i);
          x2 := x1;
          y2 := y1;
          r, mr := i, m;
        }
        x3 := x1;
        y3 := y1;
        y1, e := AdvanceMinor(i, v, dx, dy, sy, y1, e);
        WrapStep(u, sx, i);
        x1 := Wrap16(x1 + sx);
        m := MinorOffset(i + 1, dy, dx);
        i := i + 1;
      }
      if swap {
        x2, y2 := y2, x2;
        x3, y3 := y3, x3;
      }
      FlushRun(x2, y2, x3, y3, color, g, r, dx + 1, mr);
      StepsGrow(g, r, dx + 1);
    }

    /** lcdLine: exactly the pixels of the line get the color, and each of them is set once. */
    method Line(x1: u2, y1: u2, x2: u2, y2: u2, color: nat)
      requires Valid() && x1 < 0xFFFF && y1 < 0xFFFF && x2 < 0xFFFF && y2 < 0xFFFF
      modifies this`calls, pixels
      ensures calls == old(calls) + (if Abs(x2 - x1) > Abs(y2 - y1) then Abs(x2 - x1) else Abs(y2 - y1)) + 1
      ensures forall i, j :: OnScreen(i, j) ==>
        pixels[i, j] == if OnLine(x1, y1, x2, y2, i, j) then color else old(pixels[i, j])
    {
      hide InSteps;
      if x1 == x2 || y1 == y2 {
        FillRect(x1, y1, x2, y2, color);
        StraightLine(x1, y1, x2, y2);
        hide MinorOffset;
      } else {
        hide MinorOffset;
        var dx: u2, dy: u2, sx: u2, sy: u2;
        if x1 < x2 {
          dx, sx := x2 - x1, 1;
        } else {
          dx, sx := x1 - x2, 0xFFFF;
        }
        if y1 < y2 {
          dy, sy := y2 - y1, 1;
        } else {
          dy, sy := y1 - y2, 0xFFFF;
        }
        var swap := dx <= dy;
        var u, v := x1, y1;
        if swap {
          u, v := v, u;
          dx, dy := dy, dx;
          sx, sy := sy, sx;
        }
        ghost var g := Segment(u, v, sx == 1, sy == 1, dx, dy, swap);
        DrawSteps(u, v, dx, dy, sx, sy, swap, color, g);
        forall i, j | OnScreen(i, j)
          ensures pixels[i, j] == if OnLine(x1, y1, x2, y2, i, j) then color else old(pixels[i, j])
        {
          SegmentIsLine(g, x1, y1, x2, y2, i, j);
        }
      }
    }
  }

  lemma StraightLine(x1: int, y1: int, x2: int, y2: int)
    requires x1 == x2 || y1 == y2
    ensures forall x, y :: OnLine(x1, y1, x2, y2, x, y) <==> Between(x1, x, x2) && Between(y1, y, y2)
  {
    forall x, y ensures OnLine(x1, y1, x2, y2, x, y) <==> Between(x1, x, x2) && Between(y1, y, y2) {
      hide MinorOffset;
      if x1 != x2 {
        OffsetUnique(Abs(x - x1), 0, Abs(x2 - x1), 0);
      } else if y1 != y2 {
        OffsetUnique(Abs(y - y1), 0, Abs(y2 - y1), 0);
      }
    }
  }

  lemma OneMore(n: int, m: int)
    ensures n * (m + 1) == n * m + n && (m + 1) * n == m * n + n
  {
  }

  lemma WrapIs(x: int, q: int, r: u2)
    requires x == 0x1_0000 * q + r
    ensures Wrap16(x) == r
  {
  }

  lemma WrapStep(from: u2, step: u2, j: nat)
    requires step == 1 || step == 0xFFFF
    ensures Wrap16(Wrap16(Move(from, step == 1, j)) + step) == Wrap16(Move(from, step == 1, j + 1))
  {
    var x := Move(from, step == 1, j);
    var q, r := x / 0x1_0000, Wrap16(x);
    assert x == 0x1_0000 * q + r;
    hide Wrap16;
    if step == 1 {
      var carry := if r == 0xFFFF then 1 else 0;
      WrapIs(r + 1, carry, r + 1 - 0x1_0000 * carry);
      WrapIs(x + 1, q + carry, r + 1 - 0x1_0000 * carry);
    } else {
      var borrow := if r == 0 then 1 else 0;
      WrapIs(r + 0xFFFF, 1 - borrow, r - 1 + 0x1_0000 * borrow);
      WrapIs(x - 1, q - borrow, r - 1 + 0x1_0000 * borrow);
    }
  }

  lemma NoWrap(from: u2, step: u2, j: nat, n: nat)
    requires from < 0xFFFF && 0 <= Move(from, step == 1, n) < 0xFFFF && j <= n
    ensures 0 <= Move(from, step == 1, j) < 0xFFFF && Wrap16(Move(from, step == 1, j)) == Move(from, step == 1, j)
  {
  }

  lemma StartsEmpty(g: Segment)
    requires g.major > 0
    ensures forall a, b :: !InSteps(g, a, b, 0)
  {
  }

  lemma StepsGrow(g: Segment, r: nat, n: nat)
    requires g.major > 0 && r <= n
    ensures forall a, b :: InSteps(g, a, b, r) ==> InSteps(g, a, b, n)
  {
  }

  lemma OffsetWithin(i: nat, minor: nat, major: nat)
    requires minor <= major && i <= major && major > 0
    ensures MinorOffset(i, minor, major) <= minor
  {
    OffsetBounds(i, minor, major);
    var m := MinorOffset(i, minor, major);
    assert i * minor <= major * minor;
    if m > minor {
      Multiples(major, minor, m);
    }
  }

  // Loops over coordinates

  /** The coordinate of a loop after so many turns. */
  ghost function LoopCoordinate(from: u2, turns: nat): u2 {
    if turns == 0 then from else Wrap16(LoopCoordinate(from, turns - 1) + 1)
  }

  lemma {:induction false} LoopCoordinateValue(from: u2, turns: nat)
    requires from + turns <= 0xFFFF
    ensures LoopCoordinate(from, turns) == from + turns
  {
    hide Wrap16;
    if turns > 0 {
      LoopCoordinateValue(from, turns - 1);
      FitsCoordinate(from + turns);
    }
  }

  lemma FitsCoordinate(x: nat)
    requires x <= 0xFFFF
    ensures Wrap16(x) == x
  {
  }

  /** A loop of lcdFillRect up to a corner, which goes on while the coordinate is not behind it, ends exactly if the
      corner is not at 0xFFFF. */
  lemma FillLoopEndsIff(from: u2, corner: u2)
    ensures (exists turns :: LoopCoordinate(from, turns) > corner) <==> corner < 0xFFFF
  {
    if corner < 0xFFFF {
      var turns := if from <= corner then corner + 1 - from else 0;
      LoopCoordinateValue(from, turns);
      assert LoopCoordinate(from, turns) > corner;
    } else {
      forall turns ensures LoopCoordinate(from, turns) <= corner {
      }
    }
  }
}
