/** Drawing the characters of a font whose data is packed bit by bit, and run-length coded when it is compressed. */
module Glyphs {
  import opened Arithmetic
  import opened GlyphBits
  import opened Lines
  import opened Words

  const FONT_HEADER_SIZE := 7
  const LCD_COLOR_NONE := 0x002000

  /** The selected font: its cells in memory, and what lcdSelectFont has read from its header. */
  datatype Font = Font(memory: nat -> Cell, data: nat, height: nat, bitsPixel: nat, first: nat, last: nat) {
    function Characters(): nat
      requires first <= last
    {
      last - first + 1
    }

    predicate Compressed() {
      bitsPixel >= 0x80
    }

    function Depth(): nat {
      bitsPixel % 0x80
    }

    /** The cell behind the widths of all characters. */
    function Tables(): nat
      requires first <= last
    {
      data + FONT_HEADER_SIZE + Characters()
    }

    function PixelFormat(): Format
      requires first <= last
    {
      Format(Depth(), Compressed(), [1, memory(Tables() + 1), memory(Tables() + 2), memory(Tables() + 3)])
    }

    predicate Ok() {
      first <= last && height > 0 && PixelFormat().Ok()
    }

    /** The number of cells or bits in front of a character whose predecessors have widths that sum to n. */
    function Offset(n: nat, each: nat): nat {
      n * each
    }

    /** The bit of the memory at which the data of character c begins. */
    function GlyphStart(c: nat): nat
      requires first <= c <= last
    {
      if Compressed() then
        8 * (data + FONT_HEADER_SIZE + 2 * (Characters() + 2)
             + Offset(SumOfCells(memory, Tables() + 4, c - first), memory(Tables())))
      else
        8 * Tables() + Offset(SumOfCells(memory, data + FONT_HEADER_SIZE, c - first), Offset(height, Depth()))
    }
  }

  function SumOfCells(memory: nat -> Cell, a: nat, n: nat): nat {
    if n == 0 then 0 else SumOfCells(memory, a, n - 1) + memory(a + n - 1)
  }

  method SumCells(memory: nat -> Cell, a: nat, n: nat) returns (index: nat)
    ensures index == SumOfCells(memory, a, n)
  {
    index := 0;
    for i := 0 to n
      invariant index == SumOfCells(memory, a, i)
    {
      index := index + memory(a + i);
    }
  }

  /** Without compression the data of the first character begins behind the header and the widths of all characters,
      and every other one's where the pixels of the one before it end. */
  lemma PlainGlyphsFollow(font: Font, c: nat)
    requires font.Ok() && font.bitsPixel < 0x80 && font.first <= c <= font.last
    ensures !font.PixelFormat().compressed && font.PixelFormat().depth == font.bitsPixel
    ensures font.GlyphStart(font.first) == 8 * (font.data + 7 + (font.last - font.first + 1))
    ensures c < font.last ==>
      var width := font.memory(font.data + 7 + (c - font.first));
      font.GlyphStart(c + 1) == font.GlyphStart(c) + width * (font.height * font.bitsPixel)
  {
    var each: nat := font.Offset(font.height, font.Depth());
    var before := SumOfCells(font.memory, font.data + FONT_HEADER_SIZE, c - font.first);
    if c < font.last {
      MoreCells(before, font.memory(font.data + 7 + (c - font.first)), each);
    }
  }

  /** With compression there are four more cells behind the widths, the padding and three lengths of runs, and then a
      second table; a character takes as many cells as its entry says, times the padding. */
  lemma PackedGlyphsFollow(font: Font, c: nat)
    requires font.Ok() && font.bitsPixel >= 0x80 && font.first <= c <= font.last
    ensures font.PixelFormat().compressed
    ensures font.bitsPixel < 0x100 ==> font.PixelFormat().depth == font.bitsPixel - 0x80
    ensures var at := font.data + 7 + (font.last - font.first + 1);
      font.PixelFormat().table == [1, font.memory(at + 1), font.memory(at + 2), font.memory(at + 3)]
    ensures var n := font.last - font.first + 1;
      && font.GlyphStart(font.first) == 8 * (font.data + 7 + 2 * (n + 2))
      && (c < font.last ==>
            var size := font.memory(font.data + 7 + n + 4 + (c - font.first));
            font.GlyphStart(c + 1) == font.GlyphStart(c) + 8 * (size * font.memory(font.data + 7 + n)))
  {
    var padding := font.memory(font.Tables());
    var before := SumOfCells(font.memory, font.Tables() + 4, c - font.first);
    if c < font.last {
      MoreCells(before, font.memory(font.Tables() + 4 + (c - font.first)), padding);
    }
  }

  lemma MoreCells(before: nat, more: nat, each: nat)
    ensures (before + more) * each == before * each + more * each
  {
  }

  /** The bit buffer of the decoder: the next bits of the data, and how many there are. */
  datatype Buffer = Buffer(data: nat, bits: nat, bitscount: nat)

  /** The buffer holds exactly the bits from pos on that have been read but not used. */
  ghost predicate Holds(b: Buffer, memory: nat -> Cell, pos: nat) {
    b.bitscount <= 16 && 8 * b.data == pos + b.bitscount && b.bits == Field(memory, pos, b.bitscount)
  }

  /** The first bits of the data that begins at bit number `skip` of a cell. */
  method FirstBits(memory: nat -> Cell, data: nat, skip: nat) returns (b: Buffer)
    requires skip < 8
    ensures Holds(b, memory, 8 * data + skip)
  {
    hide Field;
    hide Pow2;
    CellBits(memory, data, skip);
    b := Buffer(data + 1, memory(data) / Pow2(skip), 8 - skip);
  }

  /** The pointer to the data of a character, and its first bits. */
  method LocateGlyph(font: Font, c: nat) returns (b: Buffer)
    requires font.Ok() && font.first <= c <= font.last
    ensures Holds(b, font.memory, font.GlyphStart(c))
  {
    hide Holds;
    if font.Compressed() {
      var data: nat := font.Tables();
      var padding: nat := font.memory(data);
      var index: nat := SumCells(font.memory, data + 4, c - font.first);
      index := index * padding;
      data := font.data + FONT_HEADER_SIZE + (font.last - font.first + 3) * 2 + index;
      b := FirstBits(font.memory, data, 0);
    } else {
      var index: nat := SumCells(font.memory, font.data + FONT_HEADER_SIZE, c - font.first);
      index := index * (font.height * font.Depth());
      b := FirstBits(font.memory, font.Tables() + index / 8, index % 8);
    }
  }

  /** What is left to draw from pixel k on: pixelcount pixels in the current color, then the runs from pos on. */
  ghost predicate Remaining(f: Format, memory: nat -> Cell, start: nat, k: nat, pos: nat, pixelcount: nat, color: nat)
    requires f.Ok()
  {
    forall m: nat {:trigger Pixel(f, memory, start, m)} :: m >= k ==>
      Pixel(f, memory, start, m) == if m - k < pixelcount then color else Pixel(f, memory, pos, m - k - pixelcount)
  }

  lemma NewRun(f: Format, memory: nat -> Cell, start: nat, k: nat, pos: nat, color: nat)
    requires f.Ok() && Remaining(f, memory, start, k, pos, 0, color)
    ensures Remaining(f, memory, start, k, NextRun(f, pos), RunAt(f, memory, pos), ColorAt(f, memory, pos))
  {
    hide RunAt;
    hide ColorAt;
    hide NextRun;
    forall m: nat | m >= k ensures Pixel(f, memory, start, m) ==
      if m - k < RunAt(f, memory, pos) then ColorAt(f, memory, pos)
      else Pixel(f, memory, NextRun(f, pos), m - k - RunAt(f, memory, pos))
    {
      assert Pixel(f, memory, start, m) == Pixel(f, memory, pos, m - k);
    }
  }

  lemma OnePixel(f: Format, memory: nat -> Cell, start: nat, k: nat, pos: nat, pixelcount: nat, color: nat)
    requires f.Ok() && pixelcount > 0 && Remaining(f, memory, start, k, pos, pixelcount, color)
    ensures color == Pixel(f, memory, start, k) && Remaining(f, memory, start, k + 1, pos, pixelcount - 1, color)
  {
    hide Pixel;
  }

  /** With eight bits or fewer left, the next cell goes on top of them. */
  method FillBuffer(memory: nat -> Cell, b0: Buffer, ghost pos: nat) returns (b: Buffer)
    requires Holds(b0, memory, pos)
    ensures Holds(b, memory, pos) && b.bitscount >= 8
  {
    hide Field;
    hide Pow2;
    b := b0;
    if b.bitscount <= 8 {
      Refill(memory, pos, b.bitscount, b.data);
      b := Buffer(b.data + 1, b.bits + Pow2(b.bitscount) * memory(b.data), b.bitscount + 8);
    }
  }

  /** Takes n bits out of the buffer: a mask and a shift. */
  method TakeField(memory: nat -> Cell, b0: Buffer, n: nat, ghost pos: nat) returns (b: Buffer, value: nat)
    requires Holds(b0, memory, pos) && n <= b0.bitscount
    ensures Holds(b, memory, pos + n) && b.bitscount == b0.bitscount - n && value == Field(memory, pos, n) < Pow2(n)
  {
    hide Field;
    hide Pow2;
    TakeBits(memory, pos, b0.bitscount, n);
    FieldBound(memory, pos, n);
    value := b0.bits % Pow2(n);
    b := Buffer(b0.data, b0.bits / Pow2(n), b0.bitscount - n);
  }

  /** Reads the next run: refill, length, color. */
  method ReadRun(f: Format, memory: nat -> Cell, b0: Buffer, ghost pos: nat)
      returns (b: Buffer, pixelcount: u2, pixelcolor: nat)
    requires f.Ok() && Holds(b0, memory, pos)
    ensures Holds(b, memory, NextRun(f, pos)) && pixelcolor == ColorAt(f, memory, pos)
    ensures Wrap16(pixelcount as int - 1) == RunAt(f, memory, pos) - 1
  {
    hide Field;
    hide Pow2;
    hide Holds;
    b := FillBuffer(memory, b0, pos);
    pixelcount := 1;
    if f.compressed {
      FourLengths();
      var length: nat;
      b, length := TakeField(memory, b, 2, pos);
      pixelcount := f.table[length];
    }
    b, pixelcolor := TakeField(memory, b, f.depth, pos + Prefix(f));
    if f.depth > COLOR_TABLE_BITS && pixelcolor > 0 {
      pixelcolor := 1;
    }
  }

  lemma FourLengths()
    ensures Pow2(2) == 4
  {
    assert Pow2(1) == 2;
  }

  lemma ColorInTable(f: Format, memory: nat -> Cell, pos: nat)
    requires f.Ok()
    ensures ColorAt(f, memory, pos) < 16
  {
    FieldBound(memory, pos + Prefix(f), f.depth);
    assert Pow2(1) == 2 && Pow2(2) == 4 && Pow2(3) == 8 && Pow2(4) == 16;
  }

  /** What the screen shows where a glyph pixel of this color has been drawn: one color is transparent. */
  function Shown(colors: seq<nat>, color: nat, below: nat): nat
    requires color < |colors|
  {
    if colors[color] != LCD_COLOR_NONE then colors[color] else below
  }

  lemma {:induction false} PixelInTable(f: Format, memory: nat -> Cell, pos: nat, k: nat)
    requires f.Ok()
    ensures Pixel(f, memory, pos, k) < 16
    decreases k
  {
    hide ColorAt;
    ColorInTable(f, memory, pos);
    var n := RunAt(f, memory, pos);
    if k >= n {
      PixelInTable(f, memory, NextRun(f, pos), k - n);
    }
  }

  /** Where in the glyph a pixel of the screen is. */
  function Place(x0: nat, y0: nat, height: nat, i: int, j: int): nat
    requires x0 <= i && y0 <= j
  {
    ProductAtLeast(i - x0, height);
    (i - x0) * height + (j - y0)
  }

  lemma PlaceFacts(x0: nat, y0: nat, height: nat, i: int, j: int)
    requires x0 <= i && y0 <= j
    ensures Place(x0, y0, height, x0, y0) == 0 && Place(x0, y0, height, i, j + 1) == Place(x0, y0, height, i, j) + 1
    ensures Place(x0, y0, height, i + 1, y0) == Place(x0, y0, height, i, y0 + height)
  {
    assert (i + 1 - x0) * height == (i - x0) * height + height;
  }

  /** The state of the decoder between two pixels. */
  datatype Decoder = Decoder(b: Buffer, pixelcount: u2, color: nat)

  /** The decoder has produced the first k pixels of the glyph at start. */
  ghost predicate Decoding(d: Decoder, f: Format, memory: nat -> Cell, start: nat, k: nat)
    requires f.Ok()
  {
    exists pos: nat :: Holds(d.b, memory, pos) && Remaining(f, memory, start, k, pos, d.pixelcount, d.color)
  }

  method NextPixel(f: Format, memory: nat -> Cell, d0: Decoder, ghost start: nat, ghost k: nat) returns (d: Decoder)
    requires f.Ok() && Decoding(d0, f, memory, start, k)
    ensures Decoding(d, f, memory, start, k + 1) && d.color == Pixel(f, memory, start, k) < 16
  {
    hide Holds;
    hide Remaining;
    hide Pixel;
    ghost var pos: nat :| Holds(d0.b, memory, pos) && Remaining(f, memory, start, k, pos, d0.pixelcount, d0.color);
    PixelInTable(f, memory, start, k);
    var b, pixelcount, color := d0.b, d0.pixelcount, d0.color;
    ghost var n := pixelcount;
    if pixelcount == 0 {
      b, pixelcount, color := ReadRun(f, memory, b, pos);
      NewRun(f, memory, start, k, pos, d0.color);
      n := RunAt(f, memory, pos);
      pos := NextRun(f, pos);
    }
    pixelcount := Wrap16(pixelcount as int - 1);
    OnePixel(f, memory, start, k, pos, n, color);
    d := Decoder(b, pixelcount, color);
  }

  lemma StartDecoding(b: Buffer, f: Format, memory: nat -> Cell, start: nat)
    requires f.Ok() && Holds(b, memory, start)
    ensures Decoding(Decoder(b, 0, 0), f, memory, start, 0)
  {
    hide Pixel;
    assert Remaining(f, memory, start, 0, start, 0, 0);
  }

  /** The color number of the glyph pixel that is at (i, j) on the screen when the glyph is drawn at (x0, y0). */
  function GlyphPixel(font: Font, c: nat, x0: nat, y0: nat, i: int, j: int): (color: nat)
    requires font.Ok() && font.first <= c <= font.last && x0 <= i && y0 <= j
    ensures color < 16
  {
    PixelInTable(font.PixelFormat(), font.memory, font.GlyphStart(c), Place(x0, y0, font.height, i, j));
    Pixel(font.PixelFormat(), font.memory, font.GlyphStart(c), Place(x0, y0, font.height, i, j))
  }

  /** One pixel of the loops. */
  method DrawPixel(display: Display, font: Font, colors: seq<nat>, d0: Decoder, x0: u2, y0: u2, x: u2, y: u2,
                   ghost c: nat) returns (d: Decoder)
    requires display.Valid() && font.Ok() && font.first <= c <= font.last && |colors| == 16 && x0 <= x
    requires y0 <= y < y0 + font.height
    requires Decoding(d0, font.PixelFormat(), font.memory, font.GlyphStart(c), Place(x0, y0, font.height, x, y))
    modifies display`calls, display.pixels
    ensures Decoding(d, font.PixelFormat(), font.memory, font.GlyphStart(c), Place(x0, y0, font.height, x, y + 1))
    ensures forall i, j :: OnScreen(i, j) ==>
      display.pixels[i, j] == (if i == x && j == y
                               then Shown(colors, GlyphPixel(font, c, x0, y0, x, y), old(display.pixels[i, j]))
                               else old(display.pixels[i, j]))
  {
    hide Pixel;
    hide Decoding;
    PlaceFacts(x0, y0, font.height, x, y);
    d := NextPixel(font.PixelFormat(), font.memory, d0, font.GlyphStart(c), Place(x0, y0, font.height, x, y));
    hide Place;
    if colors[d.color] != LCD_COLOR_NONE && y < SCREEN_HEIGHT {
      display.SetPixelRGB(x, y, colors[d.color]);
    }
  }

  /** One column. */
  method DrawColumn(display: Display, font: Font, colors: seq<nat>, d0: Decoder, x0: u2, y0: u2, x: u2, stopY: u2,
                    ghost c: nat)
    returns (d: Decoder)
    requires display.Valid() && font.Ok() && font.first <= c <= font.last && |colors| == 16 && x0 <= x
    requires y0 + font.height - 1 == stopY < 0xFFFF
    requires Decoding(d0, font.PixelFormat(), font.memory, font.GlyphStart(c), Place(x0, y0, font.height, x, y0))
    modifies display`calls, display.pixels
    ensures Decoding(d, font.PixelFormat(), font.memory, font.GlyphStart(c), Place(x0, y0, font.height, x + 1, y0))
    ensures forall i, j :: OnScreen(i, j) ==>
      display.pixels[i, j] == (if i == x && y0 <= j <= stopY
                               then Shown(colors, GlyphPixel(font, c, x0, y0, x, j), old(display.pixels[i, j]))
                               else old(display.pixels[i, j]))
  {
    hide Decoding;
    hide GlyphPixel;
    hide Shown;
    hide Font.GlyphStart;
    hide Font.PixelFormat;
    d := d0;
    PlaceFacts(x0, y0, font.height, x, y0);
    hide Place;
    var y: u2 := y0;
    while y <= stopY
      invariant y0 <= y <= stopY + 1
      invariant Decoding(d, font.PixelFormat(), font.memory, font.GlyphStart(c), Place(x0, y0, font.height, x, y))
      invariant forall i, j :: OnScreen(i, j) ==>
        display.pixels[i, j] == (if i == x && y0 <= j < y
                                 then Shown(colors, GlyphPixel(font, c, x0, y0, x, j), old(display.pixels[i, j]))
                                 else old(display.pixels[i, j]))
    {
      d := DrawPixel(display, font, colors, d, x0, y0, x, y, c);
      y := Wrap16(y + 1);
    }
  }

  /** The drawing part of lcdDrawChar: every pixel of character c that is on the screen gets the color that the font
      data has for it, column by column, unless that color is transparent. */
  method DrawGlyph(display: Display, font: Font, colors: seq<nat>, c: nat, x0: u2, cursorY: u2, charwidth: nat)
    requires display.Valid() && font.Ok() && font.first <= c <= font.last && |colors| == 16
    requires charwidth > 0 && x0 + charwidth <= 0xFFFF && cursorY + font.height <= 0xFFFF
    modifies display`calls, display.pixels
    ensures forall i, j :: OnScreen(i, j) && x0 <= i < x0 + charwidth && cursorY <= j < cursorY + font.height ==>
      var shown := colors[GlyphPixel(font, c, x0, cursorY, i, j)];
      display.pixels[i, j] == if shown == 0x2000 then old(display.pixels[i, j]) else shown
    ensures forall i, j :: OnScreen(i, j) && !(x0 <= i < x0 + charwidth && cursorY <= j < cursorY + font.height) ==>
      display.pixels[i, j] == old(display.pixels[i, j])
  {
    hide Decoding;
    hide GlyphPixel;
    var b := LocateGlyph(font, c);
    StartDecoding(b, font.PixelFormat(), font.memory, font.GlyphStart(c));
    var d := Decoder(b, 0, 0);
    PlaceFacts(x0, cursorY, font.height, x0, cursorY);
    hide Place;
    var stopY: u2 := cursorY + font.height - 1;
    var stopX: u2 := x0 + charwidth - 1;
    if stopX > SCREEN_WIDTH - 1 {
      stopX := SCREEN_WIDTH - 1;
    }
    var x: u2 := x0;
    while x <= stopX
      invariant x0 <= x && (x <= stopX + 1 || x == x0)
      invariant Decoding(d, font.PixelFormat(), font.memory, font.GlyphStart(c),
                         Place(x0, cursorY, font.height, x, cursorY))
      invariant forall i, j :: OnScreen(i, j) ==>
        display.pixels[i, j] == (if x0 <= i < x && cursorY <= j <= stopY
                                 then Shown(colors, GlyphPixel(font, c, x0, cursorY, i, j), old(display.pixels[i, j]))
                                 else old(display.pixels[i, j]))
    {
      d := DrawColumn(display, font, colors, d, x0, cursorY, x, stopY, c);
      x := Wrap16(x + 1);
    }
  }
}
