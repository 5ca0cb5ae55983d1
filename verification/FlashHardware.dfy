/** The flash memory of an AVR32 microcontroller as its driver sees it: one address space, a page buffer that stores
    into flash addresses go to, and commands that erase a page or write the buffer into it. */
module FlashHardware {
  import opened Arithmetic
  import opened Words

  type Dword = d: seq<byte> | |d| == 8 witness [0, 0, 0, 0, 0, 0, 0, 0]

  /** Where the flash array and the user page are.  All of them are made of whole pages. */
  datatype Chip = Chip(pageSize: nat, flashBase: nat, flashEnd: nat, userPage: nat)

  predicate PageStart(c: Chip, a: int)
    requires c.pageSize > 0
  {
    a % c.pageSize == 0
  }

  function PageOf(c: Chip, a: int): int
    requires c.pageSize > 0
  {
    a - a % c.pageSize
  }

  predicate ChipOk(c: Chip) {
    && c.pageSize > 0 && Aligned(c.pageSize) && c.flashBase < c.flashEnd <= c.userPage
    && PageStart(c, c.flashBase) && PageStart(c, c.flashEnd) && PageStart(c, c.userPage)
  }

  predicate InFlash(c: Chip, a: int) {
    c.flashBase <= a < c.flashEnd || c.userPage <= a < c.userPage + c.pageSize
  }

  predicate Aligned(a: int) {
    a % 8 == 0
  }

  function Down8(a: int): int {
    a - a % 8
  }

  function Up8(a: int): int {
    if Aligned(a) then a else Down8(a) + 8
  }

  lemma DownFacts(p: int, a: int)
    requires Aligned(p) && p <= a
    ensures p <= Down8(a) <= a < Down8(a) + 8 && Aligned(Down8(a)) && Aligned(Down8(a) + 8)
    ensures Aligned(a) ==> Down8(a) == a
  {
  }

  lemma DownOrder(a: int, b: int)
    requires a < b
    ensures Down8(a) <= Down8(b) && (Down8(a) < Down8(b) ==> Down8(a) + 8 <= Down8(b))
  {
  }

  lemma RoundFacts(p: int, a: int, b: int)
    requires Aligned(p) && p <= a < b
    ensures p <= Down8(a) <= Down8(b) && Down8(a) <= a < Down8(a) + 8 && Down8(b) <= b < Down8(b) + 8
    ensures Aligned(Down8(a)) && Aligned(Down8(b)) && (Aligned(a) ==> Down8(a) == a) && (Aligned(b) ==> Down8(b) == b)
    ensures Up8(a) == if Aligned(a) then a else Down8(a) + 8
    ensures Up8(b) == if Aligned(b) then b else Down8(b) + 8
    ensures Aligned(Down8(a) + 8) && (Down8(a) < Down8(b) ==> Down8(a) + 8 <= Down8(b))
  {
    hide Aligned;
    hide Down8;
    DownFacts(p, a);
    DownFacts(p, b);
    DownOrder(a, b);
  }

  lemma DwordBelow(tmp: int, a: int)
    requires Aligned(tmp) && tmp < Down8(a)
    ensures Aligned(tmp + 8) && tmp + 8 <= Down8(a)
  {
  }

  /** Memory cells and page buffer bits can be cleared by a store, not set. */
  function Cleared(cell: byte, stored: byte): byte {
    cell & stored
  }

  lemma ClearedFacts(x: byte)
    ensures Cleared(0xFF, x) == x && Cleared(x, 0xFF) == x && Cleared(x, x) == x
  {
  }

  lemma RoomForDword(a: int, p: int, n: int)
    requires Aligned(a) && Aligned(p) && Aligned(n)
    ensures Aligned(a + 8) && Aligned(p + n) && (a < p + n ==> a + 8 <= p + n)
  {
  }

  /** Pages that start at different places do not overlap. */
  lemma PagesApart(c: Chip, p: int, q: int)
    requires c.pageSize > 0 && PageStart(c, p) && PageStart(c, q) && p < q
    ensures p + c.pageSize <= q
  {
    Multiples(c.pageSize, p / c.pageSize, q / c.pageSize);
  }

  lemma NextPage(c: Chip, p: int)
    requires c.pageSize > 0 && PageStart(c, p)
    ensures PageStart(c, p + c.pageSize)
  {
    var i := p / c.pageSize;
    assert p == c.pageSize * i;
    assert p + c.pageSize == c.pageSize * (i + 1);
    QuotientUnique(c.pageSize * (i + 1), c.pageSize, i + 1, 0);
  }

  lemma MultipleOfEight(k: int, i: int)
    ensures (8 * k * i) % 8 == 0
  {
    assert 8 * k * i == 8 * (k * i);
  }

  lemma PageFacts(c: Chip, a: int)
    requires c.pageSize > 0 && Aligned(c.pageSize)
    ensures PageStart(c, PageOf(c, a)) && PageOf(c, a) <= a < PageOf(c, a) + c.pageSize
    ensures PageStart(c, a) <==> PageOf(c, a) == a
  {
    var q := a / c.pageSize;
    assert PageOf(c, a) == c.pageSize * q;
    QuotientUnique(c.pageSize * q, c.pageSize, q, 0);
  }

  lemma PageStartIsAligned(c: Chip, p: int)
    requires c.pageSize > 0 && Aligned(c.pageSize) && PageStart(c, p)
    ensures Aligned(p)
  {
    MultipleOfEight(c.pageSize / 8, p / c.pageSize);
    assert p == c.pageSize * (p / c.pageSize);
  }

  /** The page of an address is the only one that has it. */
  lemma PageOfInside(c: Chip, p: int, a: int)
    requires c.pageSize > 0 && Aligned(c.pageSize) && PageStart(c, p) && p <= a < p + c.pageSize
    ensures PageOf(c, a) == p
  {
    PageFacts(c, a);
    if PageOf(c, a) < p {
      PagesApart(c, PageOf(c, a), p);
    } else if p < PageOf(c, a) {
      PagesApart(c, p, PageOf(c, a));
    }
  }

  /** A page is wholly inside the flash array, or it is the user page. */
  lemma PageInFlash(c: Chip, a: int)
    requires ChipOk(c) && InFlash(c, a)
    ensures var p := PageOf(c, a); (c.flashBase <= p && p + c.pageSize <= c.flashEnd) <==> a < c.flashEnd
    ensures c.userPage <= a ==> PageOf(c, a) == c.userPage
    ensures forall b :: PageOf(c, a) <= b < PageOf(c, a) + c.pageSize ==> InFlash(c, b)
  {
    hide PageOf;
    hide PageStart;
    PageFacts(c, a);
    var p := PageOf(c, a);
    if a < c.flashEnd {
      PagesApart(c, p, c.flashEnd);
      if p < c.flashBase {
        PagesApart(c, p, c.flashBase);
      }
    } else {
      PageOfInside(c, c.userPage, a);
    }
  }

  /** The page buffer holds what is wanted of the page at p up to address pos, and ones from there on. */
  ghost predicate Filled(buffer: seq<byte>, want: int -> byte, p: int, pos: int) {
    forall k :: 0 <= k < |buffer| ==> buffer[k] == if p + k < pos then want(p + k) else 0xFF
  }

  class FlashController {
    const chip: Chip
    var mem: int -> byte
    var pageBuffer: seq<byte>
    var pagen: int

    ghost predicate Valid()
      reads this
    {
      ChipOk(chip) && |pageBuffer| == chip.pageSize
    }

    constructor (chip: Chip, mem: int -> byte)
      requires ChipOk(chip)
      ensures Valid() && this.chip == chip && this.mem == mem
    {
      this.chip := chip;
      this.mem := mem;
      pageBuffer := seq(chip.pageSize, _ => 0);
      pagen := 0;
    }

    method ClearPageBuffer()
      requires Valid()
      modifies this`pageBuffer
      ensures Valid() && forall k :: 0 <= k < |pageBuffer| ==> pageBuffer[k] == 0xFF
    {
      pageBuffer := seq(|pageBuffer|, _ => 0xFF);
    }

    /** A double-word store to a flash address: it can only clear bits of the page buffer, and it selects the page. */
    method StoreDword(a: int, d: Dword)
      requires Valid() && InFlash(chip, a) && Aligned(a)
      modifies this`pageBuffer, this`pagen
      ensures Valid() && pagen == PageOf(chip, a)
      ensures forall k :: 0 <= k < |pageBuffer| ==>
        pageBuffer[k] ==
          if 0 <= k - (a - pagen) < 8 then Cleared(old(pageBuffer)[k], d[k - (a - pagen)]) else old(pageBuffer)[k]
    {
      pagen := PageOf(chip, a);
      var was, o := pageBuffer, a - pagen;
      pageBuffer := seq(|was|, k requires 0 <= k < |was| =>
                          if 0 <= k - o < 8 then Cleared(was[k], d[k - o]) else was[k]);
    }

    method ErasePage()
      modifies this`mem
      ensures forall a :: mem(a) == if 0 <= a - pagen < chip.pageSize then 0xFF else old(mem)(a)
    {
      var was, p, n := mem, pagen, chip.pageSize;
      mem := a => if 0 <= a - p < n then 0xFF else was(a);
    }

    /** Writing can only clear bits of the page, too. */
    method WritePage()
      requires Valid()
      modifies this`mem
      ensures forall a ::
        mem(a) == Cleared(old(mem)(a), if 0 <= a - pagen < chip.pageSize then pageBuffer[a - pagen] else 0xFF)
    {
      var was, p, buffer := mem, pagen, pageBuffer;
      mem := a => Cleared(was(a), if 0 <= a - p < |buffer| then buffer[a - p] else 0xFF);
    }

    method EraseUserPage()
      modifies this`mem
      ensures forall a :: mem(a) == if 0 <= a - chip.userPage < chip.pageSize then 0xFF else old(mem)(a)
    {
      var was, p, n := mem, chip.userPage, chip.pageSize;
      mem := a => if 0 <= a - p < n then 0xFF else was(a);
    }

    method WriteUserPage()
      requires Valid()
      modifies this`mem
      ensures forall a ::
        mem(a) ==
          Cleared(old(mem)(a), if 0 <= a - chip.userPage < chip.pageSize then pageBuffer[a - chip.userPage] else 0xFF)
    {
      var was, p, buffer := mem, chip.userPage, pageBuffer;
      mem := a => Cleared(was(a), if 0 <= a - p < |buffer| then buffer[a - p] else 0xFF);
    }
  }
}
