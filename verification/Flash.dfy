/** Programming flash memory: a copy and a pattern fill between any two addresses, whole pages at a time. */
module Flash {
  import opened FlashHardware
  import opened Words

  function DwordAt(mem: int -> byte, a: int): (d: Dword)
    ensures forall i :: 0 <= i < 8 ==> d[i] == mem(a + i)
  {
    seq(8, i => mem(a + i))
  }

  /** The page at p, and what it has to hold in the end. */
  ghost predicate OnPage(c: Chip, p: int) {
    && ChipOk(c) && PageStart(c, p) && Aligned(p)
    && (p == c.userPage || (c.flashBase <= p && p + c.pageSize <= c.flashEnd))
  }

  lemma StoreFills(before: seq<byte>, after: seq<byte>, d: Dword, want: int -> byte, p: int, a: int)
    requires |before| == |after| && Filled(before, want, p, a)
    requires forall k :: 0 <= k < |after| ==>
      after[k] == if 0 <= k - (a - p) < 8 then Cleared(before[k], d[k - (a - p)]) else before[k]
    requires forall i :: 0 <= i < 8 ==> d[i] == want(a + i)
    ensures Filled(after, want, p, a + 8)
  {
    forall k | 0 <= k < |after| ensures after[k] == if p + k < a + 8 then want(p + k) else 0xFF {
      if 0 <= k - (a - p) < 8 {
        ClearedFacts(d[k - (a - p)]);
        assert d[k - (a - p)] == want(a + (k - (a - p)));
      }
    }
  }

  lemma ClearedIsFilled(buffer: seq<byte>, want: int -> byte, p: int)
    requires forall k :: 0 <= k < |buffer| ==> buffer[k] == 0xFF
    ensures Filled(buffer, want, p, p)
  {
  }

  /** The next double-word of the page. */
  method PutDword(f: FlashController, a: int, d: Dword, ghost p: int, ghost want: int -> byte)
    requires f.Valid() && OnPage(f.chip, p) && p <= a && a + 8 <= p + f.chip.pageSize && Aligned(a)
    requires Filled(f.pageBuffer, want, p, a) && forall i :: 0 <= i < 8 ==> d[i] == want(a + i)
    modifies f`pageBuffer, f`pagen
    ensures f.Valid() && f.pagen == p && Filled(f.pageBuffer, want, p, a + 8)
  {
    PageOfInside(f.chip, p, a);
    hide PageOf;
    ghost var before := f.pageBuffer;
    f.StoreDword(a, d);
    StoreFills(before, f.pageBuffer, d, want, p, a);
  }

  /** What is in front of the destination stays as it is. */
  method KeepStart(f: FlashController, dest: int, ghost p: int, ghost want: int -> byte) returns (tmp: int)
    requires f.Valid() && OnPage(f.chip, p) && p == PageOf(f.chip, dest) && p <= dest < p + f.chip.pageSize
    requires Filled(f.pageBuffer, want, p, p)
    requires forall a :: p <= a < dest ==> want(a) == f.mem(a)
    modifies f`pageBuffer, f`pagen
    ensures f.Valid() && tmp == Down8(dest) && Filled(f.pageBuffer, want, p, tmp) && (tmp > p ==> f.pagen == p)
  {
    hide PageOf;
    hide PageStart;
    hide Filled;
    DownFacts(p, dest);
    hide Aligned;
    hide Down8;
    tmp := PageOf(f.chip, dest);
    while tmp < Down8(dest)
      invariant p <= tmp <= Down8(dest) && Aligned(tmp)
      invariant f.Valid() && Filled(f.pageBuffer, want, p, tmp) && (tmp > p ==> f.pagen == p)
    {
      DwordBelow(tmp, dest);
      PutDword(f, tmp, DwordAt(f.mem, tmp), p, want);
      tmp := tmp + 8;
    }
  }

  /** What is behind the end of the destination stays as it is, up to the end of the page. */
  method KeepRest(f: FlashController, start: int, ghost p: int, ghost want: int -> byte)
    requires f.Valid() && OnPage(f.chip, p) && p < start <= p + f.chip.pageSize && Aligned(start)
    requires Filled(f.pageBuffer, want, p, start)
    requires forall a :: start <= a < p + f.chip.pageSize ==> want(a) == f.mem(a)
    requires f.pagen == p
    modifies f`pageBuffer, f`pagen
    ensures f.Valid() && f.pagen == p && Filled(f.pageBuffer, want, p, p + f.chip.pageSize)
  {
    hide Filled;
    hide PageStart;
    hide Aligned;
    NextPage(f.chip, p);
    var tmp := start;
    while !PageStart(f.chip, tmp)
      invariant p < tmp <= p + f.chip.pageSize && Aligned(tmp)
      invariant f.Valid() && f.pagen == p && Filled(f.pageBuffer, want, p, tmp)
      decreases p + f.chip.pageSize - tmp
    {
      RoomForDword(tmp, p, f.chip.pageSize);
      PutDword(f, tmp, DwordAt(f.mem, tmp), p, want);
      tmp := tmp + 8;
    }
    if tmp < p + f.chip.pageSize {
      PagesApart(f.chip, p, tmp);
    }
  }

  /** The bytes behind the destination fill the double-word in which it ends. */
  method FillDword(f: FlashController, start: int, destEnd: int, pending: Dword, ghost p: int, ghost want: int -> byte)
    returns (dword: Dword)
    requires destEnd % 8 == destEnd - start && p <= start < destEnd && start + 8 <= p + f.chip.pageSize
    requires forall i :: 0 <= i < destEnd - start ==> pending[i] == want(start + i)
    requires forall a {:trigger want(a)} :: destEnd <= a < p + f.chip.pageSize ==> want(a) == f.mem(a)
    ensures forall j :: 0 <= j < 8 ==> dword[j] == want(start + j)
  {
    dword := pending;
    var tmp, i := destEnd, destEnd % 8;
    while i < 8
      invariant destEnd - start <= i <= 8 && tmp == start + i
      invariant forall j :: 0 <= j < i ==> dword[j] == want(start + j)
    {
      dword := dword[i := f.mem(tmp)];
      tmp := tmp + 1;
      i := i + 1;
    }
  }

  lemma EndsInside(p: int, n: int, start: int, destEnd: int)
    requires Aligned(p) && Aligned(n) && p <= start == Down8(destEnd) && destEnd < p + n
    ensures Aligned(start) && (Aligned(destEnd) ==> start == destEnd == Up8(destEnd))
    ensures !Aligned(destEnd) ==>
      destEnd % 8 == destEnd - start > 0 && start + 8 == Up8(destEnd) <= p + n && Aligned(start + 8)
  {
    RoomForDword(start, p, n);
  }

  /** The last page: the rest of the double-word in which the destination ends, and the rest of the page. */
  method FinishPage(f: FlashController, start: int, destEnd: int, pending: Dword, ghost p: int, ghost want: int -> byte)
    returns (dest: int)
    requires f.Valid() && OnPage(f.chip, p) && p <= start == Down8(destEnd) && p < destEnd < p + f.chip.pageSize
    requires Filled(f.pageBuffer, want, p, start) && (start > p ==> f.pagen == p)
    requires forall i :: 0 <= i < destEnd - start ==> pending[i] == want(start + i)
    requires forall a {:trigger want(a)} :: destEnd <= a < p + f.chip.pageSize ==> want(a) == f.mem(a)
    modifies f`pageBuffer, f`pagen
    ensures f.Valid() && f.pagen == p && Filled(f.pageBuffer, want, p, p + f.chip.pageSize) && dest == Up8(destEnd)
  {
    hide Filled;
    hide PageStart;
    hide Aligned;
    hide Down8;
    hide Up8;
    EndsInside(p, f.chip.pageSize, start, destEnd);
    dest := start;
    if !Aligned(destEnd) {
      var dword := FillDword(f, start, destEnd, pending, p, want);
      PutDword(f, dest, dword, p, want);
      dest := dest + 8;
    }
    KeepRest(f, dest, p, want);
  }

  /** What a byte of flash holds after `now` has been written over `was`: without an erase, bits are only cleared. */
  function Written(erase: bool, was: byte, now: byte): byte {
    if erase then now else Cleared(was, now)
  }

  lemma WrittenSame(erase: bool, was: byte)
    ensures Written(erase, was, was) == was
  {
    ClearedFacts(was);
  }

  lemma ProgrammedByte(was: byte, now: byte)
    ensures Cleared(0xFF, now) == now && Cleared(was, 0xFF) == was
  {
    ClearedFacts(was);
    ClearedFacts(now);
  }

  /** The page at p has changed from `was` to `now`, and nothing else has. */
  ghost predicate Programmed(erase: bool, want: int -> byte, was: int -> byte, now: int -> byte, p: int, n: int) {
    forall a {:trigger now(a)} ::
      now(a) == if p <= a < p + n then if erase then want(a) else Cleared(was(a), want(a)) else was(a)
  }

  /** Writing the buffer into the page, which may have been erased before. */
  lemma PageProgrammed(erase: bool, buffer: seq<byte>, want: int -> byte, was: int -> byte, now: int -> byte, p: int,
                       n: int)
    requires |buffer| == n && Filled(buffer, want, p, p + n)
    requires forall a {:trigger now(a)} ::
      now(a) ==
        Cleared(if erase && 0 <= a - p < n then 0xFF else was(a), if 0 <= a - p < n then buffer[a - p] else 0xFF)
    ensures Programmed(erase, want, was, now, p, n)
  {
    hide Cleared;
    forall a
      ensures now(a) == if p <= a < p + n then if erase then want(a) else Cleared(was(a), want(a)) else was(a)
    {
      ProgrammedByte(was(a), if p <= a < p + n then want(a) else 0xFF);
      if p <= a < p + n {
        assert buffer[a - p] == want(p + (a - p));
      }
    }
  }

  /** The buffered page goes to the flash array or to the user page: it then holds what the buffer was filled with, or
      what it held, without the bits that the buffer does not have. */
  method ProgramPage(f: FlashController, dest: int, erase: bool, ghost p: int, ghost want: int -> byte)
    requires f.Valid() && OnPage(f.chip, p) && f.pagen == p && Filled(f.pageBuffer, want, p, p + f.chip.pageSize)
    requires p < dest <= p + f.chip.pageSize
    modifies f`mem
    ensures Programmed(erase, want, old(f.mem), f.mem, p, f.chip.pageSize)
  {
    hide PageStart;
    hide Cleared;
    hide Filled;
    hide Programmed;
    ghost var was := f.mem;
    if dest <= f.chip.userPage {
      if erase {
        f.ErasePage();
      }
      f.WritePage();
    } else {
      if erase {
        f.EraseUserPage();
      }
      f.WriteUserPage();
    }
    PageProgrammed(erase, f.pageBuffer, want, was, f.mem, p, f.chip.pageSize);
  }

  // Copying

  /** What is wanted of the page at p when the bytes from `source` on are to be copied to [dest, destEnd). */
  ghost predicate CopyWanted(want: int -> byte, mem: int -> byte, source: int, p: int, n: int, dest: int,
                             destEnd: int) {
    forall a {:trigger want(a)} :: p <= a < p + n ==>
      want(a) == if dest <= a < destEnd then mem(source + (a - dest)) else mem(a)
  }

  lemma CopyWantedParts(want: int -> byte, mem: int -> byte, source: int, p: int, n: int, dest: int, destEnd: int)
    requires CopyWanted(want, mem, source, p, n, dest, destEnd) && p <= dest < destEnd
    ensures forall a {:trigger want(a)} :: p <= a < dest && a < p + n ==> want(a) == mem(a)
    ensures forall a {:trigger want(a)} :: dest <= a < destEnd && a < p + n ==> want(a) == mem(source + (a - dest))
    ensures forall a {:trigger want(a)} :: destEnd <= a < p + n ==> want(a) == mem(a)
  {
  }

  /** A double-word out of four half-words, read from an address that is even. */
  method GatherHalfwords(f: FlashController, source0: int) returns (dword: Dword, source: int)
    ensures dword == DwordAt(f.mem, source0) && source == source0 + 8
  {
    dword := [0, 0, 0, 0, 0, 0, 0, 0];
    source := source0;
    var j := 0;
    while j < 4
      invariant 0 <= j <= 4 && source == source0 + 2 * j
      invariant forall i :: 0 <= i < 2 * j ==> dword[i] == f.mem(source0 + i)
    {
      dword := dword[2 * j := f.mem(source)][2 * j + 1 := f.mem(source + 1)];
      source := source + 2;
      j := j + 1;
    }
  }

  method GatherBytes(f: FlashController, source0: int) returns (dword: Dword, source: int)
    ensures dword == DwordAt(f.mem, source0) && source == source0 + 8
  {
    dword := [0, 0, 0, 0, 0, 0, 0, 0];
    source := source0;
    var j := 0;
    while j < 8
      invariant 0 <= j <= 8 && source == source0 + j
      invariant forall i :: 0 <= i < j ==> dword[i] == f.mem(source0 + i)
    {
      dword := dword[j := f.mem(source)];
      source := source + 1;
      j := j + 1;
    }
  }

  /** The double-word in which the destination starts: flash data, then source data. */
  method HeadDword(f: FlashController, dest: int, source0: int) returns (dword: Dword, source: int)
    ensures source == source0 + (8 - dest % 8)
    ensures forall j :: 0 <= j < 8 ==>
      dword[j] == if j < dest % 8 then f.mem(Down8(dest) + j) else f.mem(source0 + (j - dest % 8))
  {
    dword := [0, 0, 0, 0, 0, 0, 0, 0];
    source := source0;
    var tmp, i := Down8(dest), 0;
    while i < dest % 8
      invariant 0 <= i <= dest % 8 && tmp == Down8(dest) + i
      invariant forall j :: 0 <= j < i ==> dword[j] == f.mem(Down8(dest) + j)
    {
      dword := dword[i := f.mem(tmp)];
      tmp := tmp + 1;
      i := i + 1;
    }
    while i < 8
      invariant dest % 8 <= i <= 8 && source == source0 + (i - dest % 8)
      invariant forall j :: 0 <= j < i ==>
        dword[j] == if j < dest % 8 then f.mem(Down8(dest) + j) else f.mem(source0 + (j - dest % 8))
    {
      dword := dword[i := f.mem(source)];
      source := source + 1;
      i := i + 1;
    }
  }

  lemma HeadWanted(want: int -> byte, mem: int -> byte, source: int, p: int, n: int, dest: int, destEnd: int,
                   dword: Dword)
    requires CopyWanted(want, mem, source, p, n, dest, destEnd) && p <= Down8(dest) && Down8(dest) + 8 <= p + n
    requires dest < destEnd
    requires forall j :: 0 <= j < 8 ==>
      dword[j] == if j < dest % 8 then mem(Down8(dest) + j) else mem(source + (j - dest % 8))
    ensures forall i :: 0 <= i < 8 && Down8(dest) + i < destEnd ==> dword[i] == want(Down8(dest) + i)
  {
    forall i | 0 <= i < 8 && Down8(dest) + i < destEnd ensures dword[i] == want(Down8(dest) + i) {
      var a := Down8(dest) + i;
      assert i >= dest % 8 ==> source + (a - dest) == source + (i - dest % 8);
      assert want(a) == if dest <= a < destEnd then mem(source + (a - dest)) else mem(a);
    }
  }

  /** The double-word in which the destination starts goes to the buffer, unless the destination ends in it too. */
  method HeadIntoBuffer(f: FlashController, dest0: int, source0: int, destEnd: int, ghost p: int,
                        ghost want: int -> byte)
    returns (dest: int, source: int, dword: Dword, pending: bool)
    requires f.Valid() && OnPage(f.chip, p) && Aligned(Down8(dest0)) && p <= Down8(dest0) <= Down8(destEnd)
    requires dest0 < destEnd
    requires Down8(dest0) + 8 <= p + f.chip.pageSize
    requires (Down8(dest0) < Down8(destEnd) ==> Down8(dest0) + 8 <= Down8(destEnd))
    requires Filled(f.pageBuffer, want, p, Down8(dest0)) && (Down8(dest0) > p ==> f.pagen == p)
    requires CopyWanted(want, f.mem, source0, p, f.chip.pageSize, dest0, destEnd)
    modifies f`pageBuffer, f`pagen
    ensures f.Valid() && Filled(f.pageBuffer, want, p, dest) && (dest > p ==> f.pagen == p)
    ensures dest == (if pending then Down8(dest0) else Down8(dest0) + 8) && dest <= Down8(destEnd)
    ensures pending ==> dest == Down8(destEnd) && forall i :: 0 <= i < destEnd - dest ==> dword[i] == want(dest + i)
    ensures !pending ==> source == source0 + (dest - dest0)
  {
    hide CopyWanted;
    hide OnPage;
    hide Filled;
    hide Aligned;
    hide FlashController.Valid;
    dword, source := HeadDword(f, dest0, source0);
    dest, pending := Down8(dest0), false;
    HeadWanted(want, f.mem, source0, p, f.chip.pageSize, dest0, destEnd, dword);
    if dest < Down8(destEnd) {
      PutDword(f, dest, dword, p, want);
      dest := dest + 8;
    } else {
      pending := true;
    }
  }

  /** The first page: what is in front of the destination, and the double-word in which it starts.  If the destination
      ends in that double-word too, it is kept for the end of the page. */
  method CopyHead(f: FlashController, dest0: int, source0: int, destEnd: int, ghost p: int, ghost want: int -> byte)
    returns (dest: int, source: int, dword: Dword, pending: bool)
    requires f.Valid() && OnPage(f.chip, p) && p <= dest0 < p + f.chip.pageSize && dest0 < destEnd
    requires Filled(f.pageBuffer, want, p, p)
    requires CopyWanted(want, f.mem, source0, p, f.chip.pageSize, dest0, destEnd)
    modifies f`pageBuffer, f`pagen
    ensures f.Valid() && Filled(f.pageBuffer, want, p, dest) && (dest > p ==> f.pagen == p)
    ensures dest == (if pending then Down8(dest0) else Up8(dest0)) && p <= dest <= Down8(destEnd)
    ensures dest <= p + f.chip.pageSize
    ensures pending ==> dest == Down8(destEnd) && forall i :: 0 <= i < destEnd - dest ==> dword[i] == want(dest + i)
    ensures !pending ==> source == source0 + (dest - dest0)
  {
    hide CopyWanted;
    hide PageOf;
    hide PageStart;
    hide Filled;
    hide Down8;
    hide Up8;
    hide Aligned;
    hide FlashController.Valid;
    dest, source, pending := dest0, source0, false;
    dword := [0, 0, 0, 0, 0, 0, 0, 0];
    CopyWantedParts(want, f.mem, source0, p, f.chip.pageSize, dest0, destEnd);
    PageOfInside(f.chip, p, dest0);
    PageFacts(f.chip, dest0);
    RoundFacts(p, dest0, destEnd);
    if !PageStart(f.chip, dest0) {
      var tmp := KeepStart(f, dest0, p, want);
      if !Aligned(dest0) {
        RoomForDword(Down8(dest0), p, f.chip.pageSize);
        dest, source, dword, pending := HeadIntoBuffer(f, dest0, source0, destEnd, p, want);
      }
    } else {
      PageStartIsAligned(f.chip, dest0);
    }
  }

  /** Whole double-words, read from the source with the widest access that its alignment allows. */
  method CopyDwords(f: FlashController, dest0: int, source0: int, stop: int, ghost p: int, ghost want: int -> byte)
    returns (dest: int, source: int)
    requires f.Valid() && OnPage(f.chip, p) && p <= dest0 <= stop <= p + f.chip.pageSize && Aligned(dest0)
    requires Aligned(stop)
    requires Filled(f.pageBuffer, want, p, dest0) && (dest0 > p ==> f.pagen == p)
    requires forall a {:trigger want(a)} :: dest0 <= a < stop ==> want(a) == f.mem(source0 + (a - dest0))
    modifies f`pageBuffer, f`pagen
    ensures f.Valid() && Filled(f.pageBuffer, want, p, stop) && (stop > p ==> f.pagen == p)
    ensures dest == stop && source == source0 + (stop - dest0)
  {
    hide PageStart;
    hide Filled;
    dest, source := dest0, source0;
    var i := (stop - dest) / 8;
    while i > 0
      invariant i >= 0 && dest + 8 * i == stop && source == source0 + (dest - dest0) && p <= dest && Aligned(dest)
      invariant f.Valid() && Filled(f.pageBuffer, want, p, dest) && (dest > p ==> f.pagen == p)
    {
      var dword: Dword;
      if source0 % 4 == 0 {
        dword, source := DwordAt(f.mem, source), source + 8;
      } else if source0 % 4 == 2 {
        dword, source := GatherHalfwords(f, source);
      } else {
        dword, source := GatherBytes(f, source);
      }
      PutDword(f, dest, dword, p, want);
      dest := dest + 8;
      i := i - 1;
    }
  }

  /** The beginning of the double-word in which the destination ends. */
  method CopyLast(f: FlashController, start: int, source0: int, destEnd: int) returns (dword: Dword, source: int)
    requires start == Down8(destEnd)
    ensures source == source0 + (destEnd - start)
    ensures forall i :: 0 <= i < destEnd - start ==> dword[i] == f.mem(source0 + i)
  {
    dword := [0, 0, 0, 0, 0, 0, 0, 0];
    source := source0;
    var i := 0;
    while i < destEnd % 8
      invariant 0 <= i <= destEnd % 8 && source == source0 + i
      invariant forall j :: 0 <= j < i ==> dword[j] == f.mem(source0 + j)
    {
      dword := dword[i := f.mem(source)];
      source := source + 1;
      i := i + 1;
    }
  }

  /** Where filling the page at p ends: behind the last double-word that has data. */
  function PageDone(p: int, n: int, destEnd: int): int {
    if destEnd < p + n then Up8(destEnd) else p + n
  }

  /** One page of the copy, up to the commands that program it. */
  method CopyPage(f: FlashController, dest0: int, source0: int, destEnd: int, ghost p: int, ghost want: int -> byte)
    returns (dest: int, source: int)
    requires f.Valid() && OnPage(f.chip, p) && p <= dest0 < p + f.chip.pageSize && dest0 < destEnd
    requires CopyWanted(want, f.mem, source0, p, f.chip.pageSize, dest0, destEnd)
    modifies f`pageBuffer, f`pagen
    ensures f.Valid() && f.pagen == p && Filled(f.pageBuffer, want, p, p + f.chip.pageSize)
    ensures dest == PageDone(p, f.chip.pageSize, destEnd)
    ensures destEnd >= p + f.chip.pageSize ==> source == source0 + (dest - dest0)
  {
    hide PageOf;
    hide PageStart;
    hide Down8;
    hide Up8;
    hide Aligned;
    hide Filled;
    hide CopyWanted;
    hide FlashController.Valid;
    PageOfInside(f.chip, p, dest0);
    RoundFacts(p, dest0, destEnd);
    RoomForDword(Down8(destEnd), p, f.chip.pageSize);
    CopyWantedParts(want, f.mem, source0, p, f.chip.pageSize, dest0, destEnd);
    f.ClearPageBuffer();
    ClearedIsFilled(f.pageBuffer, want, p);
    var dword: Dword, pending: bool;
    dest, source, dword, pending := CopyHead(f, dest0, source0, destEnd, p, want);
    var pageEnd := PageOf(f.chip, dest0) + f.chip.pageSize;
    if !pending {
      var stop := if Down8(destEnd) < pageEnd then Down8(destEnd) else pageEnd;
      dest, source := CopyDwords(f, dest, source, stop, p, want);
    }
    if destEnd < pageEnd {
      if !pending {
        dword, source := CopyLast(f, dest, source, destEnd);
      }
      dest := FinishPage(f, dest, destEnd, dword, p, want);
    }
  }

  // Clipping to flash, and going from page to page

  function ClipStart(c: Chip, dst: int): int {
    if dst < c.flashBase then c.flashBase
    else if c.flashEnd <= dst < c.userPage then c.userPage
    else dst
  }

  function ClipEnd(c: Chip, end: int): int {
    if end > c.userPage + c.pageSize then c.userPage + c.pageSize
    else if c.userPage >= end > c.flashEnd then c.flashEnd
    else end
  }

  /** The bytes that are to change. */
  predicate InRange(c: Chip, dst: int, n: int, a: int) {
    dst <= a < dst + n && InFlash(c, a)
  }

  lemma ClipIsExact(c: Chip, dst: int, n: nat)
    requires ChipOk(c)
    ensures forall a :: InRange(c, dst, n, a) <==> InFlash(c, a) && ClipStart(c, dst) <= a < ClipEnd(c, dst + n)
    ensures ClipStart(c, dst) < ClipEnd(c, dst + n) ==> InFlash(c, ClipStart(c, dst))
  {
    hide PageStart;
  }

  /** All bytes of the range below dest have been written, and nothing else has changed. */
  ghost predicate Done(c: Chip, dst: int, n: int, erase: bool, data: int -> byte, mem0: int -> byte, mem: int -> byte,
                       dest: int) {
    forall a {:trigger mem(a)} ::
      mem(a) == if InRange(c, dst, n, a) && a < dest then Written(erase, mem0(a), data(a)) else mem0(a)
  }

  ghost function Want(data: int -> byte, mem: int -> byte, dest: int, destEnd: int): int -> byte {
    a => if dest <= a < destEnd then data(a) else mem(a)
  }

  /** The user page comes next when the flash array has been passed. */
  function NextDest(c: Chip, d: int): int {
    if c.flashEnd <= d <= c.userPage then c.userPage else d
  }

  lemma PageStep(c: Chip, dst: int, n: nat, erase: bool, data: int -> byte, mem0: int -> byte, mem1: int -> byte,
                 mem2: int -> byte,
                 dest: int, destEnd: int, p: int)
    requires OnPage(c, p) && destEnd == ClipEnd(c, dst + n) && ClipStart(c, dst) <= dest < destEnd
    requires p <= dest < p + c.pageSize && Done(c, dst, n, erase, data, mem0, mem1, dest)
    requires Programmed(erase, Want(data, mem1, dest, destEnd), mem1, mem2, p, c.pageSize)
    ensures Done(c, dst, n, erase, data, mem0, mem2, NextDest(c, PageDone(p, c.pageSize, destEnd)))
  {
    ClipIsExact(c, dst, n);
    hide Cleared;
    hide PageStart;
    var dest2 := NextDest(c, PageDone(p, c.pageSize, destEnd));
    forall a
      ensures mem2(a) == if InRange(c, dst, n, a) && a < dest2 then Written(erase, mem0(a), data(a)) else mem0(a)
    {
      assert mem1(a) == if InRange(c, dst, n, a) && a < dest then Written(erase, mem0(a), data(a)) else mem0(a);
      WrittenSame(erase, mem1(a));
    }
  }

  lemma UpInPage(p: int, n: int, a: int)
    requires Aligned(p) && Aligned(n) && p < a < p + n
    ensures a <= Up8(a) <= p + n
  {
    DownFacts(p, a);
    hide Down8;
    RoomForDword(Down8(a), p, n);
  }

  lemma NextIsInFlash(c: Chip, dst: int, n: nat, dest: int, destEnd: int, p: int)
    requires OnPage(c, p) && destEnd == ClipEnd(c, dst + n) && p <= dest < destEnd && dest < p + c.pageSize
    ensures p < PageDone(p, c.pageSize, destEnd) <= p + c.pageSize
    ensures var next := NextDest(c, PageDone(p, c.pageSize, destEnd));
      dest < next && (next < destEnd ==> InFlash(c, next) && destEnd >= p + c.pageSize)
  {
    hide PageStart;
    hide Up8;
    hide Aligned;
    if destEnd < p + c.pageSize {
      UpInPage(p, c.pageSize, destEnd);
    }
  }

  /** What is copied is read from bytes that have not changed. */
  lemma SourceUnchanged(c: Chip, dst: int, src: int, n: nat, erase: bool, data: int -> byte, mem0: int -> byte,
                        mem: int -> byte,
                        dest: int, destEnd: int, p: int)
    requires ChipOk(c) && destEnd == ClipEnd(c, dst + n) && ClipStart(c, dst) <= dest < destEnd
    requires forall b :: p <= b < p + c.pageSize ==> InFlash(c, b)
    requires src + n <= dst || dst + n <= src
    requires forall a {:trigger data(a)} :: data(a) == mem0(src + (a - dst))
    requires Done(c, dst, n, erase, data, mem0, mem, dest)
    ensures CopyWanted(Want(data, mem, dest, destEnd), mem, src + (dest - dst), p, c.pageSize, dest, destEnd)
  {
    ClipIsExact(c, dst, n);
    hide Written;
    hide PageStart;
    var want := Want(data, mem, dest, destEnd);
    forall a {:trigger want(a)} | p <= a < p + c.pageSize
      ensures want(a) == if dest <= a < destEnd then mem(src + (dest - dst) + (a - dest)) else mem(a)
    {
      if dest <= a < destEnd {
        assert InRange(c, dst, n, a);
        var s := src + (a - dst);
        assert s == src + (dest - dst) + (a - dest);
        assert mem(s) == mem0(s);
      }
    }
  }

  lemma PageReady(c: Chip, dest: int)
    requires ChipOk(c) && InFlash(c, dest)
    ensures var p := PageOf(c, dest); OnPage(c, p) && p <= dest < p + c.pageSize
    ensures forall b :: PageOf(c, dest) <= b < PageOf(c, dest) + c.pageSize ==> InFlash(c, b)
  {
    hide PageOf;
    hide PageStart;
    PageFacts(c, dest);
    PageStartIsAligned(c, PageOf(c, dest));
    PageInFlash(c, dest);
  }

  lemma NothingDone(c: Chip, dst: int, n: nat, erase: bool, data: int -> byte, mem0: int -> byte)
    requires ChipOk(c)
    ensures Done(c, dst, n, erase, data, mem0, mem0, ClipStart(c, dst))
  {
    ClipIsExact(c, dst, n);
    hide Written;
    hide PageStart;
  }

  lemma AllDone(c: Chip, dst: int, n: nat, erase: bool, data: int -> byte, mem0: int -> byte, mem: int -> byte,
                dest: int)
    requires ChipOk(c) && dest >= ClipEnd(c, dst + n) && Done(c, dst, n, erase, data, mem0, mem, dest)
    ensures Flashed(c, dst, n, erase, data, mem0, mem)
  {
    ClipIsExact(c, dst, n);
    hide PageStart;
  }

  /** The bytes of the range that lie in the flash array or the user page are those of `data`, or have lost the bits
      that `data` does not have; nothing else has changed. */
  ghost predicate Flashed(c: Chip, dst: int, n: int, erase: bool, data: int -> byte, mem0: int -> byte,
                          mem: int -> byte) {
    forall a {:trigger mem(a)} ::
      mem(a) ==
        if dst <= a < dst + n && (c.flashBase <= a < c.flashEnd || c.userPage <= a < c.userPage + c.pageSize)
        then if erase then data(a) else mem0(a) & data(a)
        else mem0(a)
  }

  /** What the main loops keep: dest is the next byte of flash to be written, unless the end has been reached. */
  ghost predicate Moving(c: Chip, dst: int, n: int, erase: bool, data: int -> byte, mem0: int -> byte, mem: int -> byte,
                         dest: int) {
    && ChipOk(c) && ClipStart(c, dst) <= dest && Done(c, dst, n, erase, data, mem0, mem, dest)
    && (dest < ClipEnd(c, dst + n) ==> InFlash(c, dest))
  }

  /** One page of the copy: fill the buffer, program the page, and go to the user page at the end of the array. */
  method CopyNextPage(f: FlashController, dest0: int, source0: int, destEnd: int, erase: bool,
                      ghost dst: int, ghost src: int, ghost n: nat, ghost data: int -> byte, ghost mem0: int -> byte)
    returns (dest: int, source: int)
    requires f.Valid() && destEnd == ClipEnd(f.chip, dst + n) && dest0 < destEnd
    requires src + n <= dst || dst + n <= src
    requires forall a {:trigger data(a)} :: data(a) == mem0(src + (a - dst))
    requires Moving(f.chip, dst, n, erase, data, mem0, f.mem, dest0) && source0 == src + (dest0 - dst)
    modifies f
    ensures f.Valid() && dest0 < dest && Moving(f.chip, dst, n, erase, data, mem0, f.mem, dest)
    ensures dest < destEnd ==> source == src + (dest - dst)
  {
    hide Written;
    hide Filled;
    hide PageOf;
    hide PageStart;
    hide Aligned;
    hide PageDone;
    hide CopyWanted;
    hide Programmed;
    hide InRange;
    hide Done;
    hide Want;
    hide ClipEnd;
    hide ClipStart;
    ghost var mem1 := f.mem;
    ghost var p := PageOf(f.chip, dest0);
    ghost var want := Want(data, mem1, dest0, destEnd);
    PageReady(f.chip, dest0);
    SourceUnchanged(f.chip, dst, src, n, erase, data, mem0, mem1, dest0, destEnd, p);
    NextIsInFlash(f.chip, dst, n, dest0, destEnd, p);
    dest, source := CopyPage(f, dest0, source0, destEnd, p, want);
    ProgramPage(f, dest, erase, p, want);
    PageStep(f.chip, dst, n, erase, data, mem0, mem1, f.mem, dest0, destEnd, p);
    if f.chip.flashEnd <= dest <= f.chip.userPage {
      source := source + (f.chip.userPage - dest);
      dest := f.chip.userPage;
    }
  }

  /** flashc_memcpy: every byte of the range that lies in flash becomes the source byte (without an erase, its bits
      are cleared where the source has zeros), and no other byte of memory changes. */
  method Memcpy(f: FlashController, dst: nat, src: nat, nbytes: nat, erase: bool) returns (r: nat)
    requires f.Valid() && (src + nbytes <= dst || dst + nbytes <= src)
    modifies f
    ensures f.Valid() && r == dst
    ensures forall a {:trigger f.mem(a)} ::
      f.mem(a) ==
        if dst <= a < dst + nbytes
           && (f.chip.flashBase <= a < f.chip.flashEnd || f.chip.userPage <= a < f.chip.userPage + f.chip.pageSize)
        then if erase then old(f.mem)(src + (a - dst)) else old(f.mem)(a) & old(f.mem)(src + (a - dst))
        else old(f.mem)(a)
  {
    ghost var data := (a: int) => old(f.mem)(src + (a - dst));
    r := CopyRange(f, dst, src, nbytes, erase, data);
  }

  /** The loop of flashc_memcpy. */
  method CopyRange(f: FlashController, dst: nat, src: nat, nbytes: nat, erase: bool, ghost data: int -> byte)
    returns (r: nat)
    requires f.Valid() && (src + nbytes <= dst || dst + nbytes <= src)
    requires forall a {:trigger data(a)} :: data(a) == f.mem(src + (a - dst))
    modifies f
    ensures f.Valid() && r == dst && Flashed(f.chip, dst, nbytes, erase, data, old(f.mem), f.mem)
  {
    hide PageStart;
    hide Written;
    hide Done;
    hide ChipOk;
    hide Flashed;
    ghost var mem0 := f.mem;
    var dest, source := dst, src;
    if dest < f.chip.flashBase {
      source := source + (f.chip.flashBase - dest);
      dest := f.chip.flashBase;
    } else if f.chip.flashEnd <= dest < f.chip.userPage {
      source := source + (f.chip.userPage - dest);
      dest := f.chip.userPage;
    }
    var destEnd := ClipEnd(f.chip, dst + nbytes);
    ClipIsExact(f.chip, dst, nbytes);
    NothingDone(f.chip, dst, nbytes, erase, data, mem0);
    hide InRange;
    hide InFlash;
    while dest < destEnd
      invariant f.Valid() && Moving(f.chip, dst, nbytes, erase, data, mem0, f.mem, dest)
      invariant dest < destEnd ==> source == src + (dest - dst)
      decreases destEnd - dest
    {
      dest, source := CopyNextPage(f, dest, source, destEnd, erase, dst, src, nbytes, data, mem0);
    }
    AllDone(f.chip, dst, nbytes, erase, data, mem0, f.mem, dest);
    r := dst;
  }
}
