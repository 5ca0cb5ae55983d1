/** Filling flash memory with a pattern of one to eight bytes. */
module FlashFill {
  import opened Arithmetic
  import opened FlashHardware
  import opened Flash
  import opened Words

  // Patterns

  function LowByte(x: nat): byte {
    (x % 256) as byte
  }

  /** Byte number k of x, counted from the least significant one. */
  function ByteOf(x: nat, k: nat): byte {
    if k == 0 then LowByte(x) else ByteOf(x / 256, k - 1)
  }

  function Pow256(k: nat): nat {
    if k == 0 then 1 else 256 * Pow256(k - 1)
  }

  /** The pattern, most significant byte first, over and over. */
  function PatternByte(src: nat, width: nat, offset: int): byte
    requires width > 0
  {
    ByteOf(src, width - 1 - offset % width)
  }

  lemma {:induction false} ByteOfZero(k: nat)
    ensures ByteOf(0, k) == 0
  {
    if k > 0 {
      ByteOfZero(k - 1);
    }
  }

  /** What is above the width of a number does not reach its bytes, and the other way round. */
  lemma {:induction false} BytesOfSum(low: nat, high: nat, width: nat, k: nat)
    requires low < Pow256(width)
    ensures ByteOf(low + high * Pow256(width), k) == if k < width then ByteOf(low, k) else ByteOf(high, k - width)
    decreases width
  {
    hide LowByte;
    var x := low + high * Pow256(width);
    if width > 0 {
      var rest := Pow256(width - 1);
      assert high * Pow256(width) == 256 * (high * rest);
      assert x == low + 256 * (high * rest);
      LowByteOfSum(low, high * rest);
      if k > 0 {
        BytesOfSum(low / 256, high, width - 1, k - 1);
      }
    }
  }

  lemma LowByteOfSum(low: nat, t: nat)
    ensures LowByte(low + 256 * t) == LowByte(low) && (low + 256 * t) / 256 == low / 256 + t
  {
    assert (low + 256 * t) % 256 == low % 256;
  }

  /** A pattern written twice in a row is the same pattern. */
  lemma DoubledPattern(src: nat, width: nat, offset: int)
    requires width > 0 && src < Pow256(width)
    ensures PatternByte(src + src * Pow256(width), 2 * width, offset) == PatternByte(src, width, offset)
  {
    hide ByteOf;
    BytesOfSum(src, src, width, 2 * width - 1 - offset % (2 * width));
    ModHalf(offset, width);
  }

  lemma ModHalf(x: int, w: nat)
    requires w > 0
    ensures x % w == if x % (2 * w) < w then x % (2 * w) else x % (2 * w) - w
  {
    var r, q := x % (2 * w), x / (2 * w);
    assert x == 2 * w * q + r;
    if r < w {
      QuotientUnique(x, w, 2 * q, r);
    } else {
      QuotientUnique(x, w, 2 * q + 1, r - w);
    }
  }

  lemma PatternWidths()
    ensures Pow256(1) == 0x100 && Pow256(2) == 0x1_0000 && Pow256(4) == 0x1_0000_0000
    ensures Pow256(8) == 0x1_0000_0000_0000_0000
  {
    assert Pow256(4) == 256 * (256 * Pow256(2)) && Pow256(6) == 256 * (256 * Pow256(4));
  }

  /** The number that digits to the base 256 spell, most significant one first. */
  function Number(digits: seq<nat>): nat {
    if digits == [] then 0 else 256 * Number(digits[..|digits| - 1]) + digits[|digits| - 1]
  }

  /** In memory the pattern spells its number, at the start of the range and again every `width` bytes. */
  lemma PatternSpells(src: nat, width: nat, times: nat) returns (digits: seq<nat>)
    requires width > 0 && src < Pow256(width)
    ensures |digits| == width && Number(digits) == src
    ensures forall i :: 0 <= i < width ==>
      digits[i] < 256 && PatternByte(src, width, width * times + i) == digits[i] as byte
  {
    digits := BytesSpell(src, width);
    hide ByteOf;
    hide Number;
    forall i | 0 <= i < width ensures PatternByte(src, width, width * times + i) == digits[i] as byte {
      QuotientUnique(width * times + i, width, times, i);
    }
  }

  lemma {:induction false} BytesSpell(src: nat, width: nat) returns (digits: seq<nat>)
    requires src < Pow256(width)
    ensures |digits| == width && Number(digits) == src
    ensures forall i :: 0 <= i < width ==> digits[i] < 256 && ByteOf(src, width - 1 - i) == digits[i] as byte
    decreases width
  {
    if width == 0 {
      digits := [];
    } else {
      var front := BytesSpell(src / 256, width - 1);
      digits := front + [src % 256];
      assert digits[..width - 1] == front;
    }
  }

  // One page

  /** The byte of a repeated double-word at address a. */
  function At(source: Dword, a: int): byte {
    source[a % 8]
  }

  /** What is wanted of the page at p when [dest, destEnd) is to hold the pattern. */
  ghost predicate FillWanted(want: int -> byte, mem: int -> byte, source: Dword, p: int, n: int, dest: int,
                             destEnd: int) {
    forall a {:trigger want(a)} :: p <= a < p + n ==> want(a) == if dest <= a < destEnd then At(source, a) else mem(a)
  }

  lemma FillWantedParts(want: int -> byte, mem: int -> byte, source: Dword, p: int, n: int, dest: int, destEnd: int)
    requires FillWanted(want, mem, source, p, n, dest, destEnd) && p <= dest < destEnd
    ensures forall a {:trigger want(a)} :: p <= a < dest && a < p + n ==> want(a) == mem(a)
    ensures forall a {:trigger want(a)} :: dest <= a < destEnd && a < p + n ==> want(a) == At(source, a)
    ensures forall a {:trigger want(a)} :: destEnd <= a < p + n ==> want(a) == mem(a)
  {
  }

  /** A double-word of the pattern is right wherever only the pattern is wanted. */
  lemma PatternWanted(want: int -> byte, mem: int -> byte, source: Dword, p: int, n: int, dest: int, destEnd: int,
                      d: int)
    requires FillWanted(want, mem, source, p, n, dest, destEnd) && p <= dest <= d && Aligned(d) && d + 8 <= p + n
    ensures forall i :: 0 <= i < 8 && d + i < destEnd ==> source[i] == want(d + i)
  {
    forall i | 0 <= i < 8 && d + i < destEnd ensures source[i] == want(d + i) {
      assert (d + i) % 8 == i;
    }
  }

  lemma PatternAt(source: Dword, d: int)
    requires Aligned(d)
    ensures Aligned(d + 8) && forall k :: 0 <= k < 8 ==> At(source, d + k) == source[k]
  {
    forall k | 0 <= k < 8 ensures At(source, d + k) == source[k] {
      assert (d + k) % 8 == k;
    }
  }

  lemma FillHeadWanted(want: int -> byte, mem: int -> byte, source: Dword, p: int, n: int, dest: int, destEnd: int,
                       dword: Dword)
    requires FillWanted(want, mem, source, p, n, dest, destEnd) && p <= Down8(dest) && Down8(dest) + 8 <= p + n
    requires dest < destEnd
    requires forall j :: 0 <= j < 8 ==> dword[j] == if j < dest % 8 then mem(Down8(dest) + j) else source[j]
    ensures forall i :: 0 <= i < 8 && Down8(dest) + i < destEnd ==> dword[i] == want(Down8(dest) + i)
  {
    forall i | 0 <= i < 8 && Down8(dest) + i < destEnd ensures dword[i] == want(Down8(dest) + i) {
      var a := Down8(dest) + i;
      assert a % 8 == i;
      assert want(a) == if dest <= a < destEnd then At(source, a) else mem(a);
    }
  }

  /** The double-word in which the destination starts: flash data, then pattern. */
  method FillHeadDword(f: FlashController, dest: int, source: Dword) returns (dword: Dword)
    ensures forall j :: 0 <= j < 8 ==> dword[j] == if j < dest % 8 then f.mem(Down8(dest) + j) else source[j]
  {
    dword := source;
    var tmp, i := Down8(dest), 0;
    while i < dest % 8
      invariant 0 <= i <= dest % 8 && tmp == Down8(dest) + i
      invariant forall j :: 0 <= j < 8 ==> dword[j] == if j < i then f.mem(Down8(dest) + j) else source[j]
    {
      dword := dword[i := f.mem(tmp)];
      tmp := tmp + 1;
      i := i + 1;
    }
  }

  /** The first page: what is in front of the destination, and the double-word in which it starts. */
  method FillHead(f: FlashController, dest0: int, source: Dword, destEnd: int, ghost p: int, ghost want: int -> byte)
    returns (dest: int, dword: Dword)
    requires f.Valid() && OnPage(f.chip, p) && p <= dest0 < p + f.chip.pageSize && dest0 < destEnd
    requires Filled(f.pageBuffer, want, p, p)
    requires FillWanted(want, f.mem, source, p, f.chip.pageSize, dest0, destEnd)
    modifies f`pageBuffer, f`pagen
    ensures f.Valid() && Filled(f.pageBuffer, want, p, dest) && (dest > p ==> f.pagen == p)
    ensures p <= dest <= Down8(destEnd) && dest <= p + f.chip.pageSize && Aligned(dest)
    ensures (dest0 <= dest && dword == source) ||
      (dest == Down8(destEnd) && forall i :: 0 <= i < destEnd - dest ==> dword[i] == want(dest + i))
  {
    hide FillWanted;
    hide PageOf;
    hide PageStart;
    hide Filled;
    hide Down8;
    hide Up8;
    hide Aligned;
    hide At;
    hide FlashController.Valid;
    FillWantedParts(want, f.mem, source, p, f.chip.pageSize, dest0, destEnd);
    dest, dword := dest0, source;
    PageOfInside(f.chip, p, dest0);
    PageFacts(f.chip, dest0);
    PageStartIsAligned(f.chip, p);
    RoundFacts(p, dest0, destEnd);
    if !PageStart(f.chip, dest0) {
      var tmp := KeepStart(f, dest0, p, want);
      if !Aligned(dest0) {
        dword := FillHeadDword(f, dest0, source);
        dest := Down8(dest0);
        RoomForDword(dest, p, f.chip.pageSize);
        FillHeadWanted(want, f.mem, source, p, f.chip.pageSize, dest0, destEnd, dword);
        if dest < Down8(destEnd) {
          PutDword(f, dest, dword, p, want);
          dest := dest + 8;
          dword := source;
        }
      }
    }
  }

  method FillDwords(f: FlashController, dest0: int, source: Dword, stop: int, ghost p: int, ghost want: int -> byte)
    returns (dest: int)
    requires f.Valid() && OnPage(f.chip, p) && p <= dest0 <= stop <= p + f.chip.pageSize && Aligned(dest0)
    requires Aligned(stop)
    requires Filled(f.pageBuffer, want, p, dest0) && (dest0 > p ==> f.pagen == p)
    requires forall a {:trigger want(a)} :: dest0 <= a < stop ==> want(a) == At(source, a)
    modifies f`pageBuffer, f`pagen
    ensures f.Valid() && Filled(f.pageBuffer, want, p, stop) && (stop > p ==> f.pagen == p) && dest == stop
  {
    hide PageStart;
    hide Filled;
    hide At;
    dest := dest0;
    var i := (stop - dest) / 8;
    assert dest + 8 * i == stop;
    hide Aligned;
    while i > 0
      invariant i >= 0 && dest + 8 * i == stop && dest0 <= dest && Aligned(dest)
      invariant f.Valid() && Filled(f.pageBuffer, want, p, dest) && (dest > p ==> f.pagen == p)
    {
      PatternAt(source, dest);
      PutDword(f, dest, source, p, want);
      dest := dest + 8;
      i := i - 1;
    }
  }

  /** One page of the fill, up to the commands that program it. */
  method FillPage(f: FlashController, dest0: int, source: Dword, destEnd: int, ghost p: int, ghost want: int -> byte)
    returns (dest: int)
    requires f.Valid() && OnPage(f.chip, p) && p <= dest0 < p + f.chip.pageSize && dest0 < destEnd
    requires FillWanted(want, f.mem, source, p, f.chip.pageSize, dest0, destEnd)
    modifies f`pageBuffer, f`pagen
    ensures f.Valid() && f.pagen == p && Filled(f.pageBuffer, want, p, p + f.chip.pageSize)
    ensures dest == PageDone(p, f.chip.pageSize, destEnd)
  {
    hide PageOf;
    hide PageStart;
    hide FillWanted;
    hide Down8;
    hide Up8;
    hide Aligned;
    hide At;
    hide Filled;
    hide FlashController.Valid;
    PageOfInside(f.chip, p, dest0);
    RoundFacts(p, dest0, destEnd);
    RoomForDword(Down8(destEnd), p, f.chip.pageSize);
    FillWantedParts(want, f.mem, source, p, f.chip.pageSize, dest0, destEnd);
    f.ClearPageBuffer();
    ClearedIsFilled(f.pageBuffer, want, p);
    var dword: Dword;
    dest, dword := FillHead(f, dest0, source, destEnd, p, want);
    var pageEnd := PageOf(f.chip, dest0) + f.chip.pageSize;
    var stop := if Down8(destEnd) < pageEnd then Down8(destEnd) else pageEnd;
    if destEnd < pageEnd && dword == source && dest0 <= dest {
      PatternWanted(want, f.mem, source, p, f.chip.pageSize, dest0, destEnd, stop);
    }
    dest := FillDwords(f, dest, source, stop, p, want);
    if destEnd < pageEnd {
      dest := FinishPage(f, dest, destEnd, dword, p, want);
    }
  }

  lemma PatternIsWanted(data: int -> byte, mem: int -> byte, source: Dword, p: int, n: int, dest: int, destEnd: int)
    requires forall a {:trigger data(a)} :: data(a) == At(source, a)
    ensures FillWanted(Want(data, mem, dest, destEnd), mem, source, p, n, dest, destEnd)
  {
  }

  /** One page of the fill: fill the buffer, program the page, and go to the user page at the end of the array. */
  method FillNextPage(f: FlashController, dest0: int, source: Dword, destEnd: int, erase: bool,
                      ghost dst: int, ghost n: nat, ghost data: int -> byte, ghost mem0: int -> byte)
    returns (dest: int)
    requires f.Valid() && destEnd == ClipEnd(f.chip, dst + n) && dest0 < destEnd
    requires forall a {:trigger data(a)} :: data(a) == At(source, a)
    requires Moving(f.chip, dst, n, erase, data, mem0, f.mem, dest0)
    modifies f
    ensures f.Valid() && dest0 < dest && Moving(f.chip, dst, n, erase, data, mem0, f.mem, dest)
  {
    hide Written;
    hide Filled;
    hide PageOf;
    hide PageStart;
    hide Aligned;
    hide PageDone;
    hide FillWanted;
    hide Programmed;
    hide InRange;
    hide Done;
    hide Want;
    hide ClipEnd;
    hide ClipStart;
    ghost var mem1 := f.mem;
    ghost var p := PageOf(f.chip, dest0);
    ghost var want := Want(data, mem1, dest0, destEnd);
    PageReady(f.chip, dest0);
    PatternIsWanted(data, mem1, source, p, f.chip.pageSize, dest0, destEnd);
    NextIsInFlash(f.chip, dst, n, dest0, destEnd, p);
    dest := FillPage(f, dest0, source, destEnd, p, want);
    ProgramPage(f, dest, erase, p, want);
    PageStep(f.chip, dst, n, erase, data, mem0, mem1, f.mem, dest0, destEnd, p);
    if f.chip.flashEnd <= dest <= f.chip.userPage {
      dest := f.chip.userPage;
    }
  }

  // The pattern in memory order

  /** The k least significant bytes of src are in place in a double-word in which a copy of the pattern starts at
      dst. */
  ghost predicate Placed(source: Dword, src: nat, dst: nat, k: nat) {
    forall j: nat :: j < 8 ==> PlacedByte(source, src, dst, k, j)
  }

  ghost predicate PlacedByte(source: Dword, src: nat, dst: nat, k: nat, j: nat) {
    source[(dst + 7 - j) % 8] == if j < k then ByteOf(src, j) else 0
  }

  lemma PlaceNext(source: Dword, src: nat, dst: nat, k: nat)
    requires Placed(source, src, dst, k) && k < 8
    ensures Placed(source[(dst + 7 - k) % 8 := ByteOf(src, k)], src, dst, k + 1)
  {
    hide ByteOf;
    var source2, k2 := source[(dst + 7 - k) % 8 := ByteOf(src, k)], k + 1;
    forall j: nat | j < 8 ensures PlacedByte(source2, src, dst, k2, j) {
      if j != k {
        OtherPlace(dst, j, k);
        assert PlacedByte(source, src, dst, k, j);
      }
    }
  }

  lemma OtherPlace(dst: nat, j: nat, k: nat)
    requires j < 8 && k < 8 && j != k
    ensures (dst + 7 - j) % 8 != (dst + 7 - k) % 8
  {
  }

  lemma PreviousPlace(dst: nat, i: int, k: int)
    requires i == (dst + 7 - k) % 8
    ensures 0 <= (i + 7) % 8 < 8 && (i + 7) % 8 == (dst + 7 - (k + 1)) % 8
  {
  }

  lemma PlaceOf(dst: nat, a: int)
    ensures (dst + 7 - (7 - (a - dst) % 8)) % 8 == a % 8
  {
  }

  /** s is src without its k least significant bytes. */
  ghost predicate Remains(src: nat, s: nat, k: nat) {
    && s < Pow256(if k <= 8 then 8 - k else 0)
    && forall m: nat {:trigger ByteOf(s, m)} :: ByteOf(src, k + m) == ByteOf(s, m)
  }

  lemma DropByte(src: nat, s: nat, k: nat)
    requires Remains(src, s, k) && k <= 8 && s != 0
    ensures k < 8 && Remains(src, s / 256, k + 1) && ByteOf(src, k) == LowByte(s)
  {
    hide LowByte;
    assert ByteOf(src, k + 0) == ByteOf(s, 0);
    forall m: nat ensures ByteOf(src, k + 1 + m) == ByteOf(s / 256, m) {
      assert ByteOf(s, 1 + m) == ByteOf(s / 256, m);
      assert ByteOf(src, k + (1 + m)) == ByteOf(s, 1 + m);
    }
  }

  lemma PlacedAll(source: Dword, src: nat, dst: nat, k: nat)
    requires Placed(source, src, dst, k) && Remains(src, 0, k) && k <= 8
    ensures forall a :: At(source, a) == PatternByte(src, 8, a - dst)
  {
    hide ByteOf;
    forall a ensures At(source, a) == PatternByte(src, 8, a - dst) {
      var j: nat := 7 - (a - dst) % 8;
      PlaceOf(dst, a);
      assert PlacedByte(source, src, dst, k, j);
      if j >= k {
        ByteOfZero(j - k);
        assert ByteOf(src, k + (j - k)) == ByteOf(0, j - k);
      }
      assert PatternByte(src, 8, a - dst) == ByteOf(src, j);
    }
  }

  /** The loop at the start of flashc_memset64. */
  method PlacePattern(dst: nat, src: nat) returns (source: Dword)
    requires src < Pow256(8)
    ensures forall a :: At(source, a) == PatternByte(src, 8, a - dst)
  {
    hide LowByte;
    hide ByteOf;
    hide PatternByte;
    hide Pow256;
    hide At;
    source := [0, 0, 0, 0, 0, 0, 0, 0];
    var s: nat := src;
    var i := (dst % 8 + 7) % 8;
    ghost var k: nat := 0;
    while s != 0
      invariant k <= 8 && i == (dst + 7 - k) % 8 && Placed(source, src, dst, k) && Remains(src, s, k)
    {
      DropByte(src, s, k);
      PlaceNext(source, src, dst, k);
      PreviousPlace(dst, i, k);
      source := source[i := LowByte(s)];
      s := s / 256;
      i := (i + 7) % 8;
      k := k + 1;
    }
    PlacedAll(source, src, dst, k);
  }

  /** Every byte of the range that lies in the flash array or the user page is its byte of the pattern (without an
      erase, it has lost the bits that are not in the pattern), and no other byte of memory has changed. */
  ghost predicate FilledWith(c: Chip, dst: int, n: int, erase: bool, src: nat, width: nat, was: int -> byte,
                             now: int -> byte)
    requires width > 0
  {
    forall a {:trigger now(a)} ::
      now(a) ==
        if dst <= a < dst + n && (c.flashBase <= a < c.flashEnd || c.userPage <= a < c.userPage + c.pageSize)
        then if erase then PatternByte(src, width, a - dst) else was(a) & PatternByte(src, width, a - dst)
        else was(a)
  }

  /** flashc_memset64. */
  method Memset64(f: FlashController, dst: nat, src: nat, nbytes: nat, erase: bool) returns (r: nat)
    requires f.Valid() && src < 0x1_0000_0000_0000_0000
    modifies f
    ensures f.Valid() && r == dst && FilledWith(f.chip, dst, nbytes, erase, src, 8, old(f.mem), f.mem)
  {
    hide PatternByte;
    hide Pow256;
    hide At;
    ghost var data := (a: int) => PatternByte(src, 8, a - dst);
    PatternWidths();
    var source := PlacePattern(dst, src);
    r := FillRange(f, dst, source, nbytes, erase, data);
  }

  /** The loop of flashc_memset64. */
  method FillRange(f: FlashController, dst: nat, source: Dword, nbytes: nat, erase: bool, ghost data: int -> byte)
    returns (r: nat)
    requires f.Valid() && forall a {:trigger data(a)} :: data(a) == At(source, a)
    modifies f
    ensures f.Valid() && r == dst && Flashed(f.chip, dst, nbytes, erase, data, old(f.mem), f.mem)
  {
    hide PageStart;
    hide Written;
    hide Done;
    hide ChipOk;
    hide At;
    hide Flashed;
    ghost var mem0 := f.mem;
    var dest := ClipStart(f.chip, dst);
    var destEnd := ClipEnd(f.chip, dst + nbytes);
    ClipIsExact(f.chip, dst, nbytes);
    NothingDone(f.chip, dst, nbytes, erase, data, mem0);
    hide InRange;
    hide InFlash;
    while dest < destEnd
      invariant f.Valid() && Moving(f.chip, dst, nbytes, erase, data, mem0, f.mem, dest)
      decreases destEnd - dest
    {
      dest := FillNextPage(f, dest, source, destEnd, erase, dst, nbytes, data, mem0);
    }
    AllDone(f.chip, dst, nbytes, erase, data, mem0, f.mem, dest);
    r := dst;
  }

  /** The pattern twice in one number.  Its halves do not overlap, so that their bitwise or is their sum. */
  function Twice(src: nat, width: nat): nat {
    src + src * Pow256(width)
  }

  lemma {:induction false} PowTwice(k: nat, m: nat)
    ensures Pow256(k + m) == Pow256(k) * Pow256(m)
    decreases k
  {
    if k > 0 {
      PowTwice(k - 1, m);
      assert Pow256(k + m) == 256 * (Pow256(k - 1) * Pow256(m));
    }
  }

  lemma SquareBound(src: nat, w: nat)
    requires src < w
    ensures src + src * w < w * w
  {
    Multiples(w, w - 1, src);
    assert w * (w - 1) == w * w - w;
  }

  lemma TwiceFits(src: nat, width: nat)
    requires src < Pow256(width)
    ensures Twice(src, width) < Pow256(2 * width)
  {
    PowTwice(width, width);
    assert width + width == 2 * width;
    SquareBound(src, Pow256(width));
  }

  /** Filling with the doubled pattern is filling with the pattern. */
  lemma TwiceFills(c: Chip, dst: int, n: int, erase: bool, src: nat, width: nat, was: int -> byte, now: int -> byte)
    requires width > 0 && src < Pow256(width) && FilledWith(c, dst, n, erase, Twice(src, width), 2 * width, was, now)
    ensures FilledWith(c, dst, n, erase, src, width, was, now)
  {
    hide PatternByte;
    hide Pow256;
    forall a
      ensures now(a) ==
        if dst <= a < dst + n && (c.flashBase <= a < c.flashEnd || c.userPage <= a < c.userPage + c.pageSize)
        then if erase then PatternByte(src, width, a - dst) else was(a) & PatternByte(src, width, a - dst)
        else was(a)
    {
      DoubledPattern(src, width, a - dst);
    }
  }

  method Memset32(f: FlashController, dst: nat, src: u4, nbytes: nat, erase: bool) returns (r: nat)
    requires f.Valid()
    modifies f
    ensures f.Valid() && r == dst && FilledWith(f.chip, dst, nbytes, erase, src, 4, old(f.mem), f.mem)
  {
    hide FilledWith;
    hide Pow256;
    hide Twice;
    PatternWidths();
    TwiceFits(src, 4);
    r := Memset64(f, dst, Twice(src, 4), nbytes, erase);
    TwiceFills(f.chip, dst, nbytes, erase, src, 4, old(f.mem), f.mem);
  }

  method Memset16(f: FlashController, dst: nat, src: u2, nbytes: nat, erase: bool) returns (r: nat)
    requires f.Valid()
    modifies f
    ensures f.Valid() && r == dst && FilledWith(f.chip, dst, nbytes, erase, src, 2, old(f.mem), f.mem)
  {
    hide FilledWith;
    hide Pow256;
    hide Twice;
    PatternWidths();
    TwiceFits(src, 2);
    r := Memset32(f, dst, Twice(src, 2), nbytes, erase);
    TwiceFills(f.chip, dst, nbytes, erase, src, 2, old(f.mem), f.mem);
  }

  method Memset8(f: FlashController, dst: nat, src: u1, nbytes: nat, erase: bool) returns (r: nat)
    requires f.Valid()
    modifies f
    ensures f.Valid() && r == dst && FilledWith(f.chip, dst, nbytes, erase, src, 1, old(f.mem), f.mem)
  {
    hide FilledWith;
    hide Pow256;
    hide Twice;
    PatternWidths();
    TwiceFits(src, 1);
    r := Memset16(f, dst, Twice(src, 1), nbytes, erase);
    TwiceFills(f.chip, dst, nbytes, erase, src, 1, old(f.mem), f.mem);
  }
}
