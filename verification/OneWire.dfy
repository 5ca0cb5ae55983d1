/** The search for devices on a 1-Wire bus, and the checksum of their messages. */
module OneWire {
  import opened RomSearch
  import opened Words

  // Bits of the ROM buffer

  function Mask(k: int): byte
    requires 0 <= k < 8
  {
    [1, 2, 4, 8, 16, 32, 64, 128][k]
  }

  predicate Bit(b: byte, k: int)
    requires 0 <= k < 8
  {
    b & Mask(k) != 0
  }

  /** The code whose eight bytes begin at offset off, in the order in which its bits are sent. */
  function CodeAt(rom: seq<byte>, off: nat): Code
    requires off + 8 <= |rom|
  {
    seq(64, j requires 0 <= j < 64 => Bit(rom[off + j / 8], j % 8))
  }

  /** Bit number 8 * i + j of a code is bit j of its byte i, counted from the least significant one. */
  lemma LowestBitFirst(rom: seq<byte>, off: nat, i: nat, j: nat)
    requires off + 8 <= |rom| && i < 8 && j < 8
    ensures CodeAt(rom, off)[8 * i + j] <==> (rom[off + i] >> j) & 1 == 1
  {
    BitIsShifted(rom[off + i], j);
    assert (8 * i + j) / 8 == i && (8 * i + j) % 8 == j;
    hide Bit;
  }

  lemma BitIsShifted(b: byte, j: nat)
    requires j < 8
    ensures Bit(b, j) <==> (b >> j) & 1 == 1
  {
    assert j == 0 || j == 1 || j == 2 || j == 3 || j == 4 || j == 5 || j == 6 || j == 7;
  }

  /** The first n codes of the buffer. */
  function CodesIn(rom: seq<byte>, n: nat): seq<Code>
    requires 8 * n <= |rom|
  {
    seq(n, j requires 0 <= j < n => CodeAt(rom, 8 * j))
  }

  lemma CodesKept(rom: seq<byte>, rom2: seq<byte>, n: nat)
    requires 8 * n <= |rom| == |rom2| && forall j :: 0 <= j < 8 * n ==> rom[j] == rom2[j]
    ensures CodesIn(rom, n) == CodesIn(rom2, n)
  {
    hide Bit;
    forall j | 0 <= j < n ensures CodeAt(rom, 8 * j) == CodeAt(rom2, 8 * j) {
    }
  }

  lemma MaskFirst()
    ensures Mask(0) == 1
  {
  }

  lemma MaskNext(k: int)
    requires 0 <= k < 7
    ensures Mask(k) << 1 == Mask(k + 1)
  {
  }

  /** *ptr |= mask, or *ptr &= ~mask. */
  function Masked(b: byte, mask: byte, bit: bool): byte {
    if bit then b | mask else b & !mask
  }

  lemma MasksApart(k: int, j: int)
    requires 0 <= k < 8 && 0 <= j < 8
    ensures k != j ==> Mask(k) & Mask(j) == 0
    ensures Mask(k) != 0
  {
    assert k == 0 || k == 1 || k == 2 || k == 3 || k == 4 || k == 5 || k == 6 || k == 7;
    assert j == 0 || j == 1 || j == 2 || j == 3 || j == 4 || j == 5 || j == 6 || j == 7;
  }

  lemma OneBitChanges(b: byte, m: byte, n: byte)
    ensures (b | m) & m == m && (b & !m) & m == 0
    ensures m & n == 0 ==> (b | m) & n == b & n && (b & !m) & n == b & n
  {
  }

  lemma MaskedBit(b: byte, k: int, bit: bool, j: int)
    requires 0 <= k < 8 && 0 <= j < 8
    ensures Bit(Masked(b, Mask(k), bit), j) == if j == k then bit else Bit(b, j)
  {
    hide Mask;
    MasksApart(k, j);
    OneBitChanges(b, Mask(k), Mask(j));
  }

  lemma CodeUpdate(rom: seq<byte>, off: nat, k: int, bit: bool)
    requires off + 8 <= |rom| && 0 <= k < 64
    ensures CodeAt(rom[off + k / 8 := Masked(rom[off + k / 8], Mask(k % 8), bit)], off) == CodeAt(rom, off)[k := bit]
  {
    hide Bit;
    hide Masked;
    var rom2 := rom[off + k / 8 := Masked(rom[off + k / 8], Mask(k % 8), bit)];
    forall j | 0 <= j < 64 ensures CodeAt(rom2, off)[j] == CodeAt(rom, off)[k := bit][j] {
      if j / 8 == k / 8 {
        MaskedBit(rom[off + k / 8], k % 8, bit, j % 8);
      }
    }
    assert CodeAt(rom2, off) == CodeAt(rom, off)[k := bit];
  }

  /** The devices on the wire.  Those whose code agrees with all bits written in this search go on listening; all
      that listen answer at once, and a zero wins. */
  class Bus {
    const devices: set<Code>
    var active: set<Code>
    var pos: nat
    var inverted: bool

    constructor (devices: set<Code>)
      ensures this.devices == devices
    {
      this.devices := devices;
      active := {};
      pos := 0;
      inverted := false;
    }

    method Reset() returns (absent: bool)
      modifies this
      ensures absent == (devices == {}) && active == {}
    {
      absent := devices == {};
      active := {};
    }

    method SearchRomCommand()
      modifies this
      ensures active == devices && pos == 0 && !inverted
    {
      active := devices;
      pos := 0;
      inverted := false;
    }

    method ReadBit() returns (val: nat)
      requires pos < 64
      modifies this`inverted
      ensures inverted == !old(inverted)
      ensures val == if (if old(inverted) then AllZeros(active, pos) else AllOnes(active, pos)) then 1 else 0
    {
      var high := forall c | c in active :: c[pos] != inverted;
      val := if high then 1 else 0;
      inverted := !inverted;
    }

    method WriteBit(bit: bool)
      requires pos < 64
      modifies this
      ensures active == (set c | c in old(active) && c[old(pos)] == bit) && pos == old(pos) + 1 && !inverted
    {
      active := set c | c in active && c[pos] == bit;
      pos := pos + 1;
      inverted := false;
    }
  }

  const MAXSEARCH := 20

  class Searcher {
    const bus: Bus
    var lastZero: nat

    constructor (bus: Bus)
      ensures this.bus == bus && lastZero == 0
    {
      this.bus := bus;
      lastZero := 0;
    }

    /** Reads both answers at bit number i (from 1) and chooses its value. */
    method ChooseBit(rom: array<byte>, i: nat, ptr: nat, mask: byte, lstDif: nat, ghost p: Code)
        returns (x: nat, romBit: bool)
      requires 1 <= i <= 64 && ptr < rom.Length && bus.pos == i - 1 && !bus.inverted
      requires !(AllOnes(bus.active, i - 1) && AllZeros(bus.active, i - 1))
      requires i < lstDif ==> p[i - 1] == (rom[ptr] & mask != 0)
      modifies this`lastZero, bus`inverted
      ensures x < 3 && romBit == Choice(bus.active, p, lstDif, i - 1) && !bus.inverted
      ensures lastZero ==
        if AllOnes(bus.active, i - 1) || AllZeros(bus.active, i - 1) || romBit then old(lastZero) else i
    {
      hide AllOnes;
      hide AllZeros;
      x := bus.ReadBit();
      x := 2 * x;
      var y := bus.ReadBit();
      x := x + y;
      if x == 0 {
        if i > lstDif {
          romBit := false;
        } else if i == lstDif {
          romBit := true;
        } else {
          romBit := rom[ptr] & mask != 0;
        }
        if !romBit {
          lastZero := i;
        }
      } else {
        romBit := x % 2 == 0;
      }
    }

    method StoreBit(rom: array<byte>, off: nat, k: nat, ptr: nat, mask: byte, bit: bool)
      requires off + 8 <= rom.Length && k < 64 && ptr == off + k / 8 && mask == Mask(k % 8)
      modifies rom
      ensures CodeAt(rom[..], off) == old(CodeAt(rom[..], off))[k := bit]
      ensures forall j :: 0 <= j < rom.Length && !(off <= j < off + 8) ==> rom[j] == old(rom[j])
    {
      hide CodeAt;
      hide Mask;
      hide Bit;
      hide Masked;
      ghost var was := rom[..];
      CodeUpdate(was, off, k, bit);
      rom[ptr] := Masked(rom[ptr], mask, bit);
      assert rom[..] == was[ptr := Masked(was[ptr], Mask(k % 8), bit)];
    }

    /** What holds after k bits of a search that starts with code p and position lstDif. */
    ghost predicate Searching(path: Code, k: nat, p: Code, lstDif: nat)
      reads this, bus
    {
      && k <= 64 && bus.pos == k && !bus.inverted && bus.active == Active(bus.devices, path, k) != {}
      && Seed(bus.devices, p, lstDif) && Chosen(bus.devices, p, lstDif, path, k) && path[k..] == p[k..]
      && lastZero == (if LastZero(bus.devices, path, k) == 0 then lstDif else LastZero(bus.devices, path, k))
    }

    /** The state of the search after one more bit has been chosen and written. */
    lemma SearchingOn(path: Code, k: nat, p: Code, lstDif: nat, active: set<Code>, bit: bool, wasLast: nat)
      requires k < 64 && active == Active(bus.devices, path, k) != {} && bit == Choice(active, p, lstDif, k)
      requires Seed(bus.devices, p, lstDif) && Chosen(bus.devices, p, lstDif, path, k) && path[k..] == p[k..]
      requires wasLast == if LastZero(bus.devices, path, k) == 0 then lstDif else LastZero(bus.devices, path, k)
      requires bus.pos == k + 1 && !bus.inverted && bus.active == (set c | c in active && c[k] == bit)
      requires lastZero == if AllOnes(active, k) || AllZeros(active, k) || bit then wasLast else k + 1
      ensures Searching(path[k := bit], k + 1, p, lstDif)
    {
      hide AllOnes;
      hide AllZeros;
      hide Chosen;
      hide Choice;
      hide Seed;
      ChoiceIsRight(bus.devices, p, lstDif, path, k);
      ActiveStep(bus.devices, path, k, bit);
      hide Active;
      LastZeroUpdate(bus.devices, path, k, k, bit);
      hide ZeroAt;
      var path2 := path[k := bit];
      assert LastZero(bus.devices, path2, k + 1) ==
        if ZeroAt(bus.devices, path2, k) then k + 1 else LastZero(bus.devices, path2, k);
      assert path2[k + 1..] == path[k..][1..] == p[k..][1..] == p[k + 1..];
    }

    /** One round of the loop in searchNext: i counts from 1. */
    method SearchBit(rom: array<byte>, off: nat, i: nat, ptr: nat, mask: byte, lstDif: nat, ghost p: Code)
        returns (x: nat)
      requires off + 8 <= rom.Length && 1 <= i <= 64 && ptr == off + (i - 1) / 8 && mask == Mask((i - 1) % 8)
      requires Searching(CodeAt(rom[..], off), i - 1, p, lstDif)
      modifies this`lastZero, bus, rom
      ensures x < 3 && Searching(CodeAt(rom[..], off), i, p, lstDif)
      ensures forall j :: 0 <= j < rom.Length && !(off <= j < off + 8) ==> rom[j] == old(rom[j])
    {
      hide Mask;
      hide AllOnes;
      hide AllZeros;
      hide Chosen;
      hide Choice;
      hide Seed;
      hide Active;
      hide LastZero;
      ghost var path, active, wasLast := CodeAt(rom[..], off), bus.active, lastZero;
      assert path[i - 1] == Bit(rom[..][ptr], (i - 1) % 8);
      assert path[i - 1] == path[i - 1..][0] == p[i - 1..][0] == p[i - 1];
      ChoiceIsRight(bus.devices, p, lstDif, path, i - 1);
      hide CodeAt;
      var romBit: bool;
      x, romBit := ChooseBit(rom, i, ptr, mask, lstDif, p);
      StoreBit(rom, off, i - 1, ptr, mask, romBit);
      bus.WriteBit(romBit);
      SearchingOn(path, i - 1, p, lstDif, active, romBit, wasLast);
    }

    /** searchNext: the eight bytes at off hold the code that was found before, and then the one found now. */
    method SearchNext(rom: array<byte>, off: nat) returns (st: int)
      requires off + 8 <= rom.Length
      requires bus.devices != {} ==> Seed(bus.devices, CodeAt(rom[..], off), lastZero)
      modifies this`lastZero, bus, rom
      ensures forall j :: 0 <= j < rom.Length && !(off <= j < off + 8) ==> rom[j] == old(rom[j])
      ensures bus.devices == {} ==> st == 0 && lastZero == old(lastZero) && rom[..] == old(rom[..])
      ensures bus.devices != {} ==>
        var p, q := old(CodeAt(rom[..], off)), CodeAt(rom[..], off);
        && q in bus.devices && Chosen(bus.devices, p, old(lastZero), q, 64)
        && st == (if LastZero(bus.devices, q, 64) == 0 then 2 else 1)
        && (st == 1 ==> lastZero == LastZero(bus.devices, q, 64))
    {
      hide Chosen;
      hide Seed;
      hide LastZero;
      hide CodeAt;
      hide Mask;
      var i, x, lstDif := 0, 0, lastZero;
      var mask: byte := 1;
      ghost var p := CodeAt(rom[..], off);
      var absent := bus.Reset();
      if absent {
        return 0;
      }
      bus.SearchRomCommand();
      var ptr: int := off - 1;
      StartSearching(p, lstDif);
      while i < 64 && x < 3
        invariant i <= 64 && x < 3 && ptr == off + (i + 7) / 8 - 1 && (i > 0 ==> mask == Mask((i - 1) % 8))
        invariant Searching(CodeAt(rom[..], off), i, p, lstDif)
        invariant forall j :: 0 <= j < rom.Length && !(off <= j < off + 8) ==> rom[j] == old(rom[j])
        decreases 64 - i
      {
        i := i + 1;
        if (i - 1) % 8 == 0 {
          MaskFirst();
          mask := 1;
          ptr := ptr + 1;
        } else {
          MaskNext((i - 2) % 8);
          mask := mask << 1;
        }
        x := SearchBit(rom, off, i, ptr, mask, lstDif, p);
      }
      FoundOne(CodeAt(rom[..], off), p, lstDif);
      st := if x == 3 then 0 else 1 + if lstDif == lastZero then 1 else 0;
    }

    lemma StartSearching(p: Code, lstDif: nat)
      requires bus.devices != {} && bus.active == bus.devices && bus.pos == 0 && !bus.inverted
      requires Seed(bus.devices, p, lstDif) && lastZero == lstDif
      ensures Searching(p, 0, p, lstDif)
    {
      assert Active(bus.devices, p, 0) == bus.devices;
    }

    /** The last bit leaves one device, and the position has not moved exactly at the greatest code. */
    lemma FoundOne(q: Code, p: Code, lstDif: nat)
      requires Searching(q, 64, p, lstDif)
      ensures q in bus.devices && Chosen(bus.devices, p, lstDif, q, 64)
      ensures lastZero == lstDif <==> LastZero(bus.devices, q, 64) == 0
    {
      var c :| c in Active(bus.devices, q, 64);
      assert c[..64] == c && q[..64] == q;
      var z := LastZero(bus.devices, q, 64);
      if z > 0 && lstDif > 0 {
        assert ZeroAt(bus.devices, q, z - 1);
        assert ChosenBit(bus.devices, p, lstDif, q, lstDif - 1);
      }
    }

    /** memcpy(ptr + 8, ptr, 8) */
    method CopyCode(rom: array<byte>, off: nat)
      requires off + 16 <= rom.Length
      modifies rom
      ensures CodeAt(rom[..], off + 8) == old(CodeAt(rom[..], off))
      ensures forall j :: 0 <= j < rom.Length && !(off + 8 <= j < off + 16) ==> rom[j] == old(rom[j])
    {
      hide Bit;
      var j := 0;
      while j < 8
        invariant 0 <= j <= 8
        invariant forall k :: 0 <= k < rom.Length && !(off + 8 <= k < off + 8 + j) ==> rom[k] == old(rom[k])
        invariant forall k :: off + 8 <= k < off + 8 + j ==> rom[k] == old(rom[k - 8])
      {
        rom[off + 8 + j] := rom[off + j];
        j := j + 1;
      }
    }

    /** What the loop of searchRom keeps while it goes on. */
    ghost predicate Scanning(rom: seq<byte>, count: nat)
      reads this
    {
      && 8 * count + 8 <= |rom| && Enumerates(CodesIn(rom, count), bus.devices) && (bus.devices == {} ==> count == 0)
      && (if count == 0 then lastZero == 0
          else var p := CodeAt(rom, 8 * count);
            p == CodesIn(rom, count)[count - 1] && lastZero == LastZero(bus.devices, p, 64) > 0)
    }

    /** searchRom: fills the array with the codes on the bus in increasing order, as many as it can hold, and returns
        their number, with the highest bit set unless the last one has been found. */
    method SearchRom(rom: array<byte>, maxChip: nat) returns (r: nat)
      requires 1 <= maxChip < 0x80 && rom.Length == 8 * maxChip
      modifies this`lastZero, bus, rom
      ensures r ==
        if 0 < |bus.devices| <= maxChip then |bus.devices| else if bus.devices == {} then 0x80 else maxChip + 0x80
      ensures Enumerates(CodesIn(rom[..], r % 0x80), bus.devices)
    {
      hide CodeAt;
      hide Chosen;
      hide LastZero;
      hide Enumerates;
      for j := 0 to rom.Length {
        rom[j] := 0;
      }
      lastZero := 0;
      var off, count, st, attempts := 0, 0, 0, MAXSEARCH;
      NothingYet(rom[..], bus.devices);
      var again := true;
      while again
        invariant off + 8 <= rom.Length && 0 <= count <= maxChip && attempts >= 0
        invariant again ==> off == 8 * count && Scanning(rom[..], count) && attempts > 0
        invariant !again ==> Enumerates(CodesIn(rom[..], count), bus.devices)
        invariant !again ==> if bus.devices == {} then count == 0 && st == 0
                             else (st == 2 && count == |bus.devices|) || (st == 1 && count == maxChip < |bus.devices|)
        decreases again, maxChip - count + attempts
      {
        ghost var was, found := rom[..], CodesIn(rom[..], count);
        ghost var p, z := CodeAt(rom[..], 8 * count), lastZero;
        SeedOk(rom[..], count);
        st := SearchNext(rom, off);
        CodesKept(was, rom[..], count);
        if st != 0 {
          ghost var q := CodeAt(rom[..], 8 * count);
          SearchContinues(found, bus.devices, p, z, q);
          FoundAll(found + [q], bus.devices);
          count := count + 1;
          ghost var before := rom[..];
          assert CodesIn(before, count) == found + [q];
          if st == 1 && count < maxChip {
            CopyCode(rom, off);
            off := off + 8;
            CodesKept(before, rom[..], count);
          }
        } else {
          attempts := attempts - 1;
          if attempts == 0 {
            again := false;
            break;
          }
        }
        again := st != 2 && count < maxChip;
      }
      r := if st != 2 then count + 0x80 else count;
    }

    lemma NothingYet(rom: seq<byte>, S: set<Code>)
      ensures Enumerates(CodesIn(rom, 0), S)
    {
    }

    lemma SeedOk(rom: seq<byte>, count: nat)
      requires Scanning(rom, count)
      ensures bus.devices != {} ==> Seed(bus.devices, CodeAt(rom, 8 * count), lastZero)
    {
    }
  }
}
