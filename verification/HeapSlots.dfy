/** One 32-bit heap or operand-stack slot.

The virtual machine reads the same word either as the marker that starts a heap block
or as a reference held on a stack or inside an object.  The two views cut the word at
different bits, so a slot is represented by the fields both cuts produce, lowest bit
first: 0-1 status, 2 rootCheck, 3 mutex, 4-15 low12, 16-19 mid4, 20-23 nibble5,
24-27 nibble6, 28-31 nibble7.  A stale marker read as a reference therefore means
here what it means in memory.
*/
module HeapSlots {
  import opened Arithmetic

  datatype Slot = Slot(status: int, rootCheck: int, mutex: int, low12: int, mid4: int,
                       nibble5: int, nibble6: int, nibble7: int)
  {
    predicate Valid() {
      && 0 <= status < 4 && 0 <= rootCheck < 2 && 0 <= mutex < 2
      && 0 <= low12 < 0x1000 && 0 <= mid4 < 0x10
      && 0 <= nibble5 < 0x10 && 0 <= nibble6 < 0x10 && 0 <= nibble7 < 0x10
    }

    // Marker view.

    function Length(): int {
      low12 + 0x1000 * mid4
    }

    function MarkerMagic(): int {
      nibble5
    }

    function WithLength(n: int): (s: Slot)
      ensures s.Length() == n && s.MarkerMagic() == MarkerMagic() && s.status == status
      ensures Valid() && 0 <= n < 0x1_0000 ==> s.Valid()
    {
      this.(low12 := n % 0x1000, mid4 := n / 0x1000)
    }

    // Reference view.

    function Pos(): int {
      status + 4 * rootCheck + 8 * mutex + 16 * low12
    }

    function RefMagic(): int {
      nibble7
    }
  }

  /** The 32-bit word. */
  function Word(s: Slot): int {
    s.status + 4 * s.rootCheck + 8 * s.mutex + 16 * s.low12 + 0x1_0000 * s.mid4 + 0x10_0000 * s.nibble5
    + 0x100_0000 * s.nibble6 + 0x1000_0000 * s.nibble7
  }

  /** Both views cut the word as the source's bit fields do: a marker has two bits of status, the mark, the mutex bit,
      sixteen bits of length and four of magic; a reference has sixteen bits of position, and its magic on top. */
  lemma ViewsOfWord(s: Slot)
    requires s.Valid()
    ensures 0 <= Word(s) < 0x1_0000_0000
    ensures s.status == Word(s) % 4 && s.rootCheck == Word(s) / 4 % 2 && s.mutex == Word(s) / 8 % 2
    ensures s.Length() == Word(s) / 0x10 % 0x1_0000 && s.MarkerMagic() == Word(s) / 0x10_0000 % 0x10
    ensures s.Pos() == Word(s) % 0x1_0000 && s.RefMagic() == Word(s) / 0x1000_0000
  {
    var w := Word(s);
    var magics := s.nibble5 + 0x10 * s.nibble6 + 0x100 * s.nibble7;
    var above := s.Length() + 0x1_0000 * magics;
    QuotientUnique(w, 4, s.rootCheck + 2 * s.mutex + 4 * above, s.status);
    QuotientUnique(s.rootCheck + 2 * s.mutex + 4 * above, 2, s.mutex + 2 * above, s.rootCheck);
    QuotientUnique(w, 8, s.mutex + 2 * above, s.status + 4 * s.rootCheck);
    QuotientUnique(s.mutex + 2 * above, 2, above, s.mutex);
    QuotientUnique(w, 0x10, above, s.status + 4 * s.rootCheck + 8 * s.mutex);
    QuotientUnique(above, 0x1_0000, magics, s.Length());
    QuotientUnique(w, 0x10_0000, magics, w - 0x10_0000 * magics);
    QuotientUnique(magics, 0x10, s.nibble6 + 0x10 * s.nibble7, s.nibble5);
    QuotientUnique(w, 0x1_0000, s.mid4 + 0x10 * magics, s.Pos());
    QuotientUnique(w, 0x1000_0000, s.nibble7, w - 0x1000_0000 * s.nibble7);
  }

  type slot = s: Slot | s.Valid() witness Slot(0, 0, 0, 0, 0, 0, 0, 0)

  const FREESPACE := 0
  const STATICCLASSOBJECT := 1
  const OBJECTMAGIC := 0xA

  const NULLOBJECT: slot := Slot(3, 1, 1, 0xFFF, 0xF, 0xA, 0xA, 0xA)
}
