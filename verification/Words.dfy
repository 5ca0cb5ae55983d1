/** Machine words: the ranges of the source's integer types, and what assigning a larger number to them keeps. */
module Words {

  type u1 = x: int | 0 <= x < 0x100
  type u2 = x: int | 0 <= x < 0x1_0000
  type u4 = x: int | 0 <= x < 0x1_0000_0000

  /** Eight bits, where single bits matter. */
  type byte = bv8

  function Wrap8(x: int): u1 {
    x % 0x100
  }

  function Wrap16(x: int): u2 {
    x % 0x1_0000
  }

  function Wrap32(x: int): u4 {
    x % 0x1_0000_0000
  }
}
