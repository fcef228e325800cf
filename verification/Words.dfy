// A 32-bit word as its bits, lowest first: what get_bit, set_bit and the shifts of the
// bitmap code read and write.

module Words {
  type Word = w: seq<bool> | |w| == 32 witness seq(32, i => false)

  const ZERO: Word := seq(32, i => false)
  const ONES: Word := seq(32, i => true)

  // 0xffffffff << r
  function OnesShiftedLeft(r: nat): Word
    requires r < 32
  {
    seq(32, i => r <= i)
  }

  // 0xffffffff >> r
  function OnesShiftedRight(r: nat): Word
    requires r < 32
  {
    seq(32, i => i < 32 - r)
  }
}
