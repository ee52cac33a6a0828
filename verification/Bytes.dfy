/** Bytes and 32-bit words. */
module Bytes {

  type Byte = x: int | 0 <= x < 256

  type U32 = x: int | 0 <= x < 0x1_0000_0000

  /** A word is the sum of its four bytes, the least significant first. */
  lemma FourBytes(v: U32)
    ensures v % 256 + 256 * ((v / 256) % 256) + 0x1_0000 * ((v / 0x1_0000) % 256) + 0x100_0000 * (v / 0x100_0000) == v
    ensures (v / 0x100_0000) % 256 == v / 0x100_0000
  {
    var a, b := v / 256, v / 0x1_0000;
    assert b == a / 256 && v / 0x100_0000 == b / 256;
    assert v == 256 * a + v % 256 && a == 256 * b + a % 256 && b == 256 * (b / 256) + b % 256;
  }
}
