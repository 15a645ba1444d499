/** Java's fixed-width integer types and two's-complement wrap-around. */
module JavaInts {

  const MIN32: int := -0x8000_0000
  const MAX32: int := 0x7FFF_FFFF
  const MODULUS32: int := 0x1_0000_0000
  const MIN64: int := -0x8000_0000_0000_0000
  const MAX64: int := 0x7FFF_FFFF_FFFF_FFFF
  const MODULUS64: int := 0x1_0000_0000_0000_0000

  /** Java `int`. */
  type Int32 = x: int | MIN32 <= x <= MAX32
  /** Java `long`. */
  type Int64 = x: int | MIN64 <= x <= MAX64
  /** Java `short`. */
  type Int16 = x: int | -0x8000 <= x <= 0x7FFF
  /** Java `byte`. */
  type Int8 = x: int | -0x80 <= x <= 0x7F
  /** Java `char`: an unsigned UTF-16 code unit. */
  type Char16 = x: int | 0 <= x <= 0xFFFF

  /** The `int` that Java's 32-bit arithmetic yields for the exact result `x`. */
  function Wrap32(x: int): (r: Int32)
    ensures (r - x) % MODULUS32 == 0
    ensures MIN32 <= x <= MAX32 ==> r == x
  {
    (x - MIN32) % MODULUS32 + MIN32
  }

  /** A wrapped difference of two `int`s is zero only when they are equal. */
  lemma Wrap32DifferenceZero(a: Int32, b: Int32)
    ensures Wrap32(a - b) == 0 <==> a == b
  {
    var r := Wrap32(a - b);
    if r == 0 {
      assert (a - b) % MODULUS32 == 0;
      assert -MODULUS32 < a - b < MODULUS32;
    }
  }

  /** Java's `(short)` cast of a `char`: code units from 0x8000 up become negative. */
  function CharToShort(c: Char16): (s: Int16)
    ensures (s - c) % 0x1_0000 == 0
    ensures c < 0x8000 <==> s >= 0
  {
    if c < 0x8000 then c else c - 0x1_0000
  }

  /** Java's `(int)` cast of a `long`: keeps the low 32 bits. */
  function LongToInt(v: Int64): (r: Int32)
    ensures (r - v) % MODULUS32 == 0
  {
    Wrap32(v)
  }
}
