/** The C integer types the kernel's routines are written in, and the
    conversions between them that the routines rely on. */
module CTypes {

  /** C `int` on the x86-64 target: 32-bit two's complement. */
  newtype int32 = x: int | -0x8000_0000 <= x < 0x8000_0000

  /** C `uint8_t`, the unit of memory. */
  newtype uint8 = x: int | 0 <= x < 0x100

  /** C `unsigned short`. */
  newtype uint16 = x: int | 0 <= x < 0x1_0000

  /** C `uint64_t` (and `size_t` on the x86-64 target). */
  newtype uint64 = x: int | 0 <= x < 0x1_0000_0000_0000_0000

  const TWO_POW_32: int := 0x1_0000_0000
  const TWO_POW_64: int := 0x1_0000_0000_0000_0000

  /** The unsigned value of the 32-bit two's-complement bit pattern of `c`. */
  function Bits32(c: int32): nat
  {
    if c < 0 then c as int + TWO_POW_32 else c as int
  }

  /** Reducing the two's-complement pattern modulo 256 is reducing the
      value itself: 2^32 is a multiple of 256. */
  lemma Bits32Mod256(c: int32)
    ensures Bits32(c) % 256 == c as int % 256
  {
    if c < 0 {
      assert Bits32(c) == (c as int + 256) + 256 * 0xFF_FFFF;
    }
  }

  /** C's conversion `(uint8_t)c` of an `int`: reduction modulo 256, that is,
      the low eight bits of the two's-complement bit pattern of `c`. */
  function ToUint8(c: int32): (b: uint8)
    ensures b as int == Bits32(c) % 256
    ensures 0 <= c < 256 ==> b as int == c as int
  {
    Bits32Mod256(c);
    (c as int % 256) as uint8
  }

  /** C's conversion of an `int` operand to `uint64_t` in mixed arithmetic:
      reduction modulo 2^64. */
  function ToUint64(c: int32): (u: uint64)
    ensures 0 <= c ==> u as int == c as int
    ensures c < 0 ==> u as int == c as int + TWO_POW_64
  {
    (c as int % TWO_POW_64) as uint64
  }
}
