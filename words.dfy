/** The integer types that meet at the boundary between the device under
    test and the reference engine, and the C++ conversions between them.
    The DUT's RV32 word (`word_t`) is 32 bits wide, its signed counterpart
    (`sword_t`) is `int32_t`, and the engine's register type (`reg_t`) is
    64 bits wide. Each type is the range of its values; every conversion
    is written out as the modular arithmetic C++ defines for it. */
module Words {

  const TWO_TO_8: int := 0x100
  const TWO_TO_31: int := 0x8000_0000
  const TWO_TO_32: int := 0x1_0000_0000
  const TWO_TO_63: int := 0x8000_0000_0000_0000
  const TWO_TO_64: int := 0x1_0000_0000_0000_0000

  newtype u8 = x: int | 0 <= x < TWO_TO_8
  newtype u32 = x: int | 0 <= x < TWO_TO_32
  newtype u64 = x: int | 0 <= x < TWO_TO_64

  /** Value of a 32-bit pattern read as a two's-complement `int32_t`. */
  function Signed32(w: u32): (v: int)
    ensures -TWO_TO_31 <= v < TWO_TO_31
    ensures v % TWO_TO_32 == w as int
  {
    if (w as int) < TWO_TO_31 then w as int else w as int - TWO_TO_32
  }

  /** Value of a 64-bit pattern read as a two's-complement `int64_t`. */
  function Signed64(x: u64): (v: int)
    ensures -TWO_TO_63 <= v < TWO_TO_63
    ensures v % TWO_TO_64 == x as int
  {
    if (x as int) < TWO_TO_63 then x as int else x as int - TWO_TO_64
  }

  /** `(reg_t)(sword_t)w`: reinterpret the word as `int32_t`, then convert
      that signed value to `uint64_t`, i.e. fill bits 32..63 with bit 31.
      The signed value survives, and narrowing gives the word back. */
  function SignExtend(w: u32): (r: u64)
    ensures r as int == Signed32(w) % TWO_TO_64
    ensures Signed64(r) == Signed32(w)
    ensures Narrow(r) == w
  {
    if (w as int) < TWO_TO_31 then w as int as u64
    else (w as int + (TWO_TO_64 - TWO_TO_32)) as u64
  }

  /** `(uint32_t)x` of a register value: the one word congruent to it
      modulo 2^32 (its low 32 bits). */
  function Narrow(x: u64): (w: u32)
    ensures (x as int - w as int) % TWO_TO_32 == 0
  {
    (x as int % TWO_TO_32) as u32
  }

  /** `(uint64_t)w` of an unsigned word: the value is kept, so the upper
      32 bits are zero and narrowing gives the word back. */
  function ZeroExtend(w: u32): (r: u64)
    ensures (r as int) < TWO_TO_32
    ensures Narrow(r) == w
  {
    w as int as u64
  }
}
