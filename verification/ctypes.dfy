/**
 The C++ integer types the bounded buffer touches: the 32-bit `int` of its
 parameters and return value, the 64-bit unsigned `size_t` of `vector::size()`,
 and the `char` of its byte records.
 */
module CTypes {

  /** One `char` of a record, taken as its 8-bit pattern. */
  type Byte = bv8

  const INT_MIN: int := -0x8000_0000
  const INT_MAX: int := 0x7fff_ffff

  /** 2^64, the modulus of a 64-bit `size_t`. */
  const SIZE_MODULUS: int := 0x1_0000_0000_0000_0000

  /** True iff `x` is representable as a 32-bit `int`. */
  predicate IsInt(x: int) {
    INT_MIN <= x <= INT_MAX
  }

  /** The value an `int` takes when the usual arithmetic conversions turn it
      into `size_t` (two's-complement reinterpretation modulo 2^64). */
  function ToSizeT(x: int): (r: nat)
    requires IsInt(x)
    ensures r < SIZE_MODULUS
    ensures 0 <= x ==> r == x
    ensures x < 0 ==> r == x + SIZE_MODULUS
  {
    x % SIZE_MODULUS
  }
}
