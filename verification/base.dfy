/** Small shared vocabulary: an optional value and Go's 64-bit integer widths. */
module Base {

  /** A value that may be absent (Go's comma-ok lookups and omitted JSON fields). */
  datatype Option<+T> = None | Some(value: T)

  /** A value or the error that prevented it. */
  datatype Result<+T, +E> = Success(value: T) | Failure(error: E)

  /** 2^64, the modulus of Go's `uint64`. */
  const Uint64Modulus: int := 0x1_0000_0000_0000_0000

  /** Go's `int` on the 64-bit platforms the program targets. */
  type Int64 = x: int | -0x8000_0000_0000_0000 <= x < 0x8000_0000_0000_0000

  /** A value of Go's `uint64`. */
  type Uint64 = x: int | 0 <= x < 0x1_0000_0000_0000_0000

  /** Go's conversion `uint64(x)` of a signed 64-bit value: two's-complement
      reinterpretation, so a negative TTL becomes a very large one. */
  function Uint64Of(x: Int64): (r: Uint64)
    ensures r % Uint64Modulus == x % Uint64Modulus
    ensures 0 <= x ==> r == x
  {
    if x < 0 then x + Uint64Modulus else x
  }
}
