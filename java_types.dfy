/** Java's fixed-width integer types and the few numeric conversions of the
    Java platform that the analysis code relies on, stated over Dafny's
    unbounded integers and exact reals. */
module JavaTypes {

  const MinInt: int := -0x8000_0000
  const MaxInt: int := 0x7FFF_FFFF

  /** A Java `byte`: a signed 8-bit value. */
  type Byte = b: int | -128 <= b <= 127

  /** A Java `int`: a signed 32-bit value. */
  type Int32 = x: int | MinInt <= x <= MaxInt

  /** The value of a Java `int` reduced to 32 bits after an arithmetic
      operation (the sum wraps around on overflow). */
  function Wrap32(v: int): (r: Int32)
    ensures (r - v) % 0x1_0000_0000 == 0
    ensures MinInt <= v <= MaxInt ==> r == v
  {
    (v + 0x8000_0000) % 0x1_0000_0000 - 0x8000_0000
  }

  /** Java's narrowing cast `(short) x`: keep the low 16 bits, read them as
      a signed value. */
  function ToShort(x: int): (r: int)
    ensures -0x8000 <= r <= 0x7FFF
    ensures (r - x) % 0x1_0000 == 0
    ensures -0x8000 <= x <= 0x7FFF ==> r == x
  {
    (x + 0x8000) % 0x1_0000 - 0x8000
  }

  /** `x & 0xFF` on a byte promoted to `int`: the unsigned value of its bits. */
  function Unsigned8(b: Byte): (r: int)
    ensures 0 <= r < 256
    ensures r == b || r == b + 256
  {
    if b < 0 then b + 256 else b
  }

  /** The narrowing cast `(byte) v` applied to a value already masked to 8 bits. */
  function ToByte(v: int): (r: Byte)
    requires 0 <= v < 256
    ensures Unsigned8(r) == v
    ensures (r < 0) == (v >= 128)
  {
    if v >= 128 then v - 256 else v
  }

  /** The 32 bits of a Java `int` read as an unsigned number (what `>>>` sees). */
  function Unsigned32(x: Int32): (r: int)
    ensures 0 <= r < 0x1_0000_0000
    ensures (r - x) % 0x1_0000_0000 == 0
  {
    if x < 0 then x + 0x1_0000_0000 else x
  }

  /** `Math.round` over exact reals: the nearest integer, halves rounded up. */
  function Round(x: real): (r: int)
    ensures x - 0.5 < r as real <= x + 0.5
  {
    (x + 0.5).Floor
  }

  /** A Java `double` result that may be Not-a-Number. */
  datatype JDouble = Num(value: real) | NaN
}
