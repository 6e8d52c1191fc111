/** Value types shared by the model: octets, Java's 32-bit `int`, and the
    Option/Result/Outcome wrappers used for absent values and error paths. */
module Common {

  /** An octet, as the Java `byte[]` arrays carry it (read as unsigned). */
  type byte = x: int | 0 <= x < 0x100

  /** The values a Java `int` (or a non-null `Integer`) can hold. */
  type int32 = x: int | -0x8000_0000 <= x < 0x8000_0000

  /** Java's `null` or a value. */
  datatype Option<T> = None | Some(value: T)

  /** A value or the error that stopped its computation. */
  datatype Result<T, E> = Ok(value: T) | Err(error: E)

  /** Success of an operation that returns nothing, or its error. */
  datatype Outcome<E> = Pass | Fail(error: E)

  /** Java's two's-complement `int` arithmetic: the representative of `x`
      modulo 2^32 in the range of an `int`. */
  function Wrap32(x: int): (r: int32)
    ensures (x - r) % 0x1_0000_0000 == 0
    ensures -0x8000_0000 <= x < 0x8000_0000 ==> r == x
  {
    (x + 0x8000_0000) % 0x1_0000_0000 - 0x8000_0000
  }

  /** Java's integer division, which truncates toward zero. */
  function JavaDiv(a: int, b: int): (q: int)
    requires b > 0
    ensures a >= 0 ==> 0 <= a - q * b < b
    ensures a < 0 ==> -b < a - q * b <= 0
  {
    if a >= 0 then a / b else -((-a) / b)
  }

  /** Bitwise exclusive or of two octets. */
  function XorByte(a: byte, b: byte): byte
  {
    ((a as bv8) ^ (b as bv8)) as int
  }
}
