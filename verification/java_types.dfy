/** Java primitive values the client works with: 32-bit `int`, signed 8-bit `byte`,
    the narrowing cast `(byte)` and the two's-complement bit pattern of an `int`,
    plus the exceptions and the result wrapper the rest of the model uses. */
module JavaTypes {

  /** A Java `int`. */
  type Int32 = n: int | -0x8000_0000 <= n < 0x8000_0000

  /** A Java `byte`: signed, -128 to 127. */
  type JByte = b: int | -128 <= b <= 127

  /** The exceptions the client lets escape to its caller. */
  datatype JavaException =
    | IllegalArgument       // odd-length hex string
    | UnsupportedOperation  // the length-prefixed write variant

  /** A value, or the exception thrown instead of returning one. */
  datatype Result<+T> = Success(value: T) | Failure(error: JavaException)

  /** The Java narrowing cast `(byte) n`: keep the low 8 bits, read them as signed. */
  function ToByte(n: int): (b: JByte)
    ensures (b - n) % 256 == 0
    ensures -128 <= n <= 127 ==> b == n
  {
    (n + 128) % 256 - 128
  }

  /** The cast is determined by its two promises: a byte congruent to `n` modulo 256 is `ToByte(n)`. */
  lemma ToByteUnique(n: int, b: JByte)
    requires (b - n) % 256 == 0
    ensures b == ToByte(n)
  {
  }

  /** The value of a byte read as unsigned (`b & 0xff` in Java). */
  function Unsigned(b: JByte): (u: int)
    ensures 0 <= u < 256
  {
    if b < 0 then b + 256 else b
  }

  /** Reading a byte as unsigned and casting back gives the byte again. */
  lemma UnsignedRoundTrip(b: JByte)
    ensures ToByte(Unsigned(b)) == b
  {
  }

  /** The two's-complement bit pattern of an `int`. */
  function Word32(n: Int32): bv32
  {
    (if n < 0 then n + 0x1_0000_0000 else n) as bv32
  }

  /** The low 8 bits of a word, as an unsigned number. */
  function Low8(w: bv32): int
  {
    (w & 0xFF) as int
  }
}
