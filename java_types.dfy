/**
 * Java's fixed-width integer types and the conversions between bytes and
 * characters that the kernel code relies on.  Dafny integers are unbounded,
 * so every place where Java would wrap or truncate goes through these.
 */
module JavaTypes {

  const Int32Min: int := -0x8000_0000
  const Int32Max: int := 0x7fff_ffff

  /** A Java `int`. */
  type int32 = x: int | -0x8000_0000 <= x < 0x8000_0000

  /** A Java reference that may be `null`. */
  datatype Option<T> = None | Some(value: T)

  /** A Java `byte` (signed). */
  type byte = b: int | -128 <= b < 128

  /** The `int` Java computes for an exact result `x`: two's-complement wrap-around. */
  function Wrap32(x: int): (r: int32)
    ensures (r - x) % 0x1_0000_0000 == 0
    ensures Int32Min <= x <= Int32Max ==> r == x
  {
    (x + 0x8000_0000) % 0x1_0000_0000 - 0x8000_0000
  }

  /** Doubling commutes with wrap-around: `2 * (int) x` wraps to the same value as `2 * x`. */
  lemma Wrap32Double(x: int)
    ensures Wrap32(2 * Wrap32(x)) == Wrap32(2 * x)
  {
    var m := 0x1_0000_0000;
    var q := (x + 0x8000_0000) / m;
    assert x + 0x8000_0000 == q * m + (x + 0x8000_0000) % m;
    assert 2 * Wrap32(x) + 0x8000_0000 == (2 * x + 0x8000_0000) + (-2 * q) * m;
    ModShift(2 * x + 0x8000_0000, -2 * q);
  }

  lemma ModShift(a: int, k: int)
    ensures (a + k * 0x1_0000_0000) % 0x1_0000_0000 == a % 0x1_0000_0000
  {
  }

  /** `(char) b` for a Java byte: the byte is sign-extended, then cut to 16 bits. */
  function ByteToChar(b: byte): (c: char)
    ensures 0 <= b ==> c as int == b
    ensures b < 0 ==> c as int == b + 0x1_0000
  {
    if b < 0 then (b + 0x1_0000) as char else b as char
  }

  /** `(byte) c` for a Java char: its low eight bits, read as a signed byte. */
  function CharToByte(c: char): (b: byte)
    ensures (b - c as int) % 256 == 0
  {
    var low := c as int % 256;
    if low < 128 then low else low - 256
  }

  /** Casting a byte to a char and back gives the byte again. */
  lemma CharToByteToChar(b: byte)
    ensures CharToByte(ByteToChar(b)) == b
  {
  }
}
