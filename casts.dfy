/** The C# value types the generator works with, and its unchecked casts to them. */
module Casts {
  /** C#'s `byte`. */
  type Byte = b: int | 0 <= b < 256

  /** C#'s `char`: one UTF-16 code unit (surrogates included, unlike Dafny's `char`). */
  type Char16 = c: int | 0 <= c < 0x1_0000

  /** `byte.MaxValue`. */
  const ByteMaxValue: Byte := 255

  /**
   * The unchecked conversion `(byte) x`: the low eight bits of the two's-complement
   * value, i.e. the one byte congruent to `x` modulo 256. Because 2^32 is a multiple
   * of 256, this is also the result when `x` is a wrapped 32-bit sum.
   */
  function ToByte(x: int): (b: Byte)
    ensures (x - b) % 256 == 0
    ensures 0 <= x < 256 ==> b == x
  {
    x % 256
  }

  /** Casting part way through a sum does not change the byte the sum ends on. */
  lemma ToByteAdd(x: int, y: int)
    ensures ToByte(ToByte(x) + y) == ToByte(x + y)
  {
    var q := x / 256;
    assert x == 256 * q + ToByte(x);
    assert ToByte(x) + y == (x + y) - 256 * q;
  }

  /** One more than a byte, as a byte: 255 wraps around to 0. */
  lemma ToByteNext(x: int)
    ensures ToByte(x + 1) == if ToByte(x) == ByteMaxValue then 0 else ToByte(x) + 1
  {
    ToByteAdd(x, 1);
  }

  /** One less than a byte, as a byte: 0 wraps around to 255. */
  lemma ToBytePrev(x: int)
    ensures ToByte(x - 1) == if ToByte(x) == 0 then ByteMaxValue else ToByte(x) - 1
  {
    ToByteAdd(x, -1);
  }

  /** The unchecked conversion `(char) x`: the UTF-16 code unit congruent to `x` modulo 2^16. */
  function ToChar16(x: int): (c: Char16)
    ensures (x - c) % 0x1_0000 == 0
    ensures 0 <= x < 0x1_0000 ==> c == x
  {
    x % 0x1_0000
  }
}
