/** Little-endian assembly of C# `short` and `long` values from file bytes (`ToShort`, `ToLong`). */
module LittleEndian {

  /** An unsigned 8-bit value, C#'s `byte`. */
  type byte = b: int | 0 <= b < 0x100

  /** A signed 16-bit value, C#'s `short`. */
  type int16 = x: int | -0x8000 <= x < 0x8000

  /** C#'s unchecked narrowing cast `(short)x`: keep the low 16 bits and read them in two's complement. */
  function ToInt16(x: int): (r: int16)
    ensures (x - r) % 0x1_0000 == 0
  {
    var low := x % 0x1_0000;
    if low < 0x8000 then low else low - 0x1_0000
  }

  /** `ToShort(first, second)`: `first` is the low byte, `second` the high byte, and the
      16-bit result is signed, so a high byte of 0x80 or more gives a negative value. */
  function ToShort(first: byte, second: byte): (r: int16)
    ensures r == if second < 0x80 then first + 0x100 * second else first + 0x100 * second - 0x1_0000
    ensures r < 0 <==> second >= 0x80
  {
    ToInt16(second * 0x100 + first)
  }

  /** The two bytes, low byte first, that store the `short` value `v`. */
  function ShortBytes(v: int16): (byte, byte)
  {
    var u := if v < 0 then v + 0x1_0000 else v;
    (u % 0x100, u / 0x100)
  }

  /** Every `short` is read back from the two bytes that store it. */
  lemma ShortRoundTrip(v: int16)
    ensures ToShort(ShortBytes(v).0, ShortBytes(v).1) == v
  {
  }

  /** Two bytes are recovered from the `short` they spell: `ToShort` loses nothing. */
  lemma ShortBytesRoundTrip(first: byte, second: byte)
    ensures ShortBytes(ToShort(first, second)) == (first, second)
  {
  }

  /** `ToLong(first, second, third, fourth)`: an unsigned 32-bit value, low byte first, held in a C#
      `long`, built by three shift-and-add steps starting from the most significant byte. */
  function ToLong(first: byte, second: byte, third: byte, fourth: byte): (r: int)
    ensures r == first + 0x100 * second + 0x1_0000 * third + 0x100_0000 * fourth
    ensures 0 <= r < 0x1_0000_0000
  {
    var result := fourth;
    var result' := result * 0x100 + third;
    var result'' := result' * 0x100 + second;
    result'' * 0x100 + first
  }

  /** The four bytes, low byte first, that store the unsigned 32-bit value `v`. */
  function LongBytes(v: int): (byte, byte, byte, byte)
    requires 0 <= v < 0x1_0000_0000
  {
    var v1 := v / 0x100;
    var v2 := v1 / 0x100;
    (v % 0x100, v1 % 0x100, v2 % 0x100, v2 / 0x100)
  }

  /** Splitting a low byte off `low + 0x100 * high` gives back both parts. */
  lemma SplitLowByte(low: byte, high: nat)
    ensures (low + 0x100 * high) % 0x100 == low && (low + 0x100 * high) / 0x100 == high
  {
  }

  /** Every value below 2^32 is read back from the four bytes that store it. */
  lemma LongRoundTrip(v: int)
    requires 0 <= v < 0x1_0000_0000
    ensures var (a, b, c, d) := LongBytes(v); ToLong(a, b, c, d) == v
  {
  }

  /** Four bytes are recovered from the value they spell: `ToLong` is one-to-one. */
  lemma LongBytesRoundTrip(first: byte, second: byte, third: byte, fourth: byte)
    ensures LongBytes(ToLong(first, second, third, fourth)) == (first, second, third, fourth)
  {
    SplitLowByte(third, fourth);
    SplitLowByte(second, third + 0x100 * fourth);
    SplitLowByte(first, second + 0x100 * (third + 0x100 * fourth));
  }
}
