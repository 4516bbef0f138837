/**
 * Bytes and 32-bit integers: the unsigned bytes a file is read as, and the
 * big-endian two's-complement `>i4` integers an IDX header is made of.
 */
module Bytes {

  /** One unsigned 8-bit value, as Python `bytes` and numpy `uint8` hold it. */
  type Byte = b: int | 0 <= b < 256

  const TWO_31: int := 0x8000_0000
  const TWO_32: int := 0x1_0000_0000

  /** The range of a signed 32-bit integer (numpy `int32`). */
  predicate IsInt32(x: int) {
    -TWO_31 <= x < TWO_31
  }

  /**
   * The int32 value numpy's scalar arithmetic leaves for a mathematical
   * result x: x reduced modulo 2^32 into the signed range.
   */
  function Wrap32(x: int): (r: int)
    ensures IsInt32(r)
    ensures (x - r) % TWO_32 == 0
    ensures IsInt32(x) ==> r == x
  {
    var u := x % TWO_32;
    if u < TWO_31 then u else u - TWO_32
  }

  /** Four bytes read most-significant first as a two's-complement int32. */
  function BE32(b0: Byte, b1: Byte, b2: Byte, b3: Byte): (r: int)
    ensures IsInt32(r)
    ensures r < 0 <==> b0 >= 128
  {
    var u := ((b0 * 256 + b1) * 256 + b2) * 256 + b3;
    if u < TWO_31 then u else u - TWO_32
  }

  /** The 4-byte big-endian two's-complement encoding of an int32. */
  function EncodeBE32(x: int): (r: seq<Byte>)
    requires IsInt32(x)
    ensures |r| == 4
  {
    var u := if x < 0 then x + TWO_32 else x;
    var q1 := u / 256;
    var q2 := q1 / 256;
    var q3 := q2 / 256;
    [q3, q2 % 256, q1 % 256, u % 256]
  }

  /** Decoding the encoding of an int32 gives it back. */
  lemma EncodeThenDecode(x: int)
    requires IsInt32(x)
    ensures var b := EncodeBE32(x); BE32(b[0], b[1], b[2], b[3]) == x
  {
    var u := if x < 0 then x + TWO_32 else x;
    var q1 := u / 256;
    var q2 := q1 / 256;
    var q3 := q2 / 256;
    assert u == q1 * 256 + u % 256;
    assert q1 == q2 * 256 + q1 % 256;
    assert q2 == q3 * 256 + q2 % 256;
    assert ((q3 * 256 + q2 % 256) * 256 + q1 % 256) * 256 + u % 256 == u;
  }

  /** Encoding the decoded value of four bytes gives the same four bytes. */
  lemma DecodeThenEncode(b0: Byte, b1: Byte, b2: Byte, b3: Byte)
    ensures EncodeBE32(BE32(b0, b1, b2, b3)) == [b0, b1, b2, b3]
  {
    var q2 := b0 * 256 + b1;
    var q1 := q2 * 256 + b2;
    var u := q1 * 256 + b3;
    assert u / 256 == q1 && u % 256 == b3;
    assert q1 / 256 == q2 && q1 % 256 == b2;
    assert q2 / 256 == b0 && q2 % 256 == b1;
  }
}
