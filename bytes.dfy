/** Octets and the big-endian 16-bit fields that every header walked by the model is made of. */
module Bytes {

  type Byte = b: int | 0 <= b < 0x100
  type U16 = x: int | 0 <= x < 0x1_0000

  /** The 16-bit value stored big-endian at data[i], data[i + 1]. */
  function BE16(data: seq<Byte>, i: nat): (r: U16)
    requires i + 2 <= |data|
  {
    (data[i] as int) * 0x100 + data[i + 1] as int
  }

  /** The two big-endian bytes of a 16-bit value. */
  function U16Bytes(v: U16): (r: seq<Byte>)
    ensures |r| == 2 && BE16(r, 0) == v
  {
    [v / 0x100, v % 0x100]
  }

  /** Concatenated big-endian encodings of a list of 16-bit values. */
  function U16ListBytes(xs: seq<U16>): (r: seq<Byte>)
    ensures |r| == 2 * |xs|
  {
    if xs == [] then [] else U16Bytes(xs[0]) + U16ListBytes(xs[1..])
  }
}
