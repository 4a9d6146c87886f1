/** Bytes, 256-bit words and the big-endian loads shared by every component. */
module Bytes {

  const TWO_64: int := 0x1_0000_0000_0000_0000
  const TWO_256: int := 0x1_0000000000000000_0000000000000000_0000000000000000_0000000000000000

  type byte = b: int | 0 <= b < 256
  type Word = w: int | 0 <= w < TWO_256

  /** 256-bit wrap-around of a sum or difference of two words. */
  lemma Wrap(v: int)
    requires -TWO_256 < v < 2 * TWO_256
    ensures v % TWO_256 == if v < 0 then v + TWO_256 else if v < TWO_256 then v else v - TWO_256
  {
  }

  /** The low limb of a word: `to_uint64()`. */
  function Low64(w: Word): (r: nat)
    ensures r < TWO_64
  {
    w % TWO_64
  }

  /** `read_uint16_be` at offset i. */
  function U16(s: seq<byte>, i: nat): (r: nat)
    requires i + 1 < |s|
    ensures r < 0x1_0000
  {
    0x100 * (s[i] as int) + s[i + 1]
  }

  /** `read_int16_be` at offset i: the same two bytes read as a two's complement number. */
  function I16(s: seq<byte>, i: nat): (r: int)
    requires i + 1 < |s|
    ensures -0x8000 <= r < 0x8000
  {
    var u := U16(s, i);
    if u < 0x8000 then u else u - 0x1_0000
  }

  /** `static_cast<int8_t>`. */
  function Int8(x: int): (r: int)
    ensures -128 <= r < 128
  {
    var m := x % 256;
    if m < 128 then m else m - 256
  }

  /** The cast of a 64-bit value to `int`. */
  function Signed32(x: nat): (r: int)
    ensures -0x8000_0000 <= r < 0x8000_0000
  {
    var m := x % 0x1_0000_0000;
    if m < 0x8000_0000 then m else m - 0x1_0000_0000
  }

  datatype Option<+T> = None | Some(value: T)
}
