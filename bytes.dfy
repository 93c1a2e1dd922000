/** Byte buffers as the decoder sees them, and the failures that the
    JavaScript reports by throwing. */
module Bytes {

  type Byte = x: int | 0 <= x < 256

  /** The byte at offset i of a typed-array view over the buffer. An offset
      past either end reads `undefined`, which the decoder only ever uses under
      `|` and `<<`, where it counts as 0. */
  function At(buf: seq<Byte>, i: int): Byte {
    if 0 <= i < |buf| then buf[i] else 0
  }

  /** Little-endian 16-bit value of two bytes, `lo | hi << 8`. */
  function LeU16(lo: Byte, hi: Byte): (v: nat)
    ensures v < 0x1_0000
  {
    lo + 256 * hi
  }

  /** Little-endian 32-bit value of four bytes. */
  function LeU32(b0: Byte, b1: Byte, b2: Byte, b3: Byte): (v: nat)
    ensures v < 0x1_0000_0000
  {
    LeU16(b0, b1) + 0x1_0000 * LeU16(b2, b3)
  }

  /** The two bytes of a 16-bit value, low byte first. */
  function U16Bytes(v: nat): (s: seq<Byte>)
    requires v < 0x1_0000
    ensures |s| == 2 && LeU16(s[0], s[1]) == v
  {
    [v % 256, v / 256]
  }

  /** The four bytes of a 32-bit value, low byte first. */
  function U32Bytes(v: nat): (s: seq<Byte>)
    requires v < 0x1_0000_0000
    ensures |s| == 4 && LeU32(s[0], s[1], s[2], s[3]) == v
  {
    U16Bytes(v % 0x1_0000) + U16Bytes(v / 0x1_0000)
  }

  /** Little-endian decoding is one-to-one: a 16-bit value fixes both bytes. */
  lemma LeU16Injective(lo: Byte, hi: Byte, lo': Byte, hi': Byte)
    requires LeU16(lo, hi) == LeU16(lo', hi')
    ensures lo == lo' && hi == hi'
  {
  }

  /** Why the decoder stops where the JavaScript throws. */
  datatype Fault =
    | OutOfRange   // a RangeError: a typed-array or DataView access outside its buffer
    | BadTree      // a TypeError: the Huffman walk reached an index outside the tree
    | WideField    // a bit-field width above 16 taken from a block header

  datatype Result<+T> = Ok(value: T) | Err(fault: Fault)

  datatype Option<+T> = None | Some(value: T)
}
