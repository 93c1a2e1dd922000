/** The two fixed little-endian records of a YJ_1 archive: the 16-byte file
    header and the 24-byte header in front of every block
    (src/util/mkf.js:1-39). */
module Headers {
  import opened Bytes

  /** "YJ_1" read as a little-endian 32-bit word. */
  const Magic: nat := 0x315F4A59

  type Table2 = s: seq<nat> | |s| == 2 witness [0, 0]
  type Table3 = s: seq<nat> | |s| == 3 witness [0, 0, 0]
  type Table4 = s: seq<nat> | |s| == 4 witness [0, 0, 0, 0]

  datatype FileHeader = FileHeader(
    signature: nat,
    uncompressedLength: nat,
    compressedLength: nat,   // read but never used by the decoder
    blockCount: nat,
    unknown: nat,            // read but never used by the decoder
    huffmanTreeLength: nat)  // the tree has twice this many nodes below the root
  {
    /** Every field fits the width it is stored in. */
    predicate InRange() {
      signature < 0x1_0000_0000 && uncompressedLength < 0x1_0000_0000
      && compressedLength < 0x1_0000_0000 && blockCount < 0x1_0000
      && unknown < 256 && huffmanTreeLength < 256
    }
  }

  datatype BlockHeader = BlockHeader(
    uncompressedLength: nat,
    compressedLength: nat,            // 0 marks a stored block
    lzssRepeatTable: Table4,          // only entry 0 is ever used
    lzssOffsetCodeLengthTable: Table4,
    lzssRepeatCodeLengthTable: Table3,
    codeCountCodeLengthTable: Table3,
    codeCountTable: Table2)
  {
    predicate InRange() {
      uncompressedLength < 0x1_0000 && compressedLength < 0x1_0000
      && (forall i :: 0 <= i < 4 ==> lzssRepeatTable[i] < 0x1_0000)
      && (forall i :: 0 <= i < 4 ==> lzssOffsetCodeLengthTable[i] < 256)
      && (forall i :: 0 <= i < 3 ==> lzssRepeatCodeLengthTable[i] < 256)
      && (forall i :: 0 <= i < 3 ==> codeCountCodeLengthTable[i] < 256)
      && (forall i :: 0 <= i < 2 ==> codeCountTable[i] < 256)
    }
  }

  function U16At(s: seq<Byte>, off: int): nat
    requires 0 <= off && off + 2 <= |s|
  {
    LeU16(s[off], s[off + 1])
  }

  /** getFileHeader: a DataView read of bytes 0..15; a shorter source makes
      the DataView throw. */
  function ParseFileHeader(s: seq<Byte>): (r: Result<FileHeader>)
    ensures r.Ok? <==> |s| >= 16
    ensures r.Ok? ==> r.value.InRange()
    ensures r.Ok? ==> r.value.signature == LeU32(s[0], s[1], s[2], s[3])
  {
    if |s| < 16 then Err(OutOfRange)
    else Ok(FileHeader(
      LeU32(s[0], s[1], s[2], s[3]),
      LeU32(s[4], s[5], s[6], s[7]),
      LeU32(s[8], s[9], s[10], s[11]),
      U16At(s, 12),
      s[14],
      s[15]))
  }

  /** getBlockHeader over a DataView that starts at `off`; the view must
      reach byte off + 23 or the read throws. */
  function ParseBlockHeader(s: seq<Byte>, off: nat): (r: Result<BlockHeader>)
    ensures r.Ok? <==> off + 24 <= |s|
    ensures r.Ok? ==> r.value.InRange()
  {
    if off + 24 > |s| then Err(OutOfRange)
    else Ok(BlockHeader(
      U16At(s, off),
      U16At(s, off + 2),
      [U16At(s, off + 4), U16At(s, off + 6), U16At(s, off + 8), U16At(s, off + 10)],
      [s[off + 12], s[off + 13], s[off + 14], s[off + 15]],
      [s[off + 16], s[off + 17], s[off + 18]],
      [s[off + 19], s[off + 20], s[off + 21]],
      [s[off + 22], s[off + 23]]))
  }

  /** The byte image of a file header; the inverse of ParseFileHeader. */
  function EncodeFileHeader(h: FileHeader): (e: seq<Byte>)
    requires h.InRange()
    ensures |e| == 16
  {
    U32Bytes(h.signature) + U32Bytes(h.uncompressedLength) + U32Bytes(h.compressedLength)
    + U16Bytes(h.blockCount) + [h.unknown, h.huffmanTreeLength]
  }

  /** The byte image of a block header; the inverse of ParseBlockHeader. */
  function EncodeBlockHeader(h: BlockHeader): (e: seq<Byte>)
    requires h.InRange()
    ensures |e| == 24
  {
    var ul, cl, rt := h.uncompressedLength, h.compressedLength, h.lzssRepeatTable;
    var ot, rc := h.lzssOffsetCodeLengthTable, h.lzssRepeatCodeLengthTable;
    var cc, ct := h.codeCountCodeLengthTable, h.codeCountTable;
    [ul % 256, ul / 256, cl % 256, cl / 256,
     rt[0] % 256, rt[0] / 256, rt[1] % 256, rt[1] / 256, rt[2] % 256, rt[2] / 256, rt[3] % 256, rt[3] / 256,
     ot[0], ot[1], ot[2], ot[3], rc[0], rc[1], rc[2], cc[0], cc[1], cc[2], ct[0], ct[1]]
  }

  /** The file header layout is exactly the 16 bytes at the start of the
      archive, whatever follows them. */
  lemma FileHeaderRoundTrip(h: FileHeader, rest: seq<Byte>)
    requires h.InRange()
    ensures ParseFileHeader(EncodeFileHeader(h) + rest) == Ok(h)
  {
    var s := EncodeFileHeader(h) + rest;
    var a, b, c := U32Bytes(h.signature), U32Bytes(h.uncompressedLength), U32Bytes(h.compressedLength);
    assert s[0..4] == a && s[4..8] == b && s[8..12] == c;
    assert s[12..14] == U16Bytes(h.blockCount);
  }

  /** A block header is exactly the 24 bytes at its offset, whatever
      surrounds them. */
  lemma BlockHeaderRoundTrip(h: BlockHeader, before: seq<Byte>, after: seq<Byte>)
    requires h.InRange()
    ensures ParseBlockHeader(before + EncodeBlockHeader(h) + after, |before|) == Ok(h)
  {
    var e := EncodeBlockHeader(h);
    var s := before + e + after;
    var off := |before|;
    forall k | 0 <= k < 24 ensures s[off + k] == e[k] { }
    var r := ParseBlockHeader(s, off).value;
    assert r.lzssRepeatTable == h.lzssRepeatTable;
    assert r.lzssOffsetCodeLengthTable == h.lzssOffsetCodeLengthTable;
    assert r.lzssRepeatCodeLengthTable == h.lzssRepeatCodeLengthTable;
    assert r.codeCountCodeLengthTable == h.codeCountCodeLengthTable;
    assert r.codeCountTable == h.codeCountTable;
  }

  lemma LeU32Injective(a: seq<Byte>, b: seq<Byte>)
    requires |a| == 4 && |b| == 4
    requires LeU32(a[0], a[1], a[2], a[3]) == LeU32(b[0], b[1], b[2], b[3])
    ensures a == b
  {
    var la, ha := LeU16(a[0], a[1]), LeU16(a[2], a[3]);
    var lb, hb := LeU16(b[0], b[1]), LeU16(b[2], b[3]);
    assert la + 0x1_0000 * ha == lb + 0x1_0000 * hb;
    assert ha == hb && la == lb;
    LeU16Injective(a[0], a[1], b[0], b[1]);
    LeU16Injective(a[2], a[3], b[2], b[3]);
  }

  /** The signature check accepts exactly the archives that start with the
      four characters "YJ_1". */
  lemma SignatureIsYJ1(s: seq<Byte>)
    requires |s| >= 16
    ensures ParseFileHeader(s).value.signature == Magic <==> s[..4] == [0x59, 0x4A, 0x5F, 0x31]
  {
    if ParseFileHeader(s).value.signature == Magic {
      LeU32Injective(s[..4], [0x59, 0x4A, 0x5F, 0x31]);
    }
  }
}
