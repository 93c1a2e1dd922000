/** The archive as a whole: the file header checks, the Huffman tree, and
    the run of blocks after it (Decompress, src/util/mkf.js:76-155).

    The source is the whole byte buffer of the archive; the destination is
    a byte array of its own length, and DestSize is a separate number the
    caller passes. The JavaScript answers -1 for an archive it rejects and
    the declared uncompressed length otherwise; a RangeError or TypeError
    it throws is a Fault here. */
module Container {
  import opened Bytes
  import opened BitStream
  import opened Headers
  import opened Huffman
  import opened Lzss

  /** The first block header follows the flag bits, rounded up to whole
      16-bit words: `(treeLen & 0xf) ? (treeLen >> 4) + 1 : treeLen >> 4`
      words (for the non-negative treeLen, `& 0xf` and `>> 4` are % 16 and
      / 16). */
  function FirstBlockOffset(treeLen: nat): (r: nat)
    ensures treeLen == 0 ==> r == FlagBase(treeLen)
    ensures treeLen > 0 ==> r == FlagBase(treeLen) + 2 * ((treeLen - 1) / 16) + 2
  {
    var words := if treeLen % 16 != 0 then treeLen / 16 + 1 else treeLen / 16;
    16 + treeLen + 2 * words
  }

  /** The flag area is exactly the words that hold the flag bits: every
      flag bit lies in a word that ends at or before the first block, and
      the last one in the word that ends there. */
  lemma FlagWordsEndAtFirstBlock(treeLen: nat, i: nat)
    requires i < treeLen
    ensures FlagBase(treeLen) + 2 * (i / 16) + 2 <= FirstBlockOffset(treeLen)
    ensures i == treeLen - 1 ==> FlagBase(treeLen) + 2 * (i / 16) + 2 == FirstBlockOffset(treeLen)
  {
  }

  /** The tree's flag bits can all be read exactly when the flag area,
      less its last word, lies within the source: a word that starts right
      at the end of the buffer reads as zero bits, one beyond it throws. */
  lemma FlagsReadableIff(s: seq<Byte>, treeLen: nat)
    ensures FlagsReadable(s, treeLen) <==> treeLen == 0 || FirstBlockOffset(treeLen) <= |s| + 2
  {
  }

  /** The stored-block copy (src/util/mkf.js:116-119), one byte per step
      with both indices moving forward: n source bytes from `src` land at
      `dest`. A read past the source or a write past the destination
      throws. */
  function StoredCopy(s: seq<Byte>, src: nat, out: seq<Byte>, dest: nat, n: nat): (r: Result<seq<Byte>>)
    ensures r.Ok? <==> n == 0 || (src + n <= |s| && dest + n <= |out|)
    ensures r.Err? ==> r.fault == OutOfRange
    ensures r.Ok? ==> |r.value| == |out|
    ensures r.Ok? ==> forall j :: dest <= j < dest + n ==> r.value[j] == s[src + (j - dest)]
    ensures r.Ok? ==> forall j :: 0 <= j < |out| && !(dest <= j < dest + n) ==> r.value[j] == out[j]
  {
    if n == 0 then Ok(out)
    else if src + n > |s| || dest + n > |out| then Err(OutOfRange)
    else Ok(out[..dest] + s[src..src + n] + out[dest + n..])
  }

  /** The destination so far, the write index and the offset of the next
      block header. */
  datatype Decoded = Decoded(out: seq<Byte>, dest: nat, src: nat)

  /** A stored block (src/util/mkf.js:114-120): its UncompressedLength
      bytes follow the first 4 header bytes and are copied as they are; the
      next block starts right after them. */
  function StoredBlock(s: seq<Byte>, h: BlockHeader, out: seq<Byte>, dest: nat, src: nat): (r: Result<Decoded>)
    ensures r.Ok? ==> |r.value.out| == |out| && r.value.dest >= dest
    ensures r.Ok? ==> forall j :: 0 <= j < dest && j < |out| ==> r.value.out[j] == out[j]
  {
    match StoredCopy(s, src + 4, out, dest, h.uncompressedLength)
    case Err(f) => Err(f)
    case Ok(written) => Ok(Decoded(written, dest + h.uncompressedLength, src + 4 + h.uncompressedLength))
  }

  /** The block that a block loop's answer makes, the next block starting
      at `next`. */
  function LoopBlock(loop: Result<Progress>, next: nat): Result<Decoded> {
    match loop
    case Err(f) => Err(f)
    case Ok(p) => Ok(Decoded(p.out, p.dest, next))
  }

  /** A compressed block (src/util/mkf.js:121-152) whose bit stream starts
      at `base` and whose successor starts at `next`. */
  function CompressedBlock(s: seq<Byte>, tree: seq<Node>, h: BlockHeader, base: nat, next: nat,
                           out: seq<Byte>, dest: nat): (r: Result<Decoded>)
    ensures r.Ok? ==> |r.value.out| == |out| && r.value.dest >= dest
    ensures r.Ok? ==> forall j :: 0 <= j < dest && j < |out| ==> r.value.out[j] == out[j]
  {
    LoopBlock(BlockLoop(tree, h, s, base, Progress(out, dest, 0)), next)
  }

  /** One block (src/util/mkf.js:112-152). Its 24-byte header is read
      whatever the block kind, and a CompressedLength of 0 marks a stored
      block. */
  function DecodeBlock(s: seq<Byte>, tree: seq<Node>, out: seq<Byte>, dest: nat, src: nat): (r: Result<Decoded>)
    ensures r.Ok? ==> |r.value.out| == |out| && r.value.dest >= dest
    ensures r.Ok? ==> forall j :: 0 <= j < dest && j < |out| ==> r.value.out[j] == out[j]
  {
    match ParseBlockHeader(s, src)
    case Err(f) => Err(f)
    case Ok(h) =>
      if h.compressedLength == 0 then StoredBlock(s, h, out, dest, src)
      else CompressedBlock(s, tree, h, src + 24, src + h.compressedLength, out, dest)
  }

  /** Block framing: a block needs its 24-byte header; a stored block
      writes UncompressedLength bytes and the next header follows its data;
      a compressed block decodes its bit stream from the header offset
      + 24 with the cursor at 0, and the next header is at the header
      offset + CompressedLength however many bits were read. */
  lemma BlockFraming(s: seq<Byte>, tree: seq<Node>, out: seq<Byte>, dest: nat, src: nat)
    ensures DecodeBlock(s, tree, out, dest, src).Ok? ==> src + 24 <= |s|
    ensures var hd := ParseBlockHeader(s, src);
            hd.Ok? && hd.value.compressedLength == 0 && DecodeBlock(s, tree, out, dest, src).Ok? ==>
              DecodeBlock(s, tree, out, dest, src).value.dest == dest + hd.value.uncompressedLength
              && DecodeBlock(s, tree, out, dest, src).value.src == src + 4 + hd.value.uncompressedLength
    ensures var hd := ParseBlockHeader(s, src);
            hd.Ok? && hd.value.compressedLength != 0 ==>
              DecodeBlock(s, tree, out, dest, src)
              == LoopBlock(BlockLoop(tree, hd.value, s, src + 24, Progress(out, dest, 0)), src + hd.value.compressedLength)
  {
  }

  /** n blocks one after the other (src/util/mkf.js:110-153). */
  function DecodeBlocks(s: seq<Byte>, tree: seq<Node>, out: seq<Byte>, dest: nat, src: nat, n: nat)
    : (r: Result<Decoded>)
    ensures r.Ok? ==> |r.value.out| == |out| && r.value.dest >= dest
    ensures r.Ok? ==> forall j :: 0 <= j < dest && j < |out| ==> r.value.out[j] == out[j]
    decreases n
  {
    if n == 0 then Ok(Decoded(out, dest, src))
    else
      match DecodeBlock(s, tree, out, dest, src)
      case Err(f) => Err(f)
      case Ok(next) => DecodeBlocks(s, tree, next.out, next.dest, next.src, n - 1)
  }

  /** n + 1 blocks are one block, then n more. */
  lemma DecodeBlocksStep(s: seq<Byte>, tree: seq<Node>, out: seq<Byte>, dest: nat, src: nat, n: nat)
    ensures var b := DecodeBlock(s, tree, out, dest, src);
            b.Err? ==> DecodeBlocks(s, tree, out, dest, src, n + 1) == Err(b.fault)
    ensures var b := DecodeBlock(s, tree, out, dest, src);
            b.Ok? ==> DecodeBlocks(s, tree, out, dest, src, n + 1)
                      == DecodeBlocks(s, tree, b.value.out, b.value.dest, b.value.src, n)
  {
  }

  /** Copying the n bytes that sit at `src` writes them at `dest`. */
  lemma StoredCopyWrites(s: seq<Byte>, src: nat, out: seq<Byte>, dest: nat, data: seq<Byte>)
    requires src + |data| <= |s| && s[src..src + |data|] == data && dest + |data| <= |out|
    ensures StoredCopy(s, src, out, dest, |data|) == Ok(out[..dest] + data + out[dest + |data|..])
  {
    if |data| == 0 {
      assert out[..dest] + data + out[dest..] == out;
    }
  }

  /** A stored block round-trips: a header whose UncompressedLength is |data|
      and whose CompressedLength is 0, followed by the data, puts exactly
      the data at the write index and moves on past it. */
  lemma StoredBlockRoundTrip(s: seq<Byte>, out: seq<Byte>, dest: nat, src: nat, data: seq<Byte>)
    requires |data| < 0x1_0000 && src + 24 <= |s| && src + 4 + |data| <= |s|
    requires s[src..src + 4] == U16Bytes(|data|) + [0, 0]
    requires s[src + 4..src + 4 + |data|] == data
    requires dest + |data| <= |out|
    ensures ParseBlockHeader(s, src).Ok? && ParseBlockHeader(s, src).value.compressedLength == 0
    ensures StoredBlock(s, ParseBlockHeader(s, src).value, out, dest, src)
         == Ok(Decoded(out[..dest] + data + out[dest + |data|..], dest + |data|, src + 4 + |data|))
  {
    StoredHeader(s, src, |data|);
    StoredBlockWrites(s, ParseBlockHeader(s, src).value, out, dest, src, data);
  }

  /** A stored block whose UncompressedLength is |data| copies the data
      that follows the first four header bytes. */
  lemma StoredBlockWrites(s: seq<Byte>, h: BlockHeader, out: seq<Byte>, dest: nat, src: nat, data: seq<Byte>)
    requires h.uncompressedLength == |data| && src + 4 + |data| <= |s| && dest + |data| <= |out|
    requires s[src + 4..src + 4 + |data|] == data
    ensures StoredBlock(s, h, out, dest, src)
         == Ok(Decoded(out[..dest] + data + out[dest + |data|..], dest + |data|, src + 4 + |data|))
  {
    StoredCopyWrites(s, src + 4, out, dest, data);
  }

  /** The first four header bytes U16Bytes(n) + [0, 0] read as a stored
      block of n bytes. */
  lemma StoredHeader(s: seq<Byte>, at: nat, n: nat)
    requires n < 0x1_0000 && at + 24 <= |s|
    requires s[at..at + 4] == U16Bytes(n) + [0, 0]
    ensures ParseBlockHeader(s, at).Ok?
    ensures ParseBlockHeader(s, at).value.uncompressedLength == n
    ensures ParseBlockHeader(s, at).value.compressedLength == 0
  {
    var ul := U16Bytes(n);
    assert s[at] == ul[0] && s[at + 1] == ul[1];
    assert s[at + 2] == 0 && s[at + 3] == 0;
  }

  /** What the JavaScript answers when it returns normally: -1, or the
      declared length together with the destination it wrote. */
  datatype Outcome = Rejected | Done(length: nat, out: seq<Byte>)

  /** Decompress, with `out` the destination's bytes on entry: a null
      source, a wrong signature or a declared length above DestSize is
      rejected; a source too short for the file header, the node bytes or
      the flag bits throws; then the blocks are decoded in order with the
      intended tree. */
  function DecompressSpec(source: Option<seq<Byte>>, out: seq<Byte>, destSize: int): (r: Result<Outcome>)
    ensures r.Ok? && r.value.Done? ==> |r.value.out| == |out|
  {
    match source
    case None => Ok(Rejected)
    case Some(s) =>
      match ParseFileHeader(s)
      case Err(f) => Err(f)
      case Ok(hdr) =>
        if hdr.signature != Magic || hdr.uncompressedLength > destSize then Ok(Rejected)
        else
          var treeLen := 2 * hdr.huffmanTreeLength;
          if 16 + treeLen > |s| || !FlagsReadable(s, treeLen) then Err(OutOfRange)
          else
            match DecodeBlocks(s, IntendedTree(s, treeLen), out, 0, FirstBlockOffset(treeLen), hdr.blockCount)
            case Err(f) => Err(f)
            case Ok(st) => Ok(Done(hdr.uncompressedLength, st.out))
  }

  /** Decompress answers -1 exactly for a null source and for a source of
      at least 16 bytes that does not start with "YJ_1" or declares more
      than DestSize bytes; it then leaves the destination alone. */
  lemma RejectedExactly(source: Option<seq<Byte>>, out: seq<Byte>, destSize: int)
    ensures DecompressSpec(source, out, destSize) == Ok(Rejected) <==>
              source.None? ||
              (|source.value| >= 16 &&
               (source.value[..4] != [0x59, 0x4A, 0x5F, 0x31]
                || LeU32(source.value[4], source.value[5], source.value[6], source.value[7]) > destSize))
  {
    if source.Some? && |source.value| >= 16 {
      SignatureIsYJ1(source.value);
    }
  }

  /** The normal answer is the UncompressedLength of the file header, never
      more than DestSize, whatever the blocks wrote. */
  lemma DoneReportsDeclaredLength(source: Option<seq<Byte>>, out: seq<Byte>, destSize: int)
    requires DecompressSpec(source, out, destSize).Ok? && DecompressSpec(source, out, destSize).value.Done?
    ensures var s := source.value;
            |s| >= 16 && s[..4] == [0x59, 0x4A, 0x5F, 0x31]
            && DecompressSpec(source, out, destSize).value.length == LeU32(s[4], s[5], s[6], s[7]) <= destSize
  {
    SignatureIsYJ1(source.value);
  }

  /** A source shorter than the file header throws. */
  lemma ShortSourceThrows(s: seq<Byte>, out: seq<Byte>, destSize: int)
    requires |s| < 16
    ensures DecompressSpec(Some(s), out, destSize) == Err(OutOfRange)
  {
  }

  /** The stored-block copy on the destination array. */
  method StoredCopyInPlace(s: seq<Byte>, src: nat, dst: array<Byte>, dest: nat, n: nat) returns (ok: bool)
    modifies dst
    ensures ok == StoredCopy(s, src, old(dst[..]), dest, n).Ok?
    ensures ok ==> dst[..] == StoredCopy(s, src, old(dst[..]), dest, n).value
  {
    var i := 0;
    while i < n
      invariant 0 <= i <= n
      invariant i > 0 ==> src + i <= |s| && dest + i <= dst.Length
      invariant dst.Length == |old(dst[..])|
      invariant forall j :: 0 <= j < dst.Length && !(dest <= j < dest + i) ==> dst[j] == old(dst[j])
      invariant forall j :: dest <= j < dest + i ==> dst[j] == s[src + (j - dest)]
    {
      if src + i >= |s| || dest + i >= dst.Length {
        return false;
      }
      dst[dest + i] := s[src + i];
      i := i + 1;
    }
    ok := true;
    if n > 0 {
      var want := StoredCopy(s, src, old(dst[..]), dest, n).value;
      assert dst[..] == want;
    }
  }

  /** The write index and the next block's offset after a block. */
  datatype Offsets = Offsets(dest: nat, src: nat)

  /** The block spec's result and the destination agree with a method's. */
  predicate BlockAgrees(spec: Result<Decoded>, r: Result<Offsets>, out: seq<Byte>) {
    match spec
    case Err(f) => r == Err(f)
    case Ok(d) => r == Ok(Offsets(d.dest, d.src)) && out == d.out
  }

  /** A stored block on the destination array. */
  method StoredBlockInPlace(s: seq<Byte>, h: BlockHeader, dst: array<Byte>, dest: nat, src: nat)
    returns (r: Result<Offsets>)
    modifies dst
    ensures BlockAgrees(StoredBlock(s, h, old(dst[..]), dest, src), r, dst[..])
  {
    var ok := StoredCopyInPlace(s, src + 4, dst, dest, h.uncompressedLength);
    if !ok {
      return Err(OutOfRange);
    }
    return Ok(Offsets(dest + h.uncompressedLength, src + 4 + h.uncompressedLength));
  }

  /** The offsets a compressed block leaves, given what its block loop
      answered. */
  function CompressedOffsets(c: Result<Cursor>, next: nat): Result<Offsets> {
    match c
    case Err(f) => Err(f)
    case Ok(cur) => Ok(Offsets(cur.dest, next))
  }

  /** A block loop run on the array that agrees with its spec makes a
      block that agrees with LoopBlock. */
  lemma LoopBlockAgrees(loop: Result<Progress>, c: Result<Cursor>, out: seq<Byte>, next: nat)
    requires Agrees(loop, c, out)
    ensures BlockAgrees(LoopBlock(loop, next), CompressedOffsets(c, next), out)
  {
  }

  /** A compressed block on the destination array. */
  method CompressedBlockInPlace(s: seq<Byte>, tree: array<Node>, h: BlockHeader, base: nat, next: nat,
                                dst: array<Byte>, dest: nat)
    returns (r: Result<Offsets>)
    modifies dst
    ensures BlockAgrees(CompressedBlock(s, tree[..], h, base, next, old(dst[..]), dest), r, dst[..])
  {
    var c := DecodeCompressedBlock(tree, h, s, base, dst, dest);
    LoopBlockAgrees(BlockLoop(tree[..], h, s, base, Progress(old(dst[..]), dest, 0)), c, dst[..], next);
    r := CompressedOffsets(c, next);
  }

  /** The body of the block loop on the destination array. */
  method DecodeBlockInPlace(s: seq<Byte>, tree: array<Node>, dst: array<Byte>, dest: nat, src: nat)
    returns (r: Result<Offsets>)
    modifies dst
    ensures BlockAgrees(DecodeBlock(s, tree[..], old(dst[..]), dest, src), r, dst[..])
  {
    var header := ParseBlockHeader(s, src);
    if header.Err? {
      return Err(header.fault);
    }
    var h := header.value;
    if h.compressedLength == 0 {
      r := StoredBlockInPlace(s, h, dst, dest, src);
    } else {
      r := CompressedBlockInPlace(s, tree, h, src + 24, src + h.compressedLength, dst, dest);
    }
  }

  /** The method's answer and destination agree with DecompressSpec's. */
  predicate Reports(spec: Result<Outcome>, r: Result<int>, before: seq<Byte>, after: seq<Byte>) {
    match spec
    case Err(f) => r == Err(f)
    case Ok(Rejected) => r == Ok(-1) && after == before
    case Ok(Done(n, out)) => r == Ok(n) && after == out
  }

  /** Decompress on the destination array (src/util/mkf.js:76-155). */
  method Decompress(source: Option<seq<Byte>>, dst: array<Byte>, destSize: int) returns (r: Result<int>)
    modifies dst
    ensures Reports(DecompressSpec(source, old(dst[..]), destSize), r, old(dst[..]), dst[..])
  {
    if source.None? {
      return Ok(-1);
    }
    var s := source.value;
    var header := ParseFileHeader(s);
    if header.Err? {
      return Err(header.fault);
    }
    var hdr := header.value;
    if hdr.signature != Magic || hdr.uncompressedLength > destSize {
      return Ok(-1);
    }
    var treeLen := 2 * hdr.huffmanTreeLength;
    if 16 + treeLen > |s| {
      return Err(OutOfRange);
    }
    var tree, ok := BuildTree(s, treeLen);
    if !ok {
      return Err(OutOfRange);
    }
    ghost var spec := DecodeBlocks(s, tree[..], old(dst[..]), 0, FirstBlockOffset(treeLen), hdr.blockCount);
    var dest: nat, src: nat, k: nat := 0, FirstBlockOffset(treeLen), hdr.blockCount;
    while k > 0
      invariant tree[..] == IntendedTree(s, treeLen)
      invariant DecodeBlocks(s, tree[..], dst[..], dest, src, k) == spec
    {
      ghost var cur, k0 := dst[..], k;
      var next := DecodeBlockInPlace(s, tree, dst, dest, src);
      k := k - 1;
      DecodeBlocksStep(s, tree[..], cur, dest, src, k);
      assert k + 1 == k0;
      if next.Err? {
        return Err(next.fault);
      }
      dest, src := next.value.dest, next.value.src;
    }
    return Ok(hdr.uncompressedLength);
  }
}
