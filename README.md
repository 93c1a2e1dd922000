# YJ_1 archive decompressor, modelled in Dafny

This project models the YJ_1 decompressor of `src/util/mkf.js`. A YJ_1 archive is laid out as follows:
- a 16-byte file header;
- a static Huffman tree, stored as one byte per node followed by one flag bit per node;
- a run of blocks, each with a 24-byte header.

A block is one of two kinds:
- A stored block holds raw bytes, copied as they are.
- A compressed block is one bit stream in which literal runs alternate with runs of LZSS matches. Literals are decoded with the Huffman tree. A match copies `count` bytes from `pos` bytes back in the output. The length of every run is read with `getLoop`, and the block ends when a run length is 0.

The modules follow the layers of the decoder:

- `Bytes`: bytes and little-endian fields. A read past the end of a typed array gives 0. `Result` models the JavaScript exceptions as faults.
- `Arith`: the shifts and masks of the bit cursor, on naturals.
- `Headers`: `getFileHeader` and `getBlockHeader`, with the byte images that invert them.
- `BitStream`: `getBits` and the bit stream it reads.
  - Stream bit k is bit 15 - k mod 16 of the little-endian 16-bit word k div 16.
  - Both branches of `getBits` are proved to return the stream bits at the cursor.
- `Codes`: `getLoop` and `getCount`, as pure functions that thread the cursor.
- `Huffman`: the tree-building loop, the walk that decodes one literal, and the walk as it goes over the array the code actually builds (see Findings).
- `Lzss`: one compressed block. Pure functions state what the decoder computes. Methods over the destination array mirror the JavaScript loops and are proved equal to those functions.
- `Container`: `Decompress` as a whole. This covers the rejection checks, block framing, stored blocks and the block loop. There is a pure specification, `DecompressSpec`, and the in-place method `Decompress`, which is proved to agree with it.

The source is a `seq<Byte>` holding the whole archive. The destination is an `array<Byte>`. The cursor cell `bitptr[0]` becomes a natural that is passed in and returned.

A JavaScript `RangeError` or `TypeError` becomes `Err(fault)`. A width above 16 taken from a block header also becomes an `Err`. The answer -1 is `Rejected`; in the method it is `Ok(-1)`.

## Model

| member | source | states |
|---|---|---|
| Headers.ParseFileHeader | src/util/mkf.js:1-8 | succeeds exactly when the source has 16 bytes; every field fits its stored width; the signature is the little-endian word of bytes 0..3 |
| Headers.ParseBlockHeader | src/util/mkf.js:10-39 | succeeds exactly when 24 bytes are available at the offset; every field and table entry fits its stored width |
| Headers.FileHeaderRoundTrip | src/util/mkf.js:1-8 | parsing the 16-byte image of any in-range file header, followed by anything, gives that header back |
| Headers.BlockHeaderRoundTrip | src/util/mkf.js:10-39 | parsing the 24-byte image of any in-range block header, at any offset and with anything around it, gives that header back |
| Headers.SignatureIsYJ1 | src/util/mkf.js:79 | the signature check accepts exactly the sources whose first four bytes are "YJ_1" |
| BitStream.StreamBitInWord | src/util/mkf.js:42-43 | stream bit k is bit 15 - k mod 16 of the little-endian word at byte 2 (k div 16) |
| BitStream.GetBits | src/util/mkf.js:41-53 | the cursor advances by exactly `count`; the value is the `count` stream bits at the cursor, MSB first, and is below 2^count |
| BitStream.InWordBits | src/util/mkf.js:49-52 | the in-word branch `((w << bptr) & 0xffff) >> (16 - count)` returns the stream bits at the cursor |
| BitStream.CrossingBits | src/util/mkf.js:45-48 | the word-crossing branch (mask, shift and the top bits of the next word) returns the stream bits at the cursor |
| BitStream.ReadBits | src/util/mkf.js:41-44 | a read fails with OutOfRange exactly when its word offset is past the buffer end, and with WideField for a width above 16; otherwise it is getBits |
| BitStream.StreamBitsBound | src/util/mkf.js:41-53 | n stream bits form a value below 2^n |
| BitStream.StreamBitsSplit | src/util/mkf.js:45-52 | a + n bits at p are the a bits at p shifted up by n, plus the n bits at p + a |
| BitStream.ConsecutiveReads | src/util/mkf.js:41-53 | a read of a bits followed by a read of b bits (a + b <= 16) equals one read of a + b bits split as `hi << b \| lo`, and ends at the same cursor |
| BitStream.BitsPastEnd | src/util/mkf.js:42 | every stream bit of a word that starts at or past the end of the buffer is 0 |
| Codes.GetLoop | src/util/mkf.js:55-66 | a leading 1 gives CodeCountTable[0] after 1 bit; 0 then selector 00 gives CodeCountTable[1] after 3 bits; selector s in 1..3 reads CodeCountCodeLengthTable[s - 1] more bits; a read past the view fails; the cursor always advances |
| Codes.GetCount | src/util/mkf.js:68-74 | selector 0 gives LZSSRepeatTable[0] after 2 bits; a nonzero selector and a clear bit give LZSSRepeatTable[0] after 3 bits; a nonzero selector and a set bit read LZSSRepeatCodeLengthTable[s - 1] more bits |
| Codes.GetCountIgnoresRepeatTail | src/util/mkf.js:73 | entries 1..3 of LZSSRepeatTable never affect getCount |
| Huffman.IntendedTree | src/util/mkf.js:88-106 | treeLen + 1 nodes with root 0 an internal node over 1 and 2; every internal node's children are adjacent and lie in 1..512, so no walk returns to the root; every leaf is a node i >= 1 holding the stored byte 15 + i |
| Huffman.BuildTree | src/util/mkf.js:88-106 | the loop succeeds exactly when every flag bit can be read, and then builds exactly the intended tree |
| Huffman.Walk | src/util/mkf.js:129-135 | a decoded literal is a byte and the walk never moves the cursor back |
| Huffman.WalkFollowsPath | src/util/mkf.js:129-135 | a successful walk's consumed bits spell a path from the start node to a leaf (1 right, 0 left), and the decoded value is that leaf's byte |
| Huffman.WalkTakesPath | src/util/mkf.js:129-135 | conversely, readable bits that spell a path from the start node to a leaf make the walk return that leaf's byte, with the cursor right after the path |
| Huffman.WalkEndsAtLeaf | src/util/mkf.js:129-136 | every decoded literal is the byte of some leaf of the tree |
| Huffman.DecodedSymbolIsStored | src/util/mkf.js:97 | with the intended tree, every decoded literal is one of the node bytes at offsets 16..15 + treeLen |
| Huffman.DecodeSymbol | src/util/mkf.js:128-135 | the `for (; !tree[nodeIndex].leaf;)` loop over the tree array computes Walk |
| Huffman.WalkAsWritten | src/util/mkf.js:88-104 | on the array the code actually builds, every literal walk throws |
| Huffman.AsWrittenLosesFirstLiteral | src/util/mkf.js:129-130 | when node 1 is a leaf and the first bit is 0, the intended tree decodes byte 16 after one bit while the code as written throws |
| Lzss.CopyMatch | src/util/mkf.js:146-149 | the copy succeeds exactly when count is 0 or (pos <= dest and dest + count fits); it changes nothing outside [dest, dest + count) |
| Lzss.MatchRecurrence | src/util/mkf.js:146-149 | each copied byte equals the byte `pos` back as it stands when read: old output before dest, bytes of this copy after it |
| Lzss.MatchPeriodic | src/util/mkf.js:146-149 | an overlapping match repeats the window of the last `pos` bytes: byte i of the copy is window byte i mod pos |
| Lzss.ZeroDistanceMatch | src/util/mkf.js:146-149 | a match at distance 0 leaves the output unchanged |
| Lzss.Literals | src/util/mkf.js:128-137 | a run of n literals advances dest by exactly n, fits the destination, and changes nothing outside [dest, dest + n) |
| Lzss.LiteralsAreLeafSymbols | src/util/mkf.js:129-136 | every byte a literal run writes is the symbol of a leaf |
| Lzss.ReadMatchHead | src/util/mkf.js:143-145 | the match length is getCount's; the distance is read with width LZSSOffsetCodeLengthTable[sel] for the 2-bit selector sel that follows it; the cursor ends after the three reads |
| Lzss.OneMatch | src/util/mkf.js:143-149 | a match advances dest by exactly its length, changes nothing outside [dest, dest + count), and moves the cursor on |
| Lzss.Matches | src/util/mkf.js:142-150 | a run of matches keeps the output length, never moves dest back, and leaves every byte before dest unchanged |
| Lzss.BlockLoop | src/util/mkf.js:124-151 | a decoded block keeps the output length, never moves dest back, advances the cursor and leaves every byte before the start unchanged |
| Lzss.LiteralsThenMatches | src/util/mkf.js:128-140 | inside the literal loop, the rest of the block is the remaining literals, then the getLoop of the match phase |
| Lzss.MatchesThenLoop | src/util/mkf.js:142-151 | inside the match loop, the rest of the block is the remaining matches, then the loop from the top |
| Lzss.BlockEndsOnZeroRun | src/util/mkf.js:124-140 | a block ends exactly where a getLoop call, in either phase, returned 0; the final cursor is the one that call left |
| Lzss.CopyMatchInPlace | src/util/mkf.js:146-149 | the byte-by-byte copy on the destination array computes CopyMatch |
| Lzss.LiteralPhase | src/util/mkf.js:128-137 | the literal `while (loop--)` on the destination array computes Literals |
| Lzss.DecodeMatch | src/util/mkf.js:143-149 | one match body on the destination array computes OneMatch |
| Lzss.MatchPhase | src/util/mkf.js:142-150 | the match `while (loop--)` on the destination array computes Matches |
| Lzss.DecodeCompressedBlock | src/util/mkf.js:124-151 | the `for (;;)` loop with the cursor reset to 0 computes BlockLoop |
| Container.FirstBlockOffset | src/util/mkf.js:108 | the first block header is at 16 + treeLen + 2 ceil(treeLen / 16) |
| Container.FlagWordsEndAtFirstBlock | src/util/mkf.js:108 | every flag bit's word ends at or before the first block header, and the last one's word ends exactly there |
| Container.FlagsReadableIff | src/util/mkf.js:95-108 | the flag bits can all be read exactly when the first block header lies at most one word past the source end |
| Container.StoredCopy | src/util/mkf.js:116-119 | the copy succeeds exactly when source and destination hold n bytes; the n bytes land at dest; nothing else changes |
| Container.StoredBlock | src/util/mkf.js:114-120 | a stored block keeps the output length, never moves dest back and leaves the bytes before dest unchanged |
| Container.CompressedBlock | src/util/mkf.js:121-152 | a compressed block keeps the output length, never moves dest back and leaves the bytes before dest unchanged |
| Container.DecodeBlock | src/util/mkf.js:112-152 | one block, of either kind, keeps the output length and the bytes before dest |
| Container.BlockFraming | src/util/mkf.js:113-152 | a block needs 24 header bytes; a stored block advances dest by UncompressedLength and the next header follows its data at +4; a compressed block decodes from header + 24 with the cursor at 0, and the next header is at header + CompressedLength |
| Container.DecodeBlocks | src/util/mkf.js:110-153 | BlockCount blocks in order keep the output length and the bytes before the start |
| Container.StoredBlockRoundTrip | src/util/mkf.js:113-120 | a header with CompressedLength 0 and UncompressedLength \|data\|, followed by the data, writes exactly the data at dest and frames the next block right after it |
| Container.DecompressSpec | src/util/mkf.js:76-155 | a completed decompression reports a destination image of the destination's own length |
| Container.RejectedExactly | src/util/mkf.js:77-80 | the answer is -1 exactly for a null source, or a source of at least 16 bytes that does not start with "YJ_1" or declares more than DestSize bytes |
| Container.DoneReportsDeclaredLength | src/util/mkf.js:154 | the normal answer is the header's UncompressedLength, which is at most DestSize, not the number of bytes written |
| Container.ShortSourceThrows | src/util/mkf.js:78 | a source shorter than 16 bytes throws |
| Container.StoredCopyInPlace | src/util/mkf.js:116-119 | the `while (hul--)` copy on the destination array computes StoredCopy |
| Container.StoredBlockInPlace | src/util/mkf.js:114-120 | a stored block on the destination array computes StoredBlock |
| Container.CompressedBlockInPlace | src/util/mkf.js:121-152 | a compressed block on the destination array computes CompressedBlock |
| Container.DecodeBlockInPlace | src/util/mkf.js:112-152 | the body of the block loop on the destination array computes DecodeBlock |
| Container.Decompress | src/util/mkf.js:76-155 | the method returns what DecompressSpec says; on a rejection it leaves the destination unchanged, and on completion the destination holds the decoded image |

## Left out

- Typed-array views: `DataView` and `Uint8Array` construction and re-windowing are not modelled.
  - The source is taken to be its whole buffer, with byte offset 0.
  - Every view becomes an offset into the source.
  - A view that would start past the end of the buffer is an `OutOfRange` fault.
- BitStream.ReadBits: a width above 16 taken from a block header gives `WideField`. The JavaScript 32-bit shift results for such widths are not modelled. This also affects Codes.GetLoop, Codes.GetCount and Lzss.ReadMatchHead.
- BitStream.GetBits: the cursor is an unbounded natural. The 32-bit `>> 4` and `& 0xf` of a cursor of 2^31 or more are not modelled.
- Container.Decompress: on a fault the contents of the destination are not specified. The JavaScript leaves whatever it wrote before throwing.
- Container.DecompressSpec: DestSize is an integer. A non-integer or non-number DestSize is not modelled, and a null source is `None`.
- The file header's `CompressedLength` and `Unknown` are kept in its record but never used.
- Huffman.Node drops the tree nodes' `level` and `weight`, which the decoder never reads, and an internal node's `value`, which is used only to compute its children.
- The module export `exports.unzip` is not modelled.
- Headers.EncodeFileHeader and Headers.EncodeBlockHeader have no counterpart in the decoder. They exist only as the inverses for the header round-trip lemmas.
- Container.StoredBlockRoundTrip is stated over StoredBlock and ParseBlockHeader rather than over DecodeBlock. Container.BlockFraming gives the step from one to the other.
- The array the code actually builds is not modelled as data. Only the walk over it is, by Huffman.WalkAsWritten. Every other member uses the intended tree (see Findings).

## Findings

| source | as written | input that shows it | evidently intended | confidence | as-written member | corrected member |
|---|---|---|---|---|---|---|
| src/util/mkf.js:88-104 | `fill` puts one shared object in every slot, and that object spells its field `lear`. Each slot 1..treeLen is then overwritten with a boolean and at once with a bare number, so `.leaf` is undefined and the child links are never stored. The first literal walk throws a TypeError. | an archive whose node 1 is a leaf (flag bit 0 clear) and a compressed block whose first literal starts with a 0 bit | an arena tree: node i is a leaf when flag bit i - 1 is clear, holds byte 15 + i, and an internal node with byte v has children 2v + 1 and 2v + 2 | not executed | Huffman.AsWrittenLosesFirstLiteral | Huffman.WalkFollowsPath |
