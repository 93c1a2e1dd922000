/** The two small-integer codes of a compressed block (getLoop and getCount,
    src/util/mkf.js:55-74). Both read a short prefix from the bit stream and
    then either take a value from a table of the block header or read a
    field whose width comes from another table. The shared cursor cell
    `bitptr` of the JavaScript is threaded here: each reader takes the cursor
    and returns it moved past what it consumed. */
module Codes {
  import opened Bytes
  import opened BitStream
  import opened Headers

  /** getLoop: the length of the next run of literals or of matches.
      A leading 1 bit selects CodeCountTable[0]. Otherwise a 2-bit selector
      follows; selector 0 selects CodeCountTable[1], and a selector s of 1
      to 3 means "read CodeCountCodeLengthTable[s - 1] more bits". */
  function GetLoop(buf: seq<Byte>, base: nat, p: nat, h: BlockHeader): (r: Result<Read>)
    ensures !InView(buf, base, p) ==> r == Err(OutOfRange)
    ensures InView(buf, base, p) && StreamBit(buf, base, p) == 1 ==>
              r == Ok(Read(h.codeCountTable[0], p + 1))
    ensures InView(buf, base, p) && StreamBit(buf, base, p) == 0 && !InView(buf, base, p + 1) ==>
              r == Err(OutOfRange)
    ensures InView(buf, base, p) && StreamBit(buf, base, p) == 0 && InView(buf, base, p + 1)
              && StreamBits(buf, base, p + 1, 2) == 0 ==>
              r == Ok(Read(h.codeCountTable[1], p + 3))
    ensures InView(buf, base, p) && StreamBit(buf, base, p) == 0 && InView(buf, base, p + 1)
              && StreamBits(buf, base, p + 1, 2) != 0 ==>
              1 <= StreamBits(buf, base, p + 1, 2) <= 3
                  && r == ReadBits(buf, base, p + 3,
                                   h.codeCountCodeLengthTable[StreamBits(buf, base, p + 1, 2) - 1])
    ensures r.Ok? ==> InView(buf, base, p) && r.value.pos > p
  {
    OneBit(buf, base, p);
    match ReadBits(buf, base, p, 1)
    case Err(f) => Err(f)
    case Ok(flag) =>
      if flag.value != 0 then Ok(Read(h.codeCountTable[0], flag.pos))
      else
        match ReadBits(buf, base, flag.pos, 2)
        case Err(f) => Err(f)
        case Ok(sel) =>
          if sel.value != 0 then
            assert sel.value < 4 by { StreamBitsBound(buf, base, p + 1, 2); }
            ReadBits(buf, base, sel.pos, h.codeCountCodeLengthTable[sel.value - 1])
          else Ok(Read(h.codeCountTable[1], sel.pos))
  }

  /** getCount: the length of a match. A 2-bit selector comes first. When
      it is nonzero one more bit follows, and when that bit is set the
      length is read from LZSSRepeatCodeLengthTable[s - 1] further bits.
      In every other case the length is LZSSRepeatTable[0]: the `&&` skips
      the extra bit when the selector is 0, and the table entry is always
      entry 0, whatever the selector. */
  function GetCount(buf: seq<Byte>, base: nat, p: nat, h: BlockHeader): (r: Result<Read>)
    ensures !InView(buf, base, p) ==> r == Err(OutOfRange)
    ensures InView(buf, base, p) && StreamBits(buf, base, p, 2) == 0 ==>
              r == Ok(Read(h.lzssRepeatTable[0], p + 2))
    ensures InView(buf, base, p) && StreamBits(buf, base, p, 2) != 0 && !InView(buf, base, p + 2) ==>
              r == Err(OutOfRange)
    ensures InView(buf, base, p) && StreamBits(buf, base, p, 2) != 0 && InView(buf, base, p + 2)
              && StreamBit(buf, base, p + 2) == 0 ==>
              r == Ok(Read(h.lzssRepeatTable[0], p + 3))
    ensures InView(buf, base, p) && StreamBits(buf, base, p, 2) != 0 && InView(buf, base, p + 2)
              && StreamBit(buf, base, p + 2) == 1 ==>
              1 <= StreamBits(buf, base, p, 2) <= 3
                  && r == ReadBits(buf, base, p + 3,
                                   h.lzssRepeatCodeLengthTable[StreamBits(buf, base, p, 2) - 1])
    ensures r.Ok? ==> InView(buf, base, p) && r.value.pos > p
  {
    OneBit(buf, base, p + 2);
    match ReadBits(buf, base, p, 2)
    case Err(f) => Err(f)
    case Ok(sel) =>
      if sel.value != 0 then
        match ReadBits(buf, base, sel.pos, 1)
        case Err(f) => Err(f)
        case Ok(ext) =>
          if ext.value != 0 then
            assert sel.value < 4 by { StreamBitsBound(buf, base, p, 2); }
            ReadBits(buf, base, ext.pos, h.lzssRepeatCodeLengthTable[sel.value - 1])
          else Ok(Read(h.lzssRepeatTable[0], ext.pos))
      else Ok(Read(h.lzssRepeatTable[0], sel.pos))
  }

  /** getCount never looks at LZSSRepeatTable[1..3]: two headers that differ
      only there give the same result on every stream. */
  lemma GetCountIgnoresRepeatTail(buf: seq<Byte>, base: nat, p: nat, h: BlockHeader, h': BlockHeader)
    requires h' == h.(lzssRepeatTable := h'.lzssRepeatTable)
    requires h'.lzssRepeatTable[0] == h.lzssRepeatTable[0]
    ensures GetCount(buf, base, p, h') == GetCount(buf, base, p, h)
  {
  }
}
