/** The bit cursor of the decoder (getBits, src/util/mkf.js:41-53).

    A bit stream starts at byte `base` of the buffer. Its 16-bit words are
    little-endian byte pairs, and inside a word the bits are consumed from
    the most significant end, so stream bit k is bit 15 - k mod 16 of word
    k div 16. The JavaScript keeps the cursor as one number whose upper part
    `bitptr >> 4` selects the word and whose low four bits `bitptr & 0xf`
    give the offset inside it; here the cursor p is a natural number and
    the two parts are p / 16 and p % 16. */
module BitStream {
  import opened Arith
  import opened Bytes

  /** A value read from the stream and the cursor position after it. */
  datatype Read = Read(value: nat, pos: nat)

  /** Word w of the stream: `temp[0] | (temp[1] << 8)` over a byte view that
      starts 2 * w bytes after `base`. */
  function Word(buf: seq<Byte>, base: nat, w: nat): (v: nat)
    ensures v < 0x1_0000
  {
    LeU16(At(buf, base + 2 * w), At(buf, base + 2 * w + 1))
  }

  /** Stream bit k, 0 or 1: the reference reading of the format. A bit of
      the first word is bit 15 - k of that word; a later bit is a bit of the
      stream that starts one word (two bytes) further on. */
  function StreamBit(buf: seq<Byte>, base: nat, k: nat): (b: nat)
    ensures b < 2
    decreases k
  {
    if k < 16 then Shr(Word(buf, base, 0), 15 - k) % 2 else StreamBit(buf, base + 2, k - 16)
  }

  /** Stream bit k is bit 15 - k mod 16 of word k div 16. */
  lemma {:induction false} StreamBitInWord(buf: seq<Byte>, base: nat, k: nat)
    ensures StreamBit(buf, base, k) == Shr(Word(buf, base, k / 16), 15 - k % 16) % 2
    decreases k
  {
    if k >= 16 {
      StreamBitInWord(buf, base + 2, k - 16);
      DivModUnique(k, 16, (k - 16) / 16 + 1, (k - 16) % 16);
      assert base + 2 + 2 * ((k - 16) / 16) == base + 2 * (k / 16);
    }
  }

  /** The n stream bits starting at bit p, the first one most significant. */
  function StreamBits(buf: seq<Byte>, base: nat, p: nat, n: nat): nat
    decreases n
  {
    if n == 0 then 0 else 2 * StreamBits(buf, base, p, n - 1) + StreamBit(buf, base, p + n - 1)
  }

  /** getBits: `count` bits (0 to 16) at cursor p, and the cursor moved on
      by `count`. The branches are those of the JavaScript. A read that stays
      inside the current word shifts the word left by the bit offset, keeps
      16 bits and shifts right by 16 - count. A read that crosses into the
      next word keeps the low 16 - bptr bits of the current word (the mask
      `0xffff >> bptr`), shifts them up by the number of spilled bits and
      ORs in the top spilled bits of the next word; the two parts occupy
      disjoint bits, so the OR is written as `+`. */
  function GetBits(buf: seq<Byte>, base: nat, p: nat, count: nat): (r: Read)
    requires count <= 16
    ensures r.pos == p + count
    ensures r.value == StreamBits(buf, base, p, count)
    ensures r.value < Pow2(count)
  {
    StreamBitsBound(buf, base, p, count);
    if count > 16 - p % 16 then
      Read(CrossingBits(buf, base, p, count, 16 - p % 16, count + p % 16 - 16), p + count)
    else
      Read(InWordBits(buf, base, p, count), p + count)
  }

  /** The in-word branch: `((temp << bptr) & 0xffff) >> (16 - count)`. */
  function InWordBits(buf: seq<Byte>, base: nat, p: nat, count: nat): (v: nat)
    requires count <= 16 - p % 16
    ensures v == StreamBits(buf, base, p, count)
  {
    InWordRead(buf, base, p, count);
    Shr(Low(Shl(Word(buf, base, p / 16), p % 16), 16), 16 - count)
  }

  /** The crossing branch, with a = 16 - bptr bits left in the current
      word and `spill` bits taken from the next:
      `((temp & mask) << spill) | (next >> (16 - spill))`. */
  function CrossingBits(buf: seq<Byte>, base: nat, p: nat, count: nat, a: nat, spill: nat): (v: nat)
    requires a == 16 - p % 16 && a + spill == count && spill <= 16
    ensures v == StreamBits(buf, base, p, count)
  {
    CrossingRead(buf, base, p, count, a, spill);
    Shl(Low(Word(buf, base, p / 16), a), spill) + Shr(Word(buf, base, p / 16 + 1), 16 - spill)
  }

  /** Every getBits call first builds `new Uint8Array(src.buffer, offset)`
      at the byte offset of the cursor's word, which throws a RangeError
      when that offset lies past the end of the buffer. An offset at or
      inside the end is accepted, and the missing bytes read as 0. */
  predicate InView(buf: seq<Byte>, base: nat, p: nat) {
    base + 2 * (p / 16) <= |buf|
  }

  /** getBits as the decoder calls it, with a width taken from a block
      header: it fails where the view cannot be built, and a width above 16
      is refused (see README, "Left out"). The value read is given by the
      stream bits, which GetBits is proved to compute in both of its
      branches; the rest of the model reasons about reads through this
      function. */
  function ReadBits(buf: seq<Byte>, base: nat, p: nat, count: nat): (r: Result<Read>)
    ensures r.Ok? <==> InView(buf, base, p) && count <= 16
    ensures !InView(buf, base, p) ==> r == Err(OutOfRange)
    ensures InView(buf, base, p) && count > 16 ==> r == Err(WideField)
    ensures r.Ok? ==> r.value == GetBits(buf, base, p, count)
  {
    if !InView(buf, base, p) then Err(OutOfRange)
    else if count > 16 then Err(WideField)
    else Ok(Read(StreamBits(buf, base, p, count), p + count))
  }

  /** How many more bits a decoder could read before the view at its
      cursor can no longer be built: the measure that makes every decoding
      loop finite. */
  function Budget(buf: seq<Byte>, p: nat): nat {
    if p < 8 * |buf| + 16 then 8 * |buf| + 16 - p else 0
  }

  /** A cursor inside the view is below 8 |buf| + 16, so moving it forward
      uses up budget. */
  lemma BudgetDecreases(buf: seq<Byte>, base: nat, p: nat, q: nat)
    requires InView(buf, base, p) && p < q
    ensures Budget(buf, q) < Budget(buf, p)
  {
  }

  /** A view that can be built at p can be built at every earlier cursor. */
  lemma InViewEarlier(buf: seq<Byte>, base: nat, p: nat, q: nat)
    requires q <= p && InView(buf, base, p)
    ensures InView(buf, base, q)
  {
  }

  /** A one-bit read is the stream bit at the cursor. */
  lemma OneBit(buf: seq<Byte>, base: nat, p: nat)
    ensures StreamBits(buf, base, p, 1) == StreamBit(buf, base, p)
  {
  }

  lemma {:induction false} StreamBitsBound(buf: seq<Byte>, base: nat, p: nat, n: nat)
    ensures StreamBits(buf, base, p, n) < Pow2(n)
    decreases n
  {
    if n > 0 {
      StreamBitsBound(buf, base, p, n - 1);
    }
  }

  /** The last of n bits is the lowest bit of the value. */
  lemma StreamBitsLast(buf: seq<Byte>, base: nat, p: nat, n: nat)
    requires n > 0
    ensures StreamBits(buf, base, p, n) == 2 * StreamBits(buf, base, p, n - 1) + StreamBit(buf, base, p + n - 1)
  {
  }

  /** Reading a + n bits at once is reading a bits, then n more, and
      joining them as `hi << n | lo`. */
  lemma {:induction false} StreamBitsSplit(buf: seq<Byte>, base: nat, p: nat, a: nat, n: nat, total: nat)
    requires total == a + n
    ensures StreamBits(buf, base, p, total)
         == Shl(StreamBits(buf, base, p, a), n) + StreamBits(buf, base, p + a, n)
    decreases n
  {
    if n > 0 {
      StreamBitsSplit(buf, base, p, a, n - 1, total - 1);
      var hi := StreamBits(buf, base, p, a);
      StreamBitsLast(buf, base, p, total);
      StreamBitsLast(buf, base, p + a, n);
      assert p + total - 1 == p + a + n - 1;
      assert Shl(hi, n) == 2 * Shl(hi, n - 1);
    }
  }

  /** Bits that stay inside one word are a field of that word: the c bits
      at the cursor sit k bits above the bottom of the cursor's word. */
  lemma {:induction false} WordField(buf: seq<Byte>, base: nat, p: nat, c: nat, k: nat)
    requires k == 16 - p % 16 - c && p % 16 + c <= 16
    ensures StreamBits(buf, base, p, c) == Low(Shr(Word(buf, base, p / 16), k), c)
  {
    if c > 0 {
      WordField(buf, base, p, c - 1, k + 1);
      BitInWord(buf, base, p, c - 1, k);
      assert StreamBits(buf, base, p, c)
          == 2 * StreamBits(buf, base, p, c - 1) + StreamBit(buf, base, p + (c - 1));
      FieldStep(Word(buf, base, p / 16), k, c);
    }
  }

  /** Stream bit p + j, for j inside the rest of the cursor's word, is bit
      k = 15 - (p % 16 + j) of that word. */
  lemma BitInWord(buf: seq<Byte>, base: nat, p: nat, j: nat, k: nat)
    requires p % 16 + j < 16 && k == 15 - p % 16 - j
    ensures StreamBit(buf, base, p + j) == Shr(Word(buf, base, p / 16), k) % 2
  {
    assert (p + j) / 16 == p / 16 && (p + j) % 16 == p % 16 + j;
    StreamBitInWord(buf, base, p + j);
  }

  /** The in-word branch of getBits reads the stream bits [p, p + count). */
  lemma InWordRead(buf: seq<Byte>, base: nat, p: nat, count: nat)
    requires count <= 16 - p % 16
    ensures Shr(Low(Shl(Word(buf, base, p / 16), p % 16), 16), 16 - count)
         == StreamBits(buf, base, p, count)
  {
    var w, b := Word(buf, base, p / 16), p % 16;
    LowOfShl(w, b, 16 - b);
    ShrOfShl(Low(w, 16 - b), b, 16 - b - count);
    ShrOfLow(w, 16 - b - count, count);
    WordField(buf, base, p, count, 16 - b - count);
  }

  /** The word-crossing branch of getBits reads the stream bits
      [p, p + a + spill) too: the a bits left in the current word, then the
      spilled bits from the top of the next one. */
  lemma CrossingRead(buf: seq<Byte>, base: nat, p: nat, count: nat, a: nat, spill: nat)
    requires a == 16 - p % 16 && a + spill == count && spill <= 16
    ensures Shl(Low(Word(buf, base, p / 16), a), spill) + Shr(Word(buf, base, p / 16 + 1), 16 - spill)
         == StreamBits(buf, base, p, count)
  {
    RestOfWord(buf, base, p, a);
    TopOfNextWord(buf, base, p, a, spill);
    StreamBitsSplit(buf, base, p, a, spill, count);
  }

  /** The a bits from the cursor to the end of its word. */
  lemma RestOfWord(buf: seq<Byte>, base: nat, p: nat, a: nat)
    requires a == 16 - p % 16
    ensures StreamBits(buf, base, p, a) == Low(Word(buf, base, p / 16), a)
  {
    WordField(buf, base, p, a, 0);
  }

  /** The first bits of the word after the cursor's word, which starts a
      bits after the cursor. */
  lemma TopOfNextWord(buf: seq<Byte>, base: nat, p: nat, a: nat, spill: nat)
    requires a == 16 - p % 16 && spill <= 16
    ensures StreamBits(buf, base, p + a, spill) == Shr(Word(buf, base, p / 16 + 1), 16 - spill)
  {
    assert (p + a) / 16 == p / 16 + 1 && (p + a) % 16 == 0;
    WordField(buf, base, p + a, spill, 16 - spill);
    Pow2Sixteen();
    ShrBound(Word(buf, base, p / 16 + 1), 16 - spill, spill);
    LowOfSmall(Shr(Word(buf, base, p / 16 + 1), 16 - spill), spill);
  }

  lemma Pow2Sixteen()
    ensures Pow2(16) == 0x1_0000
  {
    assert Pow2(0) == 1;
    assert Pow2(4) == 16 by { assert Pow2(1) == 2; assert Pow2(2) == 4; assert Pow2(3) == 8; }
    assert Pow2(8) == 256 by { assert Pow2(5) == 32; assert Pow2(6) == 64; assert Pow2(7) == 128; }
    assert Pow2(12) == 4096 by { assert Pow2(9) == 512; assert Pow2(10) == 1024; assert Pow2(11) == 2048; }
    assert Pow2(13) == 8192; assert Pow2(14) == 16384; assert Pow2(15) == 32768;
  }

  /** Two consecutive reads of a and b bits (the second starts where the
      first left the cursor, at p + a) give the same bits as one read of
      a + b bits: the first read is the high part, the second the low. */
  lemma ConsecutiveReads(buf: seq<Byte>, base: nat, p: nat, a: nat, b: nat)
    requires a + b <= 16
    ensures GetBits(buf, base, p + a, b).pos == GetBits(buf, base, p, a + b).pos
    ensures GetBits(buf, base, p, a + b).value
         == Shl(GetBits(buf, base, p, a).value, b) + GetBits(buf, base, p + a, b).value
  {
    StreamBitsSplit(buf, base, p, a, b, a + b);
  }

  /** Past the end of the buffer every stream bit is 0. */
  lemma {:induction false} ShrZero(k: nat)
    ensures Shr(0, k) == 0
  {
    if k > 0 {
      ShrZero(k - 1);
    }
  }

  lemma BitsPastEnd(buf: seq<Byte>, base: nat, k: nat)
    requires base + 2 * (k / 16) >= |buf|
    ensures StreamBit(buf, base, k) == 0
  {
    StreamBitInWord(buf, base, k);
    ShrZero(15 - k % 16);
  }
}
