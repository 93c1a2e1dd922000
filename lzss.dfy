/** Decoding one compressed block (src/util/mkf.js:122-151): literal runs
    decoded with the Huffman tree alternate with runs of LZSS matches, each
    run length read with getLoop, until a run length of 0 ends the block.
    A match copies `count` bytes, one at a time, from `pos` bytes back in
    the output, so a copy that overlaps its own output repeats a pattern.

    The pure functions here state what the decoder computes; the methods
    after them are the JavaScript loops over the destination array, each
    proved to agree with its function. */
module Lzss {
  import opened Arith
  import opened Bytes
  import opened BitStream
  import opened Headers
  import opened Codes
  import opened Huffman

  /** The destination bytes, the write index `dest` and the bit cursor. */
  datatype Progress = Progress(out: seq<Byte>, dest: nat, pos: nat)

  /** What the loops return: the write index and the cursor; the bytes are
      in the destination array. */
  datatype Cursor = Cursor(dest: nat, pos: nat)

  /** A loop's result and destination agree with the specification's. */
  predicate Agrees(spec: Result<Progress>, r: Result<Cursor>, out: seq<Byte>) {
    match spec
    case Err(f) => r == Err(f)
    case Ok(s) => r == Ok(Cursor(s.dest, s.pos)) && out == s.out
  }

  /** The match copy (src/util/mkf.js:146-149): `count` times, the byte
      `dist` places behind the write index is copied to it and the index
      moves on, so an overlapping copy reads bytes it has just written. The
      read of
      `dest - dist` throws when it is negative and the write throws when
      `dest` is past the end. */
  function CopyMatch(out: seq<Byte>, dest: nat, dist: nat, count: nat): (r: Result<seq<Byte>>)
    ensures r.Ok? <==> count == 0 || (dist <= dest && dest + count <= |out|)
    ensures r.Err? ==> r.fault == OutOfRange
    ensures r.Ok? ==> |r.value| == |out|
    ensures r.Ok? ==> forall j :: 0 <= j < |out| && !(dest <= j < dest + count) ==> r.value[j] == out[j]
    decreases count
  {
    if count == 0 then Ok(out)
    else if dest < dist || dest >= |out| then Err(OutOfRange)
    else CopyMatch(out[dest := out[dest - dist]], dest + 1, dist, count - 1)
  }

  /** Each copied byte is the byte `dist` places back as it stands when it
      is read: before `dest` that is the old output, from `dest` on it is a
      byte this same copy already wrote, and at distance 0 it is the byte
      itself. */
  lemma {:induction false} MatchRecurrence(out: seq<Byte>, dest: nat, dist: nat, count: nat, j: nat)
    requires CopyMatch(out, dest, dist, count).Ok? && dest <= j < dest + count
    ensures var r := CopyMatch(out, dest, dist, count).value;
            r[j] == (if dist == 0 then out[j] else if j - dist < dest then out[j - dist] else r[j - dist])
    decreases count
  {
    var out' := out[dest := out[dest - dist]];
    var r := CopyMatch(out, dest, dist, count).value;
    assert r == CopyMatch(out', dest + 1, dist, count - 1).value;
    if j > dest {
      MatchRecurrence(out', dest + 1, dist, count - 1, j);
    }
  }

  /** An overlapping match repeats the last `dist` bytes before it: byte i
      of the copy is byte i mod dist of that window. */
  lemma {:induction false} MatchPeriodic(out: seq<Byte>, dest: nat, dist: nat, count: nat, i: nat)
    requires CopyMatch(out, dest, dist, count).Ok? && dist > 0 && i < count
    ensures CopyMatch(out, dest, dist, count).value[dest + i] == out[dest - dist + i % dist]
    decreases i
  {
    var j := dest + i;
    MatchRecurrence(out, dest, dist, count, j);
    if i >= dist {
      var i' := i - dist;
      MatchPeriodic(out, dest, dist, count, i');
      ModShift(i, dist, i');
    } else {
      DivModUnique(i, dist, 0, i);
    }
  }

  /** A match at distance 0 rewrites each byte with itself. */
  lemma ZeroDistanceMatch(out: seq<Byte>, dest: nat, count: nat)
    requires CopyMatch(out, dest, 0, count).Ok?
    ensures CopyMatch(out, dest, 0, count).value == out
  {
    var r := CopyMatch(out, dest, 0, count).value;
    forall j | 0 <= j < |out| ensures r[j] == out[j] {
      if dest <= j < dest + count {
        MatchRecurrence(out, dest, 0, count, j);
      }
    }
  }

  /** A literal run of n symbols (src/util/mkf.js:128-137): each is decoded
      by a walk from the root and written at `dest++`. */
  function Literals(tree: seq<Node>, buf: seq<Byte>, base: nat, st: Progress, n: nat): (r: Result<Progress>)
    ensures r.Ok? ==> |r.value.out| == |st.out| && r.value.dest == st.dest + n && r.value.pos >= st.pos
    ensures r.Ok? && n > 0 ==> st.dest + n <= |st.out|
    ensures r.Ok? ==> forall j :: 0 <= j < |st.out| && !(st.dest <= j < st.dest + n) ==> r.value.out[j] == st.out[j]
    decreases n
  {
    if n == 0 then Ok(st)
    else
      match Walk(tree, buf, base, st.pos, 0)
      case Err(f) => Err(f)
      case Ok(sym) =>
        if st.dest >= |st.out| then Err(OutOfRange)
        else Literals(tree, buf, base, Progress(st.out[st.dest := sym.value], st.dest + 1, sym.pos), n - 1)
  }

  /** Every byte a literal run writes is the symbol of a leaf of the tree. */
  lemma {:induction false} LiteralsAreLeafSymbols(tree: seq<Node>, buf: seq<Byte>, base: nat, st: Progress, n: nat, j: nat)
    requires Literals(tree, buf, base, st, n).Ok? && st.dest <= j < st.dest + n
    ensures exists i :: 0 <= i < |tree| && tree[i] == Leaf(Literals(tree, buf, base, st, n).value.out[j])
    decreases n
  {
    var sym := Walk(tree, buf, base, st.pos, 0).value;
    var next := Progress(st.out[st.dest := sym.value], st.dest + 1, sym.pos);
    var r := Literals(tree, buf, base, next, n - 1).value;
    if j == st.dest {
      WalkEndsAtLeaf(tree, buf, base, st.pos, 0);
      assert r.out[j] == next.out[j];
    } else {
      LiteralsAreLeafSymbols(tree, buf, base, next, n - 1, j);
    }
  }

  /** The three reads that open a match (src/util/mkf.js:143-145). */
  datatype MatchHead = MatchHead(count: nat, dist: nat, pos: nat)

  /** The head of a match: its length (getCount), a 2-bit selector, and a
      distance whose width the selector picks from LZSSOffsetCodeLengthTable;
      `pos` is the cursor after the three reads. */
  function ReadMatchHead(h: BlockHeader, buf: seq<Byte>, base: nat, p: nat): (r: Result<MatchHead>)
    ensures GetCount(buf, base, p, h).Err? ==> r == Err(GetCount(buf, base, p, h).fault)
    ensures r.Ok? ==> GetCount(buf, base, p, h).Ok? && r.value.count == GetCount(buf, base, p, h).value.value
    ensures r.Ok? ==> var c := GetCount(buf, base, p, h).value.pos;
                      var sel := StreamBits(buf, base, c, 2);
                      sel < 4 && InView(buf, base, c + 2)
                      && r.value.dist == StreamBits(buf, base, c + 2, h.lzssOffsetCodeLengthTable[sel])
                      && r.value.pos == c + 2 + h.lzssOffsetCodeLengthTable[sel]
    ensures r.Ok? ==> r.value.pos > p
  {
    match GetCount(buf, base, p, h)
    case Err(f) => Err(f)
    case Ok(count) =>
      match ReadBits(buf, base, count.pos, 2)
      case Err(f) => Err(f)
      case Ok(sel) =>
        assert sel.value < 4 by { StreamBitsBound(buf, base, count.pos, 2); }
        match ReadBits(buf, base, sel.pos, h.lzssOffsetCodeLengthTable[sel.value])
        case Err(f) => Err(f)
        case Ok(dist) => Ok(MatchHead(count.value, dist.value, dist.pos))
  }

  /** One match (src/util/mkf.js:143-149): its head, then the copy; `dest`
      moves on by the length. */
  function OneMatch(h: BlockHeader, buf: seq<Byte>, base: nat, st: Progress): (r: Result<Progress>)
    ensures r.Ok? ==> |r.value.out| == |st.out| && r.value.dest >= st.dest && r.value.pos > st.pos
    ensures r.Ok? ==> ReadMatchHead(h, buf, base, st.pos).Ok?
                      && r.value.dest == st.dest + ReadMatchHead(h, buf, base, st.pos).value.count
                      && r.value.pos == ReadMatchHead(h, buf, base, st.pos).value.pos
    ensures r.Ok? ==> forall j :: 0 <= j < |st.out| && !(st.dest <= j < r.value.dest) ==> r.value.out[j] == st.out[j]
    ensures r.Ok? && st.dest <= |st.out| ==> r.value.dest <= |st.out|
    ensures r.Ok? ==> forall j :: 0 <= j < st.dest && j < |st.out| ==> r.value.out[j] == st.out[j]
  {
    match ReadMatchHead(h, buf, base, st.pos)
    case Err(f) => Err(f)
    case Ok(m) =>
      match CopyMatch(st.out, st.dest, m.dist, m.count)
      case Err(f) => Err(f)
      case Ok(out) => Ok(Progress(out, st.dest + m.count, m.pos))
  }

  /** A match run of n matches (src/util/mkf.js:142-150). */
  function Matches(h: BlockHeader, buf: seq<Byte>, base: nat, st: Progress, n: nat): (r: Result<Progress>)
    ensures r.Ok? ==> |r.value.out| == |st.out| && r.value.dest >= st.dest && r.value.pos >= st.pos
    ensures r.Ok? && st.dest <= |st.out| ==> r.value.dest <= |st.out|
    ensures r.Ok? ==> forall j :: 0 <= j < st.dest && j < |st.out| ==> r.value.out[j] == st.out[j]
    decreases n
  {
    if n == 0 then Ok(st)
    else
      match OneMatch(h, buf, base, st)
      case Err(f) => Err(f)
      case Ok(next) => Matches(h, buf, base, next, n - 1)
  }

  /** A match run of k + 1 matches is one match, then k more. */
  lemma MatchesStep(h: BlockHeader, buf: seq<Byte>, base: nat, st: Progress, k: nat)
    ensures OneMatch(h, buf, base, st).Err? ==> Matches(h, buf, base, st, k + 1) == Err(OneMatch(h, buf, base, st).fault)
    ensures OneMatch(h, buf, base, st).Ok? ==>
              Matches(h, buf, base, st, k + 1) == Matches(h, buf, base, OneMatch(h, buf, base, st).value, k)
  {
  }

  /* The loop of a compressed block (src/util/mkf.js:124-151) is the four
     functions below, each the rest of the block from one point of the
     loop: BlockLoop at the first getLoop, LiteralsLeft inside the literal
     loop with n literals to go, MatchLoop at the second getLoop and
     MatchesLeft inside the match loop. The block ends when either getLoop
     returns 0. Every round reads at least one bit, so the rounds are
     bounded by the bits the view can hold. */

  /** The rest of a block from the top of the `for (;;)` loop. */
  function BlockLoop(tree: seq<Node>, h: BlockHeader, buf: seq<Byte>, base: nat, st: Progress): (r: Result<Progress>)
    ensures r.Ok? ==> |r.value.out| == |st.out| && r.value.dest >= st.dest && r.value.pos > st.pos
    ensures r.Ok? ==> forall j :: 0 <= j < st.dest && j < |st.out| ==> r.value.out[j] == st.out[j]
    decreases Budget(buf, st.pos), 0, 0
  {
    match GetLoop(buf, base, st.pos, h)
    case Err(f) => Err(f)
    case Ok(lit) =>
      if lit.value == 0 then Ok(st.(pos := lit.pos))
      else
        BudgetDecreases(buf, base, st.pos, lit.pos);
        LiteralsLeft(tree, h, buf, base, st.(pos := lit.pos), lit.value)
  }

  /** The rest of a block with n literals of the current run to go. */
  function LiteralsLeft(tree: seq<Node>, h: BlockHeader, buf: seq<Byte>, base: nat, st: Progress, n: nat)
    : (r: Result<Progress>)
    ensures r.Ok? ==> |r.value.out| == |st.out| && r.value.dest >= st.dest && r.value.pos > st.pos
    ensures r.Ok? ==> forall j :: 0 <= j < st.dest && j < |st.out| ==> r.value.out[j] == st.out[j]
    decreases Budget(buf, st.pos), 3, n
  {
    if n == 0 then MatchLoop(tree, h, buf, base, st)
    else
      match Walk(tree, buf, base, st.pos, 0)
      case Err(f) => Err(f)
      case Ok(sym) =>
        if st.dest >= |st.out| then Err(OutOfRange)
        else LiteralsLeft(tree, h, buf, base, Progress(st.out[st.dest := sym.value], st.dest + 1, sym.pos), n - 1)
  }

  /** The rest of a block from the getLoop that opens the match run. */
  function MatchLoop(tree: seq<Node>, h: BlockHeader, buf: seq<Byte>, base: nat, st: Progress): (r: Result<Progress>)
    ensures r.Ok? ==> |r.value.out| == |st.out| && r.value.dest >= st.dest && r.value.pos > st.pos
    ensures r.Ok? ==> forall j :: 0 <= j < st.dest && j < |st.out| ==> r.value.out[j] == st.out[j]
    decreases Budget(buf, st.pos), 2, 0
  {
    match GetLoop(buf, base, st.pos, h)
    case Err(f) => Err(f)
    case Ok(m) =>
      if m.value == 0 then Ok(st.(pos := m.pos))
      else MatchesLeft(tree, h, buf, base, st.(pos := m.pos), m.value)
  }

  /** The rest of a block with n matches of the current run to go; after
      the last one the loop starts over. */
  function MatchesLeft(tree: seq<Node>, h: BlockHeader, buf: seq<Byte>, base: nat, st: Progress, n: nat)
    : (r: Result<Progress>)
    ensures r.Ok? ==> |r.value.out| == |st.out| && r.value.dest >= st.dest && r.value.pos > st.pos
    ensures r.Ok? ==> forall j :: 0 <= j < st.dest && j < |st.out| ==> r.value.out[j] == st.out[j]
    decreases Budget(buf, st.pos), 1, n
  {
    if n == 0 then BlockLoop(tree, h, buf, base, st)
    else
      match OneMatch(h, buf, base, st)
      case Err(f) => Err(f)
      case Ok(next) => MatchesLeft(tree, h, buf, base, next, n - 1)
  }

  /** With k + 1 matches to go, the rest of the block is one match, then
      the rest with k to go. */
  lemma MatchesLeftStep(tree: seq<Node>, h: BlockHeader, buf: seq<Byte>, base: nat, st: Progress, k: nat)
    ensures OneMatch(h, buf, base, st).Err? ==>
              MatchesLeft(tree, h, buf, base, st, k + 1) == Err(OneMatch(h, buf, base, st).fault)
    ensures OneMatch(h, buf, base, st).Ok? ==>
              MatchesLeft(tree, h, buf, base, st, k + 1)
              == MatchesLeft(tree, h, buf, base, OneMatch(h, buf, base, st).value, k)
  {
  }

  /** Inside the literal loop the rest of the block is the remaining
      literals, then the match run. */
  lemma {:induction false} LiteralsThenMatches(tree: seq<Node>, h: BlockHeader, buf: seq<Byte>, base: nat, st: Progress, n: nat)
    ensures LiteralsLeft(tree, h, buf, base, st, n)
         == match Literals(tree, buf, base, st, n)
            case Err(f) => Err(f)
            case Ok(s1) => MatchLoop(tree, h, buf, base, s1)
    decreases n
  {
    if n > 0 {
      match Walk(tree, buf, base, st.pos, 0)
      case Err(_) =>
      case Ok(sym) =>
        if st.dest < |st.out| {
          LiteralsThenMatches(tree, h, buf, base, Progress(st.out[st.dest := sym.value], st.dest + 1, sym.pos), n - 1);
        }
    }
  }

  /** Inside the match loop the rest of the block is the remaining matches,
      then the loop from the top. */
  lemma {:induction false} MatchesThenLoop(tree: seq<Node>, h: BlockHeader, buf: seq<Byte>, base: nat, st: Progress, n: nat)
    ensures MatchesLeft(tree, h, buf, base, st, n)
         == match Matches(h, buf, base, st, n)
            case Err(f) => Err(f)
            case Ok(s2) => BlockLoop(tree, h, buf, base, s2)
    decreases n
  {
    if n > 0 {
      var k := n - 1;
      MatchesStep(h, buf, base, st, k);
      MatchesLeftStep(tree, h, buf, base, st, k);
      assert k + 1 == n;
      if OneMatch(h, buf, base, st).Ok? {
        MatchesThenLoop(tree, h, buf, base, OneMatch(h, buf, base, st).value, k);
      }
    }
  }

  /** A block ends exactly where a getLoop call returned 0, in either
      phase: the final cursor is the one that call left, and `q` is where
      that call read. */
  lemma {:induction false} BlockEndsOnZeroRun(tree: seq<Node>, h: BlockHeader, buf: seq<Byte>, base: nat, st: Progress)
    returns (q: nat)
    requires BlockLoop(tree, h, buf, base, st).Ok?
    ensures q >= st.pos && GetLoop(buf, base, q, h) == Ok(Read(0, BlockLoop(tree, h, buf, base, st).value.pos))
    decreases Budget(buf, st.pos), 0, 0
  {
    var lit := GetLoop(buf, base, st.pos, h).value;
    if lit.value == 0 {
      q := st.pos;
    } else {
      BudgetDecreases(buf, base, st.pos, lit.pos);
      q := LiteralsLeftEndOnZeroRun(tree, h, buf, base, st.(pos := lit.pos), lit.value);
    }
  }

  /** BlockEndsOnZeroRun, from inside the literal loop. */
  lemma {:induction false} LiteralsLeftEndOnZeroRun(tree: seq<Node>, h: BlockHeader, buf: seq<Byte>, base: nat, st: Progress, n: nat)
    returns (q: nat)
    requires LiteralsLeft(tree, h, buf, base, st, n).Ok?
    ensures q >= st.pos && GetLoop(buf, base, q, h) == Ok(Read(0, LiteralsLeft(tree, h, buf, base, st, n).value.pos))
    decreases Budget(buf, st.pos), 3, n
  {
    if n == 0 {
      q := MatchLoopEndsOnZeroRun(tree, h, buf, base, st);
    } else {
      var sym := Walk(tree, buf, base, st.pos, 0).value;
      q := LiteralsLeftEndOnZeroRun(tree, h, buf, base, Progress(st.out[st.dest := sym.value], st.dest + 1, sym.pos), n - 1);
    }
  }

  /** BlockEndsOnZeroRun, from the getLoop that opens the match run. */
  lemma {:induction false} MatchLoopEndsOnZeroRun(tree: seq<Node>, h: BlockHeader, buf: seq<Byte>, base: nat, st: Progress)
    returns (q: nat)
    requires MatchLoop(tree, h, buf, base, st).Ok?
    ensures q >= st.pos && GetLoop(buf, base, q, h) == Ok(Read(0, MatchLoop(tree, h, buf, base, st).value.pos))
    decreases Budget(buf, st.pos), 2, 0
  {
    var m := GetLoop(buf, base, st.pos, h).value;
    if m.value == 0 {
      q := st.pos;
    } else {
      q := MatchesLeftEndOnZeroRun(tree, h, buf, base, st.(pos := m.pos), m.value);
    }
  }

  /** BlockEndsOnZeroRun, from inside the match loop with at least one
      match to go. */
  lemma {:induction false} MatchesLeftEndOnZeroRun(tree: seq<Node>, h: BlockHeader, buf: seq<Byte>, base: nat, st: Progress, n: nat)
    returns (q: nat)
    requires n > 0 && MatchesLeft(tree, h, buf, base, st, n).Ok?
    ensures q >= st.pos && GetLoop(buf, base, q, h) == Ok(Read(0, MatchesLeft(tree, h, buf, base, st, n).value.pos))
    decreases Budget(buf, st.pos), 1, n
  {
    var next := OneMatch(h, buf, base, st).value;
    if n > 1 {
      q := MatchesLeftEndOnZeroRun(tree, h, buf, base, next, n - 1);
    } else {
      q := BlockEndsOnZeroRun(tree, h, buf, base, next);
    }
  }

  /** The match copy on the destination array. */
  method CopyMatchInPlace(dst: array<Byte>, dest: nat, dist: nat, count: nat) returns (ok: bool)
    modifies dst
    ensures ok == CopyMatch(old(dst[..]), dest, dist, count).Ok?
    ensures ok ==> dst[..] == CopyMatch(old(dst[..]), dest, dist, count).value
  {
    var d: nat, k: nat := dest, count;
    while k > 0
      invariant CopyMatch(dst[..], d, dist, k) == CopyMatch(old(dst[..]), dest, dist, count)
    {
      if d < dist || d >= dst.Length {
        return false;
      }
      dst[d] := dst[d - dist];
      d, k := d + 1, k - 1;
    }
    return true;
  }

  /** The literal loop `while (loop--)` on the destination array. */
  method LiteralPhase(tree: array<Node>, buf: seq<Byte>, base: nat, dst: array<Byte>, dest: nat, pos: nat, n: nat)
    returns (r: Result<Cursor>)
    modifies dst
    ensures Agrees(Literals(tree[..], buf, base, Progress(old(dst[..]), dest, pos), n), r, dst[..])
  {
    var d: nat, p: nat, k: nat := dest, pos, n;
    while k > 0
      invariant Literals(tree[..], buf, base, Progress(dst[..], d, p), k)
             == Literals(tree[..], buf, base, Progress(old(dst[..]), dest, pos), n)
    {
      var sym := DecodeSymbol(tree, buf, base, p);
      match sym
      case Err(f) =>
        return Err(f);
      case Ok(s) =>
        if d >= dst.Length {
          return Err(OutOfRange);
        }
        dst[d] := s.value;
        d, p, k := d + 1, s.pos, k - 1;
    }
    return Ok(Cursor(d, p));
  }

  /** The body of the match loop on the destination array. */
  method DecodeMatch(h: BlockHeader, buf: seq<Byte>, base: nat, dst: array<Byte>, dest: nat, pos: nat)
    returns (r: Result<Cursor>)
    modifies dst
    ensures Agrees(OneMatch(h, buf, base, Progress(old(dst[..]), dest, pos)), r, dst[..])
  {
    ghost var st := Progress(dst[..], dest, pos);
    var head := ReadMatchHead(h, buf, base, pos);
    if head.Err? {
      return Err(head.fault);
    }
    var m := head.value;
    ghost var copy := CopyMatch(st.out, dest, m.dist, m.count);
    assert OneMatch(h, buf, base, st) == if copy.Ok? then Ok(Progress(copy.value, dest + m.count, m.pos)) else Err(OutOfRange);
    var ok := CopyMatchInPlace(dst, dest, m.dist, m.count);
    if !ok {
      return Err(OutOfRange);
    }
    return Ok(Cursor(dest + m.count, m.pos));
  }

  /** The match loop `while (loop--)` on the destination array. */
  method MatchPhase(h: BlockHeader, buf: seq<Byte>, base: nat, dst: array<Byte>, dest: nat, pos: nat, n: nat)
    returns (r: Result<Cursor>)
    modifies dst
    ensures Agrees(Matches(h, buf, base, Progress(old(dst[..]), dest, pos), n), r, dst[..])
  {
    var d: nat, p: nat, k: nat := dest, pos, n;
    while k > 0
      invariant Matches(h, buf, base, Progress(dst[..], d, p), k)
             == Matches(h, buf, base, Progress(old(dst[..]), dest, pos), n)
    {
      ghost var cur, k0 := Progress(dst[..], d, p), k;
      var next := DecodeMatch(h, buf, base, dst, d, p);
      k := k - 1;
      MatchesStep(h, buf, base, cur, k);
      assert k + 1 == k0;
      if next.Err? {
        return next;
      }
      d, p := next.value.dest, next.value.pos;
    }
    return Ok(Cursor(d, p));
  }

  /** The `for (;;)` loop of a compressed block on the destination array. */
  method DecodeCompressedBlock(tree: array<Node>, h: BlockHeader, buf: seq<Byte>, base: nat, dst: array<Byte>, dest: nat)
    returns (r: Result<Cursor>)
    modifies dst
    ensures Agrees(BlockLoop(tree[..], h, buf, base, Progress(old(dst[..]), dest, 0)), r, dst[..])
  {
    var d: nat, p: nat := dest, 0;
    while true
      invariant BlockLoop(tree[..], h, buf, base, Progress(dst[..], d, p))
             == BlockLoop(tree[..], h, buf, base, Progress(old(dst[..]), dest, 0))
      decreases Budget(buf, p)
    {
      var lit := GetLoop(buf, base, p, h);
      if lit.Err? {
        return Err(lit.fault);
      }
      if lit.value.value == 0 {
        return Ok(Cursor(d, lit.value.pos));
      }
      LiteralsThenMatches(tree[..], h, buf, base, Progress(dst[..], d, lit.value.pos), lit.value.value);
      var s1 := LiteralPhase(tree, buf, base, dst, d, lit.value.pos, lit.value.value);
      if s1.Err? {
        return s1;
      }
      var m := GetLoop(buf, base, s1.value.pos, h);
      if m.Err? {
        return Err(m.fault);
      }
      if m.value.value == 0 {
        return Ok(Cursor(s1.value.dest, m.value.pos));
      }
      MatchesThenLoop(tree[..], h, buf, base, Progress(dst[..], s1.value.dest, m.value.pos), m.value.value);
      var s2 := MatchPhase(h, buf, base, dst, s1.value.dest, m.value.pos, m.value.value);
      if s2.Err? {
        return s2;
      }
      BudgetDecreases(buf, base, p, s2.value.pos);
      d, p := s2.value.dest, s2.value.pos;
    }
  }
}
