/** The static Huffman tree of a YJ_1 archive and the walk that decodes one
    literal with it (src/util/mkf.js:84-106 and 129-136).

    The archive stores treeLen = 2 * HuffmanTreeLength node bytes at offset
    16 and, right after them, one flag bit per node in the bit-stream layout
    of BitStream. Node 0 is the root, an internal node whose children are 1
    and 2. Node i (1 <= i <= treeLen) is a leaf when its flag bit i - 1 is 0;
    its byte v is then the decoded symbol, and otherwise the node is internal
    with children 2v + 1 and 2v + 2. A walk starts at the root and takes one
    stream bit per internal node: 1 goes right, 0 goes left.

    This is the tree the code sets out to build. The JavaScript itself does
    not build it: `fill` puts one shared object in every slot, that object
    spells its leaf field `lear`, and each slot 1..treeLen is then
    overwritten with a boolean and at once with a bare number, so `.leaf` is
    undefined and the child links are never stored. WalkAsWritten models
    what the code does with that array; Walk and the rest of the model use
    the intended tree. */
module Huffman {
  import opened Bytes
  import opened BitStream

  datatype Node = Leaf(symbol: Byte) | Internal(left: nat, right: nat)

  /** The flag bits start right after the node bytes. */
  function FlagBase(treeLen: nat): nat {
    16 + treeLen
  }

  /** Node i of the intended tree, 1 <= i <= treeLen. */
  function NodeAt(source: seq<Byte>, treeLen: nat, i: nat): Node
    requires 1 <= i <= treeLen && 16 + treeLen <= |source|
  {
    var v: nat := source[15 + i];
    if StreamBit(source, FlagBase(treeLen), i - 1) == 0 then Leaf(source[15 + i])
    else Internal(2 * v + 1, 2 * v + 2)
  }

  /** The whole intended tree: the root, then nodes 1..treeLen. Every
      internal node has two adjacent children between 1 and 512, so a walk
      never comes back to the root, and every leaf holds the node byte
      stored for it. */
  function IntendedTree(source: seq<Byte>, treeLen: nat): (t: seq<Node>)
    requires 16 + treeLen <= |source|
    ensures |t| == treeLen + 1 && t[0] == Internal(1, 2)
    ensures forall i :: 0 <= i < |t| && t[i].Internal? ==> 1 <= t[i].left && t[i].right == t[i].left + 1 <= 512
    ensures forall i :: 0 <= i < |t| && t[i].Leaf? ==> 1 <= i && t[i].symbol == source[15 + i]
  {
    [Internal(1, 2)] + seq(treeLen, j requires 0 <= j < treeLen => NodeAt(source, treeLen, j + 1))
  }

  /** Reading the flag bits one at a time fails at the first bit whose word
      offset is past the end of the source; the offsets only grow, so all
      treeLen reads succeed exactly when the last one does. */
  predicate FlagsReadable(source: seq<Byte>, treeLen: nat) {
    treeLen == 0 || InView(source, FlagBase(treeLen), treeLen - 1)
  }

  /** The tree-building loop (src/util/mkf.js:88-106), building the intended
      tree: one flag bit per node, read with the shared cursor from 0. */
  method BuildTree(source: seq<Byte>, treeLen: nat) returns (tree: array<Node>, ok: bool)
    requires 16 + treeLen <= |source|
    ensures fresh(tree) && tree.Length == treeLen + 1
    ensures ok <==> FlagsReadable(source, treeLen)
    ensures ok ==> tree[..] == IntendedTree(source, treeLen)
  {
    tree := new Node[treeLen + 1](_ => Internal(1, 2));
    var bitptr: nat := 0;
    var index := 1;
    while index <= treeLen
      invariant 1 <= index <= treeLen + 1 && bitptr == index - 1
      invariant tree[0] == Internal(1, 2)
      invariant forall i :: 1 <= i < index ==> tree[i] == NodeAt(source, treeLen, i)
      invariant index > 1 ==> InView(source, FlagBase(treeLen), bitptr - 1)
    {
      match ReadBits(source, FlagBase(treeLen), bitptr, 1)
      case Err(_) =>
        if FlagsReadable(source, treeLen) {
          InViewEarlier(source, FlagBase(treeLen), treeLen - 1, bitptr);
        }
        ok := false;
        return;
      case Ok(flag) =>
        OneBit(source, FlagBase(treeLen), bitptr);
        var v: nat := source[15 + index];
        tree[index] := if flag.value == 0 then Leaf(v) else Internal(2 * v + 1, 2 * v + 2);
        bitptr := flag.pos;
        index := index + 1;
    }
    ok := true;
    IsIntendedTree(source, treeLen, tree[..]);
  }

  /** A sequence with the root at 0 and NodeAt at every other index is the
      intended tree. */
  lemma IsIntendedTree(source: seq<Byte>, treeLen: nat, t: seq<Node>)
    requires 16 + treeLen <= |source|
    requires |t| == treeLen + 1 && t[0] == Internal(1, 2)
    requires forall i :: 1 <= i <= treeLen ==> t[i] == NodeAt(source, treeLen, i)
    ensures t == IntendedTree(source, treeLen)
  {
  }

  /** The walk for one literal (src/util/mkf.js:129-135) from node `node`
      at cursor p. It stops at a leaf with that leaf's symbol; an index with
      no node behind it is the TypeError of `tree[nodeIndex].leaf`, and a
      bit that cannot be read is the RangeError of getBits. */
  function Walk(tree: seq<Node>, buf: seq<Byte>, base: nat, p: nat, node: nat): (r: Result<Read>)
    ensures r.Ok? ==> r.value.value < 256 && r.value.pos >= p
    decreases Budget(buf, p)
  {
    if node >= |tree| then Err(BadTree)
    else match tree[node]
      case Leaf(v) => Ok(Read(v, p))
      case Internal(left, right) =>
        match ReadBits(buf, base, p, 1)
        case Err(f) => Err(f)
        case Ok(bit) =>
          BudgetDecreases(buf, base, p, bit.pos);
          Walk(tree, buf, base, bit.pos, if bit.value != 0 then right else left)
  }

  /** The node reached from `node` by following the bits of `path`, each
      step through an internal node: None when the path leaves the tree or
      runs into a leaf before it ends. */
  function Follow(tree: seq<Node>, node: nat, path: seq<int>): Option<nat>
    decreases |path|
  {
    if |path| == 0 then Some(node)
    else if node >= |tree| || tree[node].Leaf? then None
    else Follow(tree, if path[0] != 0 then tree[node].right else tree[node].left, path[1..])
  }

  /** The stream bits [p, p + n) as a sequence. */
  function BitList(buf: seq<Byte>, base: nat, p: nat, n: nat): seq<int> {
    seq(n, k requires 0 <= k < n => StreamBit(buf, base, p + k))
  }

  /** What a successful walk means: the bits it consumed spell the path from
      the start node to a leaf, and the decoded value is that leaf's symbol. */
  lemma {:induction false} WalkFollowsPath(tree: seq<Node>, buf: seq<Byte>, base: nat, p: nat, node: nat)
    requires Walk(tree, buf, base, p, node).Ok?
    ensures var r := Walk(tree, buf, base, p, node).value;
            var leaf := Follow(tree, node, BitList(buf, base, p, r.pos - p));
            leaf.Some? && leaf.value < |tree| && tree[leaf.value] == Leaf(r.value)
    decreases Budget(buf, p)
  {
    var r := Walk(tree, buf, base, p, node).value;
    if tree[node].Internal? {
      var bit := ReadBits(buf, base, p, 1).value;
      OneBit(buf, base, p);
      BudgetDecreases(buf, base, p, bit.pos);
      var next := if bit.value != 0 then tree[node].right else tree[node].left;
      WalkFollowsPath(tree, buf, base, p + 1, next);
      var path := BitList(buf, base, p, r.pos - p);
      assert path[0] == bit.value;
      BitListTail(buf, base, p, r.pos - p);
    } else {
      assert r.pos == p;
    }
  }

  /** The converse: bits that spell a path from `node` to a leaf, and whose
      last one can still be read, make the walk decode that leaf's symbol
      and leave the cursor right after the path. */
  lemma {:induction false} WalkTakesPath(tree: seq<Node>, buf: seq<Byte>, base: nat, p: nat, node: nat,
                                         n: nat, leaf: nat)
    requires Follow(tree, node, BitList(buf, base, p, n)) == Some(leaf)
    requires leaf < |tree| && tree[leaf].Leaf?
    requires n > 0 ==> InView(buf, base, p + n - 1)
    ensures Walk(tree, buf, base, p, node) == Ok(Read(tree[leaf].symbol, p + n))
    decreases n
  {
    if n > 0 {
      var path := BitList(buf, base, p, n);
      InViewEarlier(buf, base, p + n - 1, p);
      OneBit(buf, base, p);
      BudgetDecreases(buf, base, p, p + 1);
      BitListTail(buf, base, p, n);
      var next := if path[0] != 0 then tree[node].right else tree[node].left;
      assert Follow(tree, next, BitList(buf, base, p + 1, n - 1)) == Some(leaf);
      WalkTakesPath(tree, buf, base, p + 1, next, n - 1, leaf);
    }
  }

  /** Without its first bit, the list of n bits at p is the list of n - 1
      bits at p + 1. */
  lemma BitListTail(buf: seq<Byte>, base: nat, p: nat, n: nat)
    requires n > 0
    ensures BitList(buf, base, p, n)[1..] == BitList(buf, base, p + 1, n - 1)
  {
    var tail, later := BitList(buf, base, p, n)[1..], BitList(buf, base, p + 1, n - 1);
    forall k | 0 <= k < n - 1
      ensures tail[k] == later[k]
    {
      assert p + (k + 1) == p + 1 + k;
    }
  }

  /** A successful walk ends on a leaf of the tree. */
  lemma WalkEndsAtLeaf(tree: seq<Node>, buf: seq<Byte>, base: nat, p: nat, node: nat)
    requires Walk(tree, buf, base, p, node).Ok?
    ensures exists i :: 0 <= i < |tree| && tree[i] == Leaf(Walk(tree, buf, base, p, node).value.value)
  {
    var r := Walk(tree, buf, base, p, node).value;
    WalkFollowsPath(tree, buf, base, p, node);
    var leaf := Follow(tree, node, BitList(buf, base, p, r.pos - p)).value;
    assert tree[leaf] == Leaf(r.value);
  }

  /** A leaf of the intended tree holds the node byte stored for it. */
  lemma IntendedLeaf(source: seq<Byte>, treeLen: nat, i: nat, v: Byte)
    requires 16 + treeLen <= |source| && i <= treeLen
    requires IntendedTree(source, treeLen)[i] == Leaf(v)
    ensures 1 <= i && source[15 + i] == v
  {
  }

  /** With the intended tree, every decoded literal is one of the node bytes
      stored after the file header, at offsets 16..15 + treeLen. */
  lemma DecodedSymbolIsStored(source: seq<Byte>, treeLen: nat, buf: seq<Byte>, base: nat, p: nat)
    requires 16 + treeLen <= |source|
    requires Walk(IntendedTree(source, treeLen), buf, base, p, 0).Ok?
    ensures exists i :: 16 <= i < 16 + treeLen
                        && source[i] == Walk(IntendedTree(source, treeLen), buf, base, p, 0).value.value
  {
    var tree := IntendedTree(source, treeLen);
    var v := Walk(tree, buf, base, p, 0).value.value;
    WalkEndsAtLeaf(tree, buf, base, p, 0);
    var i :| 0 <= i < |tree| && tree[i] == Leaf(v);
    IntendedLeaf(source, treeLen, i, v);
    assert source[15 + i] == v;
  }

  /** The literal loop of the JavaScript: `for (; !tree[nodeIndex].leaf;)`,
      one bit per step. */
  method DecodeSymbol(tree: array<Node>, buf: seq<Byte>, base: nat, p: nat) returns (r: Result<Read>)
    ensures r == Walk(tree[..], buf, base, p, 0)
  {
    var node: nat := 0;
    var bitptr: nat := p;
    while node < tree.Length && tree[node].Internal?
      invariant Walk(tree[..], buf, base, bitptr, node) == Walk(tree[..], buf, base, p, 0)
      decreases Budget(buf, bitptr)
    {
      match ReadBits(buf, base, bitptr, 1)
      case Err(f) =>
        return Err(f);
      case Ok(bit) =>
        BudgetDecreases(buf, base, bitptr, bit.pos);
        node := if bit.value != 0 then tree[node].right else tree[node].left;
        bitptr := bit.pos;
    }
    if node >= tree.Length {
      return Err(BadTree);
    }
    return Ok(Read(tree[node].symbol, bitptr));
  }

  /** The walk the JavaScript performs on the array it actually builds.
      Slot 0 is the shared fill object, with `leaf` 0 and children 1 and 2;
      slots 1..treeLen hold bare numbers, whose `leaf`, `left` and `right`
      are all undefined. So the root step goes to slot 1 or 2; if that slot
      is past the array, `tree[i].leaf` throws a TypeError; otherwise the
      number is taken for an internal node, one more bit is read and the
      walk moves to `tree[undefined]`, whose `.leaf` throws the TypeError. */
  function WalkAsWritten(treeLen: nat, buf: seq<Byte>, base: nat, p: nat): (r: Result<Read>)
    ensures r.Err?
  {
    match ReadBits(buf, base, p, 1)
    case Err(f) => Err(f)
    case Ok(bit) =>
      var index := if bit.value != 0 then 2 else 1;
      if index > treeLen then Err(BadTree)
      else
        match ReadBits(buf, base, bit.pos, 1)
        case Err(f) => Err(f)
        case Ok(_) => Err(BadTree)
  }

  /** The discrepancy: when node 1 is a leaf and the first stream bit is 0,
      the intended tree decodes node 1's byte after one bit, while the code
      as written throws instead of producing any literal. */
  lemma AsWrittenLosesFirstLiteral(source: seq<Byte>, treeLen: nat, buf: seq<Byte>, base: nat, p: nat)
    requires 1 <= treeLen && 16 + treeLen <= |source|
    requires StreamBit(source, FlagBase(treeLen), 0) == 0
    requires InView(buf, base, p) && StreamBit(buf, base, p) == 0
    ensures Walk(IntendedTree(source, treeLen), buf, base, p, 0) == Ok(Read(source[16], p + 1))
    ensures WalkAsWritten(treeLen, buf, base, p).Err?
  {
    var tree := IntendedTree(source, treeLen);
    OneBit(buf, base, p);
    BudgetDecreases(buf, base, p, p + 1);
    assert tree[1] == Leaf(source[16]);
  }
}
