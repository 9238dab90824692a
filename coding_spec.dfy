/** What the Huffman coder of huffman_coding.c writes and reads, as values:
    the preorder bits of a code tree, the tree read back from bits, the
    payload bits of an input, and the decoding walk from the root. The
    imperative coder is proved against these, and the round trips are
    proved here. */
module CodingSpec {
  import opened Bytes
  import opened HuffmanTypes
  import opened CodeTable

  /** write_tree: preorder, a set bit and the eight symbol bits (least
      significant first) for a leaf, a clear bit for an internal node
      followed by its left and then its right subtree. */
  function TreeBits(t: Tree): (bits: seq<bool>)
    ensures |bits| >= 9
  {
    match t
    case Leaf(s, _) => [true] + BitsOfByte(s)
    case Node(_, l, r) => [false] + TreeBits(l) + TreeBits(r)
  }

  /** Bit `i` of a stream of bits; every bit past its end reads 0, as the
      zeroed input buffer gives after a short read. */
  function At(s: seq<bool>, i: nat): bool {
    if i < |s| then s[i] else false
  }

  /** The bits of stream `s` from position `pos` on are `bits`. */
  ghost predicate Holds(s: seq<bool>, pos: nat, bits: seq<bool>)
    decreases |bits|
  {
    |bits| == 0 || (At(s, pos) == bits[0] && Holds(s, pos + 1, bits[1..]))
  }

  lemma {:induction false} HoldsAt(s: seq<bool>, pos: nat, bits: seq<bool>, i: nat)
    requires Holds(s, pos, bits) && i < |bits|
    ensures At(s, pos + i) == bits[i]
    decreases i
  {
    if i > 0 {
      HoldsAt(s, pos + 1, bits[1..], i - 1);
    }
  }

  lemma {:induction false} AtHolds(s: seq<bool>, pos: nat, bits: seq<bool>)
    requires forall i :: 0 <= i < |bits| ==> At(s, pos + i) == bits[i]
    ensures Holds(s, pos, bits)
    decreases |bits|
  {
    if |bits| > 0 {
      assert At(s, pos + 0) == bits[0];
      forall i | 0 <= i < |bits| - 1
        ensures At(s, pos + 1 + i) == bits[1..][i]
      {
        assert At(s, pos + (1 + i)) == bits[1 + i];
      }
      AtHolds(s, pos + 1, bits[1..]);
    }
  }

  /** The byte read_char_from_inbuf assembles from the eight bits at `pos`,
      least significant first. */
  function SymAt(s: seq<bool>, pos: nat): Byte {
    ByteOfBits(seq(8, j requires 0 <= j < 8 => At(s, pos + j)))
  }

  /** A tree read back and the position after its last bit, or no tree. */
  datatype Parsed = NoTree | Parsed(tree: Tree, end: nat)

  /** read_tree from position `pos` of a stream, reading no bit at or past
      `limit`: NoTree when the tree is not complete by then. The tree has
      the frequencies read_tree gives it, 0. */
  function ParseAt(s: seq<bool>, pos: nat, limit: nat): (r: Parsed)
    ensures r.Parsed? ==> pos < r.end <= limit && r.tree.freq == 0
    decreases limit - pos
  {
    if limit <= pos then NoTree
    else if At(s, pos) then
      if limit < pos + 9 then NoTree else Parsed(Leaf(SymAt(s, pos + 1), 0), pos + 9)
    else
      var pl := ParseAt(s, pos + 1, limit);
      if pl.NoTree? then NoTree
      else
        var pr := ParseAt(s, pl.end, limit);
        if pr.NoTree? then NoTree
        else Parsed(Node(0, pl.tree, pr.tree), pr.end)
  }

  lemma {:induction false} HoldsSplit(s: seq<bool>, pos: nat, a: seq<bool>, b: seq<bool>)
    requires Holds(s, pos, a + b)
    ensures Holds(s, pos, a) && Holds(s, pos + |a|, b)
    decreases |a|
  {
    if |a| == 0 {
      assert a + b == b;
    } else {
      assert (a + b)[1..] == a[1..] + b;
      HoldsSplit(s, pos + 1, a[1..], b);
    }
  }

  /** The first bit of `[b] + rest` at `pos` is `b`. */
  lemma {:induction false} HoldsHead(s: seq<bool>, pos: nat, b: bool, rest: seq<bool>)
    requires Holds(s, pos, [b] + rest)
    ensures At(s, pos) == b
  {
  }

  /** Reading back the bits of a tree, wherever they sit in a stream, gives
      its shape and leaf symbols and ends right after them. */
  lemma {:induction false} ParseTreeBits(t: Tree, s: seq<bool>, pos: nat, limit: nat)
    requires Holds(s, pos, TreeBits(t)) && pos + |TreeBits(t)| <= limit
    ensures ParseAt(s, pos, limit) == Parsed(Shape(t), pos + |TreeBits(t)|)
  {
    match t
    case Leaf(x, _) =>
      ParseLeaf(x, s, pos, limit);
    case Node(_, l, r) =>
      var mid := pos + 1 + |TreeBits(l)|;
      TreeBitsNode(t);
      NodeSplit(s, pos, TreeBits(l), TreeBits(r));
      ParseTreeBits(l, s, pos + 1, limit);
      ParseTreeBits(r, s, mid, limit);
      ParseNode(s, pos, limit, Shape(l), mid, Shape(r), mid + |TreeBits(r)|);
  }

  /** The bits of an internal node: a clear bit, then the left subtree's
      bits, then the right subtree's. */
  lemma {:induction false} NodeSplit(s: seq<bool>, pos: nat, bl: seq<bool>, br: seq<bool>)
    requires Holds(s, pos, [false] + (bl + br))
    ensures !At(s, pos)
    ensures Holds(s, pos + 1, bl) && Holds(s, pos + 1 + |bl|, br)
  {
    HoldsHead(s, pos, false, bl + br);
    HoldsSplit(s, pos, [false], bl + br);
    HoldsSplit(s, pos + 1, bl, br);
  }

  lemma {:induction false} TreeBitsNode(t: Tree)
    requires t.Node?
    ensures TreeBits(t) == [false] + (TreeBits(t.left) + TreeBits(t.right))
  {
  }

  /** Eight bits of a byte at `pos` are read back as that byte. */
  lemma {:induction false} SymAtHolds(s: seq<bool>, pos: nat, x: Byte)
    requires Holds(s, pos, BitsOfByte(x))
    ensures SymAt(s, pos) == x
  {
    forall j | 0 <= j < 8
      ensures BitsOfByte(x)[j] == At(s, pos + j)
    {
      HoldsAt(s, pos, BitsOfByte(x), j);
    }
    SymAtOfBits(s, pos, x);
  }

  /** A byte whose bits are the eight stream bits at `pos` is the symbol
      read there. */
  lemma {:induction false} SymAtOfBits(s: seq<bool>, pos: nat, c: Byte)
    requires forall j :: 0 <= j < 8 ==> BitsOfByte(c)[j] == At(s, pos + j)
    ensures SymAt(s, pos) == c
  {
    var read := seq(8, j requires 0 <= j < 8 => At(s, pos + j));
    assert read == BitsOfByte(c);
    ByteOfBitsOfByte(c);
  }

  lemma {:induction false} ParseLeaf(x: Byte, s: seq<bool>, pos: nat, limit: nat)
    requires Holds(s, pos, [true] + BitsOfByte(x)) && pos + 9 <= limit
    ensures ParseAt(s, pos, limit) == Parsed(Leaf(x, 0), pos + 9)
  {
    HoldsHead(s, pos, true, BitsOfByte(x));
    HoldsSplit(s, pos, [true], BitsOfByte(x));
    SymAtHolds(s, pos + 1, x);
  }

  /** A tree that starts with a set bit is the leaf of the byte after it. */
  lemma {:induction false} ParsedLeaf(s: seq<bool>, pos: nat, limit: nat)
    requires ParseAt(s, pos, limit).Parsed? && At(s, pos)
    ensures ParseAt(s, pos, limit) == Parsed(Leaf(SymAt(s, pos + 1), 0), pos + 9)
  {
  }

  /** A tree that starts with a clear bit has both its subtrees after it. */
  lemma {:induction false} ParseSubtrees(s: seq<bool>, pos: nat, limit: nat)
    requires ParseAt(s, pos, limit).Parsed? && !At(s, pos)
    ensures ParseAt(s, pos + 1, limit).Parsed?
    ensures ParseAt(s, ParseAt(s, pos + 1, limit).end, limit).Parsed?
  {
  }

  lemma {:induction false} ParseNode(s: seq<bool>, pos: nat, limit: nat, l: Tree, mid: nat, r: Tree, end: nat)
    requires !At(s, pos) && pos < limit
    requires ParseAt(s, pos + 1, limit) == Parsed(l, mid)
    requires ParseAt(s, mid, limit) == Parsed(r, end)
    ensures ParseAt(s, pos, limit) == Parsed(Node(0, l, r), end)
  {
  }

  /** The bits encode emits for an input: each byte's code, in order. */
  function Payload(rows: seq<seq<char>>, input: seq<Byte>): seq<bool>
    requires |rows| == ALPH_SIZE
  {
    if input == [] then []
    else Payload(rows, input[..|input| - 1]) + CodeBits(rows[input[|input| - 1] as int])
  }

  lemma {:induction false} PayloadSnoc(rows: seq<seq<char>>, input: seq<Byte>, i: nat)
    requires |rows| == ALPH_SIZE && i < |input|
    ensures Payload(rows, input[..i + 1]) == Payload(rows, input[..i]) + CodeBits(rows[input[i] as int])
  {
    assert input[..i + 1][..i] == input[..i];
  }

  /** The bit stream of a file read from its start: its bytes' bits, then
      zeros. Bit i of the file is bit i of this stream. */
  lemma {:induction false} BitIsAt(src: seq<Byte>, i: nat)
    ensures Bit(src, i) == At(BytesToBits(src), i)
  {
    if i < 8 * |src| {
      BitOfBytes(src, i);
    } else {
      BitPastEnd(src, i);
    }
  }

  /** Bytes placed after `pre` in a file are read from bit 8 |pre| on. */
  lemma {:induction false} PackedHolds(pre: seq<Byte>, bits: seq<bool>, rest: seq<Byte>)
    ensures Holds(BytesToBits(pre + Pack(bits) + rest), 8 * |pre|, bits)
  {
    var p := Pack(bits);
    forall i | 0 <= i < |bits|
      ensures At(BytesToBits(pre + p + rest), 8 * |pre| + i) == bits[i]
    {
      PackedBit(pre, bits, rest, i);
    }
    AtHolds(BytesToBits(pre + p + rest), 8 * |pre|, bits);
  }

  lemma {:induction false} PackedBit(pre: seq<Byte>, bits: seq<bool>, rest: seq<Byte>, i: nat)
    requires i < |bits|
    ensures At(BytesToBits(pre + Pack(bits) + rest), 8 * |pre| + i) == bits[i]
  {
    var p := Pack(bits);
    BytesToBitsAppend(pre, p);
    BytesToBitsAppend(pre + p, rest);
    var all := BytesToBits(pre) + BytesToBits(p) + BytesToBits(rest);
    PackedAt(bits, i);
    assert all[8 * |pre| + i] == BytesToBits(p)[i];
  }

  /** Packing keeps every bit of a bit string. */
  lemma {:induction false} PackedAt(bits: seq<bool>, i: nat)
    requires i < |bits|
    ensures i < |BytesToBits(Pack(bits))| && BytesToBits(Pack(bits))[i] == bits[i]
  {
    var p := Pack(bits);
    assert 8 * ((|bits| + 7) / 8) >= |bits|;
    PackBit(bits, [], i);
    assert p + [] == p;
    BitOfBytes(p, i);
  }

  /** A symbol decoded and the position after the bits it took. */
  datatype Step = Step(sym: Byte, end: nat)

  /** Symbols decoded and the position after the last bit taken. */
  datatype Decoded = Decoded(syms: seq<Byte>, end: nat)

  /** decode's inner loop: from node `t`, a set bit goes right and a clear
      bit goes left, until a leaf; its symbol and the position after the
      bits it took. */
  function Walk(t: Tree, s: seq<bool>, pos: nat): (r: Step)
    ensures r.end >= pos
  {
    match t
    case Leaf(x, _) => Step(x, pos)
    case Node(_, l, r) => if At(s, pos) then Walk(r, s, pos + 1) else Walk(l, s, pos + 1)
  }

  /** decode's outer loop: `n` symbols, each from a walk that starts at the
      root where the previous one ended; the symbols and the end position. */
  function DecodeN(root: Tree, s: seq<bool>, pos: nat, n: nat): (r: Decoded)
    ensures |r.syms| == n && r.end >= pos
  {
    if n == 0 then Decoded([], pos)
    else
      var prev := DecodeN(root, s, pos, n - 1);
      var w := Walk(root, s, prev.end);
      Decoded(prev.syms + [w.sym], w.end)
  }

  /** Following the path to a leaf from the root reaches that leaf's symbol
      and takes exactly the path's bits. */
  lemma {:induction false} WalkPath(t: Tree, x: Byte, s: seq<bool>, pos: nat)
    requires x in Syms(t) && Holds(s, pos, PathTo(t, x))
    ensures Walk(t, s, pos) == Step(x, pos + |PathTo(t, x)|)
  {
    match t
    case Leaf(_, _) =>
    case Node(_, l, r) =>
      if x in Syms(l) {
        HoldsHead(s, pos, false, PathTo(l, x));
        HoldsSplit(s, pos, [false], PathTo(l, x));
        WalkPath(l, x, s, pos + 1);
      } else {
        HoldsHead(s, pos, true, PathTo(r, x));
        HoldsSplit(s, pos, [true], PathTo(r, x));
        WalkPath(r, x, s, pos + 1);
      }
  }

  /** The walk only looks at the shape of the tree and its leaf symbols. */
  lemma {:induction false} WalkShape(t: Tree, s: seq<bool>, pos: nat)
    ensures Walk(Shape(t), s, pos) == Walk(t, s, pos)
  {
    match t
    case Leaf(_, _) =>
    case Node(_, l, r) =>
      WalkShape(l, s, pos + 1);
      WalkShape(r, s, pos + 1);
  }

  lemma {:induction false} DecodeShape(t: Tree, s: seq<bool>, pos: nat, n: nat)
    ensures DecodeN(Shape(t), s, pos, n) == DecodeN(t, s, pos, n)
  {
    if n > 0 {
      DecodeShape(t, s, pos, n - 1);
      WalkShape(t, s, DecodeN(t, s, pos, n - 1).end);
    }
  }

  /** `rows` code every symbol of `t` by its path. */
  ghost predicate CodeRows(rows: seq<seq<char>>, t: Tree) {
    |rows| == ALPH_SIZE && forall x: Byte :: x in Syms(t) ==> CodeBits(rows[x as int]) == PathTo(t, x)
  }

  /** The table of a tree with more than one leaf codes its symbols by
      their paths. */
  lemma {:induction false} CodesRows(t: Tree)
    requires t.Node?
    ensures CodeRows(Codes(Some(t)), t)
  {
    forall x: Byte | x in Syms(t)
      ensures CodeBits(Codes(Some(t))[x as int]) == PathTo(t, x)
    {
      CodeOf(t, x);
    }
  }

  /** The bits of the code of a symbol of a tree with more than one leaf
      are its path. */
  lemma {:induction false} CodeOf(t: Tree, x: Byte)
    requires t.Node? && x in Syms(t)
    ensures CodeBits(Codes(Some(t))[x as int]) == PathTo(t, x)
  {
    CodesAt(Some(t), x);
    CodeBitsOfChars(PathTo(t, x));
  }

  /** A tree with more than one leaf: decoding the payload of an input whose
      bytes are all leaves gives back the input and takes exactly the
      payload's bits. */
  lemma {:induction false} DecodePayload(t: Tree, rows: seq<seq<char>>, input: seq<Byte>, s: seq<bool>, pos: nat)
    requires t.Node? && CodeRows(rows, t) && forall x :: x in input ==> x in Syms(t)
    requires Holds(s, pos, Payload(rows, input))
    ensures DecodeN(t, s, pos, |input|) == Decoded(input, pos + |Payload(rows, input)|)
  {
    forall i | 0 <= i < |input|
      ensures input[i] in Syms(t)
    {
      var y := input[i];
      assert y in input;
    }
    PayloadPaths(t, rows, input);
    DecodePaths(t, input, s, pos);
  }

  /** The paths in `t` of the bytes of an input, in order. */
  function Paths(t: Tree, input: seq<Byte>): seq<bool>
    requires forall i :: 0 <= i < |input| ==> input[i] in Syms(t)
  {
    if input == [] then []
    else Paths(t, input[..|input| - 1]) + PathTo(t, input[|input| - 1])
  }

  /** With a table that codes each symbol by its path, the payload is the
      sequence of paths. */
  lemma {:induction false} PayloadPaths(t: Tree, rows: seq<seq<char>>, input: seq<Byte>)
    requires CodeRows(rows, t) && forall i :: 0 <= i < |input| ==> input[i] in Syms(t)
    ensures Payload(rows, input) == Paths(t, input)
  {
    if input != [] {
      PayloadPaths(t, rows, input[..|input| - 1]);
    }
  }

  /** Walking from the root over the paths of an input's bytes decodes the
      input and takes exactly those bits. */
  lemma {:induction false} DecodePaths(t: Tree, input: seq<Byte>, s: seq<bool>, pos: nat)
    requires t.Node? && forall i :: 0 <= i < |input| ==> input[i] in Syms(t)
    requires Holds(s, pos, Paths(t, input))
    ensures DecodeN(t, s, pos, |input|) == Decoded(input, pos + |Paths(t, input)|)
  {
    if input != [] {
      var n := |input| - 1;
      var init, x := input[..n], input[n];
      assert init + [x] == input;
      var mid := pos + |Paths(t, init)|;
      HoldsSplit(s, pos, Paths(t, init), PathTo(t, x));
      DecodePaths(t, init, s, pos);
      WalkPath(t, x, s, mid);
      DecodeLast(t, s, pos, n, init, x, mid, mid + |PathTo(t, x)|);
    }
  }

  /** One more walk after `n` decoded symbols decodes one more symbol. */
  lemma {:induction false} DecodeLast(t: Tree, s: seq<bool>, pos: nat, n: nat, syms: seq<Byte>, x: Byte, mid: nat, end: nat)
    requires DecodeN(t, s, pos, n) == Decoded(syms, mid) && Walk(t, s, mid) == Step(x, end)
    ensures DecodeN(t, s, pos, n + 1) == Decoded(syms + [x], end)
  {
  }

  /** `n` copies of `x`. */
  function Repeat(x: Byte, n: nat): (r: seq<Byte>)
    ensures |r| == n && forall i :: 0 <= i < n ==> r[i] == x
  {
    if n == 0 then [] else Repeat(x, n - 1) + [x]
  }

  /** A single-leaf tree: decoding takes no bits and repeats its symbol. */
  lemma {:induction false} DecodeSingle(t: Tree, s: seq<bool>, pos: nat, n: nat)
    requires t.Leaf?
    ensures DecodeN(t, s, pos, n) == Decoded(Repeat(t.sym, n), pos)
  {
    if n > 0 {
      DecodeSingle(t, s, pos, n - 1);
    }
  }

  /** An input all of whose bytes are the one symbol of a single leaf is
      that symbol repeated. */
  lemma {:induction false} SingleInput(t: Tree, input: seq<Byte>)
    requires t.Leaf? && forall x :: x in input ==> x in Syms(t)
    ensures input == Repeat(t.sym, |input|)
  {
    forall i | 0 <= i < |input|
      ensures input[i] == t.sym
    {
      assert input[i] in input;
    }
  }

  /** The bits encode_file writes for an input, given the tree it built:
      the tree, then the payload coded with that tree's table. */
  function Encoded(root: Option<Tree>, input: seq<Byte>): seq<bool> {
    (if root.Some? then TreeBits(root.value) else []) + Payload(Codes(root), input)
  }

  /** The first half of the round trip: wherever the encoded bits of an
      input sit in a stream, reading a tree there gives the shape of the
      encoding tree and ends right after its bits. */
  lemma {:induction false} ReadEncodedTree(t: Tree, input: seq<Byte>, s: seq<bool>, pos: nat, limit: nat)
    requires Holds(s, pos, Encoded(Some(t), input)) && pos + |TreeBits(t)| <= limit
    ensures ParseAt(s, pos, limit) == Parsed(Shape(t), pos + |TreeBits(t)|)
  {
    EncodedSplit(t, input, s, pos);
    ParseTreeBits(t, s, pos, limit);
  }

  /** The second half of the round trip: decoding |input| symbols with the
      tree read back, from the end of its bits on, gives the input back. */
  lemma {:induction false} DecodeEncoded(t: Tree, input: seq<Byte>, s: seq<bool>, pos: nat)
    requires forall x :: x in input ==> x in Syms(t)
    requires Holds(s, pos, Encoded(Some(t), input))
    ensures DecodeN(Shape(t), s, pos + |TreeBits(t)|, |input|).syms == input
  {
    EncodedSplit(t, input, s, pos);
    DecodeAfterTree(t, input, s, pos + |TreeBits(t)|);
  }

  lemma {:induction false} EncodedSplit(t: Tree, input: seq<Byte>, s: seq<bool>, pos: nat)
    requires Holds(s, pos, Encoded(Some(t), input))
    ensures Holds(s, pos, TreeBits(t))
    ensures Holds(s, pos + |TreeBits(t)|, Payload(Codes(Some(t)), input))
  {
    HoldsSplit(s, pos, TreeBits(t), Payload(Codes(Some(t)), input));
  }

  /** Decoding the payload with the tree read back gives the input. */
  lemma {:induction false} DecodeAfterTree(t: Tree, input: seq<Byte>, s: seq<bool>, pos: nat)
    requires forall x :: x in input ==> x in Syms(t)
    requires Holds(s, pos, Payload(Codes(Some(t)), input))
    ensures DecodeN(Shape(t), s, pos, |input|).syms == input
  {
    if t.Node? {
      CodesRows(t);
      DecodePayload(t, Codes(Some(t)), input, s, pos);
      DecodeShape(t, s, pos, |input|);
    } else {
      DecodeSingle(Shape(t), s, pos, |input|);
      SingleInput(t, input);
    }
  }
}
