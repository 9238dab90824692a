/** The Huffman coder of huffman_coding.c. The C globals (the frequency
    table, the code table and the two bit buffers) are parameters here, and
    so are the files. Each method is proved against the value-level
    description in CodingSpec: encode_file appends the packed bits of the
    tree and the payload, decode_file appends the symbols the decoding walk
    reads. */
module HuffmanCoding {
  import opened Bytes
  import opened BitCursor
  import opened BinaryBuffer
  import opened HuffmanTypes
  import opened CodeTable
  import opened HuffmanTree
  import opened CodingSpec

  // ---------------------------------------------------------------------
  // Symbol frequencies
  // ---------------------------------------------------------------------

  /** The frequency table of a byte string: entry x counts the bytes equal
      to x. */
  function Histogram(s: seq<Byte>): (h: seq<nat>)
    ensures |h| == ALPH_SIZE
  {
    if s == [] then seq(ALPH_SIZE, _ => 0)
    else
      var h := Histogram(s[..|s| - 1]);
      var x := s[|s| - 1] as int;
      h[x := h[x] + 1]
  }

  /** The entries of the table add up to the length of the string. */
  lemma {:induction false} HistogramTotal(s: seq<Byte>)
    ensures Total(Histogram(s), ALPH_SIZE) == |s|
  {
    if s == [] {
      TotalZero(Histogram(s), ALPH_SIZE);
    } else {
      var h := Histogram(s[..|s| - 1]);
      var x := s[|s| - 1] as int;
      HistogramTotal(s[..|s| - 1]);
      TotalBump(h, ALPH_SIZE, x);
    }
  }

  lemma {:induction false} TotalZero(h: seq<nat>, n: nat)
    requires |h| == ALPH_SIZE && n <= ALPH_SIZE
    requires forall i :: 0 <= i < ALPH_SIZE ==> h[i] == 0
    ensures Total(h, n) == 0
  {
    if n > 0 {
      TotalZero(h, n - 1);
    }
  }

  /** Adding one to entry x adds one to every total that includes x. */
  lemma {:induction false} TotalBump(h: seq<nat>, n: nat, x: int)
    requires |h| == ALPH_SIZE && n <= ALPH_SIZE && 0 <= x < ALPH_SIZE
    ensures Total(h[x := h[x] + 1], n) == Total(h, n) + (if x < n then 1 else 0)
  {
    if n > 0 {
      TotalBump(h, n - 1, x);
    }
  }

  /** A symbol has a nonzero entry exactly when it occurs in the string. */
  lemma {:induction false} HistogramOccurs(s: seq<Byte>, x: Byte)
    ensures Histogram(s)[x as int] > 0 <==> x in s
  {
    if s != [] {
      var init := s[..|s| - 1];
      HistogramOccurs(init, x);
      InitLast(s, x);
    }
  }

  /** Every entry of the frequency table is zero exactly when the string is
      empty: build_code_tree returns no tree only for an empty input. */
  lemma {:induction false} HistogramEmpty(s: seq<Byte>)
    ensures (forall i :: 0 <= i < ALPH_SIZE ==> Histogram(s)[i] == 0) <==> s == []
  {
    if s != [] {
      HistogramOccurs(s, s[0]);
    }
  }

  /** The code tree of an input of at most UINT_MAX bytes has as leaves
      exactly the bytes that occur, each once, and fits the code table. */
  lemma {:induction false} InputTree(s: seq<Byte>, t: Tree)
    requires |s| <= UINT_MAX && CodeTreeOf(t, Histogram(s))
    ensures DistinctLeaves(t) && Height(t) < MAX_CODE_LEN
    ensures forall x :: x in Syms(t) <==> x in s
  {
    CodeTreeLeaves(t, Histogram(s));
    HistogramTotal(s);
    forall x
      ensures x in Syms(t) <==> x in s
    {
      HistogramOccurs(s, x);
    }
  }

  lemma {:induction false} InitLast<T>(s: seq<T>, y: T)
    requires s != []
    ensures y in s <==> y in s[..|s| - 1] || y == s[|s| - 1]
  {
    assert s == s[..|s| - 1] + [s[|s| - 1]];
  }

  lemma {:induction false} SliceToEnd<T>(s: seq<T>, a: nat)
    requires a <= |s|
    ensures s[a..|s|] == s[a..]
  {
  }

  /** Counting one more byte of a window of a file. */
  lemma {:induction false} HistogramSnoc(src: seq<Byte>, a: nat, b: nat)
    requires a <= b < |src|
    ensures Histogram(src[a..b + 1]) ==
              Histogram(src[a..b])[src[b] as int := Histogram(src[a..b])[src[b] as int] + 1]
  {
    SliceSnoc2(src, a, b);
  }

  lemma {:induction false} SliceSnoc2<T>(src: seq<T>, a: nat, b: nat)
    requires a <= b < |src|
    ensures src[a..b + 1] != []
    ensures src[a..b + 1][..b - a] == src[a..b] && src[a..b + 1][b - a] == src[b]
  {
  }

  /** reset_freq_table */
  method ResetFreqTable(freq: array<nat>)
    modifies freq
    ensures forall i :: 0 <= i < freq.Length ==> freq[i] == 0
  {
    forall i | 0 <= i < freq.Length {
      freq[i] := 0;
    }
  }

  /** analyze_file: count every byte from the read position to the end of
      the file, buffer by buffer, then rewind the file. */
  method AnalyzeFile(freq: array<nat>, inbuf: InBuffer, f: InFile)
    requires freq.Length == ALPH_SIZE && inbuf.data.Length == BUF_SIZE && f.Valid()
    modifies freq, inbuf, inbuf.data, f
    ensures freq[..] == Histogram(f.bytes[old(f.pos)..])
    ensures f.Valid() && f.pos == 0
  {
    ResetFreqTable(freq);
    ghost var p0 := f.pos;
    assert freq[..] == Histogram(f.bytes[p0..p0]);
    var n := inbuf.ReadFromFile(f, false);
    while n > 0
      invariant f.Valid() && inbuf.Valid() && inbuf.bytePos == 0 && n <= BUF_SIZE
      invariant p0 <= inbuf.base <= f.pos <= |f.bytes| && f.pos == inbuf.base + n
      invariant forall i :: 0 <= i < n ==> inbuf.data[i] == f.bytes[inbuf.base + i]
      invariant n == 0 ==> f.pos == |f.bytes|
      invariant freq[..] == Histogram(f.bytes[p0..inbuf.base])
      decreases |f.bytes| - inbuf.base
    {
      CountBuffer(freq, inbuf, n, f, p0);
      n := inbuf.ReadFromFile(f, false);
    }
    SliceToEnd(f.bytes, p0);
    f.Seek(0);
  }

  /** The inner loop of analyze_file: count the `n` bytes the buffer holds,
      moving the cursor past them. */
  method CountBuffer(freq: array<nat>, inbuf: InBuffer, n: nat, ghost f: InFile, ghost p0: nat)
    requires freq.Length == ALPH_SIZE && inbuf.Valid() && inbuf.bytePos == 0
    requires 0 < n <= BUF_SIZE && p0 <= inbuf.base && inbuf.base + n <= |f.bytes|
    requires forall i :: 0 <= i < n ==> inbuf.data[i] == f.bytes[inbuf.base + i]
    requires freq[..] == Histogram(f.bytes[p0..inbuf.base])
    modifies freq, inbuf
    ensures inbuf.Valid() && inbuf.base == old(inbuf.base) && inbuf.pos == old(inbuf.pos)
    ensures inbuf.bytePos == n
    ensures freq[..] == Histogram(f.bytes[p0..inbuf.base + n])
  {
    for i := 0 to n
      invariant inbuf.Valid() && inbuf.bytePos == i
      invariant inbuf.base == old(inbuf.base) && inbuf.pos == old(inbuf.pos)
      invariant freq[..] == Histogram(f.bytes[p0..inbuf.base + i])
    {
      CountByte(freq, inbuf, i, n, f, p0);
    }
  }

  /** One step of analyze_file's inner loop: the byte under the cursor is
      counted and the cursor moves past it. */
  method CountByte(freq: array<nat>, inbuf: InBuffer, i: nat, n: nat, ghost f: InFile, ghost p0: nat)
    requires freq.Length == ALPH_SIZE && inbuf.Valid() && inbuf.bytePos == i
    requires i < n <= BUF_SIZE && p0 <= inbuf.base && inbuf.base + n <= |f.bytes|
    requires forall k :: 0 <= k < n ==> inbuf.data[k] == f.bytes[inbuf.base + k]
    requires freq[..] == Histogram(f.bytes[p0..inbuf.base + i])
    modifies freq, inbuf
    ensures inbuf.Valid() && inbuf.base == old(inbuf.base) && inbuf.pos == old(inbuf.pos)
    ensures inbuf.bytePos == i + 1
    ensures freq[..] == Histogram(f.bytes[p0..inbuf.base + i + 1])
  {
    var b := inbuf.GetByte();
    CountedStep(f.bytes, p0, inbuf.base + i, freq[..], b);
    Bump(freq, b);
    var _ := inbuf.NextByte();
  }

  /** Counting one more byte `b` at the end of the counted range. */
  lemma {:induction false} CountedStep(src: seq<Byte>, a: nat, k: nat, h: seq<nat>, b: Byte)
    requires a <= k < |src| && h == Histogram(src[a..k]) && b == src[k]
    ensures h[b as int := h[b as int] + 1] == Histogram(src[a..k + 1])
  {
    HistogramSnoc(src, a, k);
  }

  /** `freq[b]++`. */
  method Bump(freq: array<nat>, b: Byte)
    requires freq.Length == ALPH_SIZE
    modifies freq
    ensures freq[..] == old(freq[..])[b as int := old(freq[b as int]) + 1]
  {
    freq[b as int] := freq[b as int] + 1;
  }

  // ---------------------------------------------------------------------
  // Writing bits through the output buffer
  // ---------------------------------------------------------------------

  /** A buffer in its reset state: cursor at byte 0, mask 1, all bytes 0. */
  predicate ResetOf(d: seq<Byte>, bp: int, m: Byte) {
    bp == 0 && m == 1 && forall i :: 0 <= i < |d| ==> d[i] == 0
  }

  /** A reset buffer of the right size has emitted nothing yet. */
  lemma {:induction false} ResetEmitsNothing(d: seq<Byte>, out: seq<Byte>)
    requires |d| == BUF_SIZE && ResetOf(d, 0, 1)
    ensures EmittedOf(d, 0, 1, out, out, [])
  {
    assert LowBits(d[0], 0) == [];
    assert forall j :: 0 < j < 8 ==> !BitsOfByte(0)[j];
    assert out[..|out|] == out;
    assert out[|out|..] == [];
  }

  /** Flushing the buffer appends the packed pending bits; all the bits
      written are then in the file. */
  lemma {:induction false} FlushAll(out: seq<Byte>, start: seq<Byte>, pending: seq<bool>, bits: seq<bool>)
    requires |start| <= |out| && out[..|start|] == start
    requires bits == BytesToBits(out[|start|..]) + pending
    ensures out + Pack(pending) == start + Pack(bits)
  {
    var rest := out[|start|..];
    PackBytes(rest, pending);
    PrefixRest(out, start);
    Assoc(start, rest, Pack(pending));
  }

  lemma {:induction false} PrefixRest<T>(out: seq<T>, start: seq<T>)
    requires |start| <= |out| && out[..|start|] == start
    ensures out == start + out[|start|..]
  {
  }

  /** One more bit pending is one more bit written. */
  lemma {:induction false} AppendBit<T>(bits: seq<T>, f: seq<T>, p0: seq<T>, p1: seq<T>, b: T)
    requires bits == f + p0 && p1 == p0 + [b]
    ensures bits + [b] == f + p1
  {
  }

  /** Appending to a file keeps its prefix and extends what follows it. */
  lemma {:induction false} AppendKeepsStart<T>(out: seq<T>, start: seq<T>, more: seq<T>)
    requires |start| <= |out| && out[..|start|] == start
    ensures (out + more)[..|start|] == start
    ensures (out + more)[|start|..] == out[|start|..] + more
  {
  }

  /** One bit through the output buffer: set it when `b`, move the cursor,
      and flush the buffer when it is full. This is the loop body shared by
      write_char_to_outbuf, write_code_to_outbuf and write_tree. */
  method PutBit(outbuf: OutBuffer, fout: OutFile, b: bool, ghost start: seq<Byte>, ghost bits: seq<bool>)
    requires outbuf.Valid()
    requires EmittedOf(outbuf.data[..], outbuf.bytePos, outbuf.mask, fout.bytes, start, bits)
    modifies outbuf, outbuf.data, fout
    ensures outbuf.Valid()
    ensures EmittedOf(outbuf.data[..], outbuf.bytePos, outbuf.mask, fout.bytes, start, bits + [b])
  {
    ghost var out := fout.bytes;
    ghost var flushed := BytesToBits(out[|start|..]);
    ghost var p0 := PendingOf(outbuf.data[..], outbuf.bytePos, outbuf.mask);
    assert |start| <= |out| && out[..|start|] == start && bits == flushed + p0;
    if b {
      outbuf.SetBit();
    }
    var end := outbuf.NextBit();
    ghost var p1 := PendingOf(outbuf.data[..], outbuf.bytePos, outbuf.mask);
    AppendBit(bits, flushed, p0, p1, b);
    if end {
      ghost var d := outbuf.data[..];
      WholeBuffer(d);
      var _ := outbuf.WriteToFile(fout);
      assert fout.bytes == out + d[..BUF_SIZE];
      AppendKeepsStart(out, start, d[..BUF_SIZE]);
      FlushedWhole(out[|start|..], d[..BUF_SIZE], fout.bytes[|start|..], bits + [b]);
    }
  }

  /** A full buffer has all its bytes pending. */
  lemma {:induction false} WholeBuffer(d: seq<Byte>)
    requires |d| == BUF_SIZE
    ensures PendingOf(d, BUF_SIZE, 1) == BytesToBits(d[..BUF_SIZE])
  {
  }

  /** After a whole buffer went to the file, the emitted bits are the
      file's new bytes and nothing is pending. */
  lemma {:induction false} FlushedWhole(before: seq<Byte>, d: seq<Byte>, after: seq<Byte>, bits: seq<bool>)
    requires bits == BytesToBits(before) + BytesToBits(d)
    requires after == before + d
    ensures bits == BytesToBits(after) + []
  {
    BytesToBitsAppend(before, d);
  }

  /** write_char_to_outbuf: the eight bits of a byte, least significant
      first. */
  method WriteCharToOutbuf(outbuf: OutBuffer, fout: OutFile, c: Byte, ghost start: seq<Byte>, ghost bits: seq<bool>)
    requires outbuf.Valid()
    requires EmittedOf(outbuf.data[..], outbuf.bytePos, outbuf.mask, fout.bytes, start, bits)
    modifies outbuf, outbuf.data, fout
    ensures outbuf.Valid()
    ensures EmittedOf(outbuf.data[..], outbuf.bytePos, outbuf.mask, fout.bytes, start, bits + BitsOfByte(c))
  {
    var bitMask: Byte := 1;
    ghost var k := 0;
    while bitMask != 0
      invariant k <= 8 && (k < 8 ==> bitMask == Mask(k)) && (k == 8 ==> bitMask == 0)
      invariant outbuf.Valid()
      invariant EmittedOf(outbuf.data[..], outbuf.bytePos, outbuf.mask, fout.bytes, start, bits + BitsOfByte(c)[..k])
      decreases 8 - k
    {
      BitIndex(c, k);
      PutBit(outbuf, fout, c & bitMask != 0, start, bits + BitsOfByte(c)[..k]);
      SnocTake(bits, BitsOfByte(c), k);
      NextMask(bitMask, k);
      bitMask := bitMask << 1;
      k := k + 1;
    }
    TakeAll(BitsOfByte(c));
  }

  lemma {:induction false} SnocTake<T>(bits: seq<T>, s: seq<T>, k: nat)
    requires k < |s|
    ensures bits + s[..k] + [s[k]] == bits + s[..k + 1]
  {
    assert s[..k + 1] == s[..k] + [s[k]];
  }

  lemma {:induction false} TakeAll<T>(s: seq<T>)
    ensures s[..|s|] == s
  {
  }

  /** Shifting the mask of bit k gives the mask of bit k + 1, or 0 after
      bit 7. */
  lemma {:induction false} NextMask(m: Byte, k: nat)
    requires k < 8 && m == Mask(k)
    ensures k < 7 ==> m << 1 == Mask(k + 1)
    ensures k == 7 ==> m << 1 == 0
  {
    ShiftMask(m);
    if k < 7 {
      MaskOfLog2(m << 1);
    }
  }

  /** write_code_to_outbuf: a set bit for each '1' of the code and a clear
      bit for each other character. */
  method WriteCodeToOutbuf(outbuf: OutBuffer, fout: OutFile, code: seq<char>, ghost start: seq<Byte>, ghost bits: seq<bool>)
    requires outbuf.Valid()
    requires EmittedOf(outbuf.data[..], outbuf.bytePos, outbuf.mask, fout.bytes, start, bits)
    modifies outbuf, outbuf.data, fout
    ensures outbuf.Valid()
    ensures EmittedOf(outbuf.data[..], outbuf.bytePos, outbuf.mask, fout.bytes, start, bits + CodeBits(code))
  {
    for i := 0 to |code|
      invariant outbuf.Valid()
      invariant EmittedOf(outbuf.data[..], outbuf.bytePos, outbuf.mask, fout.bytes, start, bits + CodeBits(code[..i]))
    {
      PutBit(outbuf, fout, code[i] == '1', start, bits + CodeBits(code[..i]));
      CodeBitsSnoc(bits, code, i);
    }
    assert code[..|code|] == code;
  }

  lemma {:induction false} CodeBitsSnoc(bits: seq<bool>, code: seq<char>, i: nat)
    requires i < |code|
    ensures bits + CodeBits(code[..i]) + [code[i] == '1'] == bits + CodeBits(code[..i + 1])
  {
    assert CodeBits(code[..i + 1]) == CodeBits(code[..i]) + [code[i] == '1'];
  }

  /** write_tree: nothing for a missing tree; otherwise the preorder bits of
      the tree. An internal node only moves the cursor, relying on the
      cursor bit being clear. */
  method WriteTree(outbuf: OutBuffer, fout: OutFile, node: Option<Tree>, ghost start: seq<Byte>, ghost bits: seq<bool>)
    requires outbuf.Valid()
    requires EmittedOf(outbuf.data[..], outbuf.bytePos, outbuf.mask, fout.bytes, start, bits)
    modifies outbuf, outbuf.data, fout
    ensures outbuf.Valid()
    ensures EmittedOf(outbuf.data[..], outbuf.bytePos, outbuf.mask, fout.bytes, start,
                      bits + if node.Some? then TreeBits(node.value) else [])
    decreases if node.Some? then Height(node.value) + 1 else 0
  {
    if node.None? {
      AppendNil(bits);
      return;
    }
    var t := node.value;
    if t.Leaf? {
      PutBit(outbuf, fout, true, start, bits);
      WriteCharToOutbuf(outbuf, fout, t.sym, start, bits + [true]);
      Assoc(bits, [true], BitsOfByte(t.sym));
    } else {
      PutBit(outbuf, fout, false, start, bits);
      WriteTree(outbuf, fout, Some(t.left), start, bits + [false]);
      WriteTree(outbuf, fout, Some(t.right), start, bits + [false] + TreeBits(t.left));
      Assoc4(bits, [false], TreeBits(t.left), TreeBits(t.right));
    }
  }

  // ---------------------------------------------------------------------
  // Reading bits through the input buffer
  // ---------------------------------------------------------------------

  /** The input buffer is at a bit of file `f` it can deliver. */
  ghost predicate Reading(inbuf: InBuffer, f: InFile)
    reads inbuf, inbuf.data, f
  {
    f.Valid() && inbuf.Tracks(f) && inbuf.bytePos < BUF_SIZE
  }

  /** The bit under the cursor: set exactly when the stream bit at the
      stream position is. */
  method GetStreamBit(inbuf: InBuffer, f: InFile) returns (r: Byte)
    requires Reading(inbuf, f)
    ensures r != 0 <==> At(BytesToBits(f.bytes), inbuf.pos)
  {
    r := inbuf.GetBit(f);
    BitIsAt(f.bytes, inbuf.pos);
  }

  /** `if (inbuf_next_bit()) read_from_file(fInput);`: move to the next bit
      and refill the buffer when it ran out. */
  method Advance(inbuf: InBuffer, f: InFile)
    requires Reading(inbuf, f)
    modifies inbuf, inbuf.data, f
    ensures Reading(inbuf, f)
    ensures inbuf.pos == old(inbuf.pos) + 1
  {
    var end := inbuf.NextBit(f);
    if end {
      var _ := inbuf.ReadFromFile(f, true);
    }
  }

  /** read_char_from_inbuf: eight bits, least significant first, into a
      byte. */
  method ReadCharFromInbuf(inbuf: InBuffer, f: InFile) returns (c: Byte)
    requires Reading(inbuf, f)
    modifies inbuf, inbuf.data, f
    ensures Reading(inbuf, f)
    ensures inbuf.pos == old(inbuf.pos) + 8
    ensures c == SymAt(BytesToBits(f.bytes), old(inbuf.pos))
  {
    ghost var s := BytesToBits(f.bytes);
    ghost var p0 := inbuf.pos;
    c := 0;
    var bitMask: Byte := 1;
    ghost var k := 0;
    while bitMask != 0
      invariant k <= 8 && (k < 8 ==> bitMask == Mask(k)) && (k == 8 ==> bitMask == 0)
      invariant Reading(inbuf, f) && inbuf.pos == p0 + k
      invariant forall j :: 0 <= j < 8 ==> BitsOfByte(c)[j] == (j < k && At(s, p0 + j))
      decreases 8 - k
    {
      c, bitMask := ReadBitInto(inbuf, f, c, bitMask, s, p0, k);
      k := k + 1;
    }
    SymAtOfBits(s, p0, c);
  }

  /** One turn of read_char_from_inbuf's loop: the bit under the cursor
      stored at the mask's place, then the cursor and the mask moved on. */
  method ReadBitInto(inbuf: InBuffer, f: InFile, c: Byte, bitMask: Byte,
                     ghost s: seq<bool>, ghost p0: nat, ghost k: nat)
    returns (c': Byte, bitMask': Byte)
    requires s == BytesToBits(f.bytes) && k < 8 && bitMask == Mask(k)
    requires Reading(inbuf, f) && inbuf.pos == p0 + k
    requires forall j :: 0 <= j < 8 ==> BitsOfByte(c)[j] == (j < k && At(s, p0 + j))
    modifies inbuf, inbuf.data, f
    ensures k < 7 ==> bitMask' == Mask(k + 1)
    ensures k == 7 ==> bitMask' == 0
    ensures Reading(inbuf, f) && inbuf.pos == p0 + k + 1
    ensures forall j :: 0 <= j < 8 ==> BitsOfByte(c')[j] == (j < k + 1 && At(s, p0 + j))
  {
    var r := GetStreamBit(inbuf, f);
    c' := c;
    if r != 0 {
      c' := c | bitMask;
    }
    StoreBit(c, c', k, r != 0);
    Advance(inbuf, f);
    NextMask(bitMask, k);
    bitMask' := bitMask << 1;
  }

  /** OR-ing the mask of bit k into a byte when `b` sets that bit to `b`
      and keeps every other bit. */
  lemma {:induction false} StoreBit(c0: Byte, c: Byte, k: nat, b: bool)
    requires k < 8 && c == (if b then c0 | Mask(k) else c0)
    requires !BitsOfByte(c0)[k]
    ensures forall j :: 0 <= j < 8 ==> BitsOfByte(c)[j] == (BitsOfByte(c0)[j] || (j == k && b))
  {
    forall j | 0 <= j < 8
      ensures BitsOfByte(c)[j] == (BitsOfByte(c0)[j] || (j == k && b))
    {
      BitIndex(c, j);
      BitIndex(c0, j);
      OrBit(c0, Mask(k), Mask(j));
      if j != k {
        MaskDistinct(j, k);
      }
    }
  }

  lemma {:induction false} MaskDistinct(j: nat, k: nat)
    requires j < 8 && k < 8 && j != k
    ensures Mask(j) != Mask(k)
  {
  }

  /** read_tree: a set bit and eight symbol bits make a leaf, a clear bit
      an internal node whose left and then right subtree follow; every node
      gets frequency 0. On a stream with no complete tree the C function
      never returns, so the caller names a bound `limit` before which the
      tree is complete. */
  method ReadTree(inbuf: InBuffer, f: InFile, ghost limit: nat) returns (node: Tree)
    requires Reading(inbuf, f)
    requires ParseAt(BytesToBits(f.bytes), inbuf.pos, limit).Parsed?
    modifies inbuf, inbuf.data, f
    ensures Reading(inbuf, f)
    ensures ParseAt(BytesToBits(f.bytes), old(inbuf.pos), limit) == Parsed(node, inbuf.pos)
    decreases limit - inbuf.pos, 1
  {
    ghost var s := BytesToBits(f.bytes);
    ghost var p0 := inbuf.pos;
    var isLeaf := ReadFlag(inbuf, f);
    if isLeaf {
      node := ReadLeaf(inbuf, f, s, limit, p0);
    } else {
      node := ReadNode(inbuf, f, s, limit, p0);
    }
  }

  /** The rest of an internal node in read_tree: its left subtree, then
      its right one. */
  method ReadNode(inbuf: InBuffer, f: InFile, ghost s: seq<bool>, ghost limit: nat, ghost p0: nat)
    returns (node: Tree)
    requires Reading(inbuf, f) && inbuf.pos == p0 + 1 && s == BytesToBits(f.bytes)
    requires ParseAt(s, p0, limit).Parsed? && !At(s, p0)
    modifies inbuf, inbuf.data, f
    ensures Reading(inbuf, f)
    ensures ParseAt(s, p0, limit) == Parsed(node, inbuf.pos)
    decreases limit - p0, 0
  {
    ParseSubtrees(s, p0, limit);
    var left := ReadTree(inbuf, f, limit);
    ghost var mid := inbuf.pos;
    var right := ReadTree(inbuf, f, limit);
    node := Node(0, left, right);
    ParseNode(s, p0, limit, left, mid, right, inbuf.pos);
  }

  /** The first bit of a node in read_tree: set for a leaf. */
  method ReadFlag(inbuf: InBuffer, f: InFile) returns (isLeaf: bool)
    requires Reading(inbuf, f)
    modifies inbuf, inbuf.data, f
    ensures Reading(inbuf, f)
    ensures inbuf.pos == old(inbuf.pos) + 1 && isLeaf == At(BytesToBits(f.bytes), old(inbuf.pos))
  {
    var bit := GetStreamBit(inbuf, f);
    Advance(inbuf, f);
    isLeaf := bit != 0;
  }

  /** The rest of a leaf in read_tree: its eight symbol bits. */
  method ReadLeaf(inbuf: InBuffer, f: InFile, ghost s: seq<bool>, ghost limit: nat, ghost p0: nat)
    returns (node: Tree)
    requires Reading(inbuf, f) && inbuf.pos == p0 + 1 && s == BytesToBits(f.bytes)
    requires ParseAt(s, p0, limit).Parsed? && At(s, p0)
    modifies inbuf, inbuf.data, f
    ensures Reading(inbuf, f)
    ensures ParseAt(s, p0, limit) == Parsed(node, inbuf.pos)
  {
    ParsedLeaf(s, p0, limit);
    var c := ReadCharFromInbuf(inbuf, f);
    node := Leaf(c, 0);
  }

  // ---------------------------------------------------------------------
  // Encoding
  // ---------------------------------------------------------------------

  /** The codes' bits of the bytes src[a..b], in order: the payload of a
      window of a file, indexed rather than sliced. */
  function Coded(rows: seq<seq<char>>, src: seq<Byte>, a: nat, b: nat): seq<bool>
    requires |rows| == ALPH_SIZE && a <= b <= |src|
    decreases b - a
  {
    if b == a then [] else Coded(rows, src, a, b - 1) + CodeBits(rows[src[b - 1] as int])
  }

  /** The window's bits are the payload of the window's bytes. */
  lemma {:induction false} CodedPayload(rows: seq<seq<char>>, src: seq<Byte>, a: nat, b: nat)
    requires |rows| == ALPH_SIZE && a <= b <= |src|
    ensures Coded(rows, src, a, b) == Payload(rows, src[a..b])
    decreases b - a
  {
    if b > a {
      CodedPayload(rows, src, a, b - 1);
      SliceSnoc2(src, a, b - 1);
    }
  }

  /** One more code after the bits so far. */
  lemma {:induction false} CodedStep(rows: seq<seq<char>>, src: seq<Byte>, a: nat, b: nat, bits: seq<bool>,
                  emitted: seq<bool>, code: seq<char>)
    requires |rows| == ALPH_SIZE && a <= b < |src|
    requires emitted == bits + Coded(rows, src, a, b) && code == rows[src[b] as int]
    ensures emitted + CodeBits(code) == bits + Coded(rows, src, a, b + 1)
  {
    Assoc(bits, Coded(rows, src, a, b), CodeBits(code));
  }

  /** encode: code every byte from the read position to the end of the
      file, buffer by buffer, after the bits already written; then flush the
      output buffer. */
  method Encode(inbuf: InBuffer, outbuf: OutBuffer, fin: InFile, fout: OutFile, table: array<seq<char>>,
                ghost rows: seq<seq<char>>, ghost start: seq<Byte>, ghost bits: seq<bool>)
    requires table.Length == ALPH_SIZE == |rows| && (forall i :: 0 <= i < ALPH_SIZE ==> table[i] == rows[i])
    requires inbuf.data.Length == BUF_SIZE && fin.Valid()
    requires inbuf.data != outbuf.data && Emitted(outbuf, fout, start, bits)
    modifies inbuf, inbuf.data, fin, outbuf, outbuf.data, fout
    ensures fout.bytes == start + Pack(bits + Payload(rows, fin.bytes[old(fin.pos)..]))
    ensures outbuf.Valid() && ResetOf(outbuf.data[..], outbuf.bytePos, outbuf.mask)
    ensures fin.Valid() && fin.pos == |fin.bytes|
  {
    inbuf.Reset();
    ghost var p0 := fin.pos;
    AppendNil(bits);
    var n := inbuf.ReadFromFile(fin, false);
    while n > 0
      invariant fin.Valid() && inbuf.Valid() && inbuf.bytePos == 0 && n <= BUF_SIZE
      invariant p0 <= inbuf.base <= fin.pos <= |fin.bytes| && fin.pos == inbuf.base + n
      invariant forall i :: 0 <= i < n ==> inbuf.data[i] == fin.bytes[inbuf.base + i]
      invariant n == 0 ==> fin.pos == |fin.bytes|
      invariant Emitted(outbuf, fout, start, bits + Coded(rows, fin.bytes, p0, inbuf.base))
      decreases |fin.bytes| - inbuf.base
    {
      n := EncodeChunk(inbuf, outbuf, fin, fout, table, n, rows, p0, start, bits);
    }
    assert inbuf.base == |fin.bytes|;
    ghost var payload := Payload(rows, fin.bytes[p0..]);
    CodedPayload(rows, fin.bytes, p0, |fin.bytes|);
    SliceToEnd(fin.bytes, p0);
    assert Coded(rows, fin.bytes, p0, inbuf.base) == payload;
    Flush(outbuf, fout, start, bits + payload);
  }

  /** One turn of encode's loop: the codes of the bytes in the buffer, then
      the next chunk of the file into the buffer. */
  method EncodeChunk(inbuf: InBuffer, outbuf: OutBuffer, fin: InFile, fout: OutFile, table: array<seq<char>>,
                     n: nat, ghost rows: seq<seq<char>>, ghost p0: nat, ghost start: seq<Byte>, ghost bits: seq<bool>)
    returns (next: nat)
    requires table.Length == ALPH_SIZE == |rows| && (forall i :: 0 <= i < ALPH_SIZE ==> table[i] == rows[i])
    requires fin.Valid() && inbuf.Valid() && inbuf.bytePos == 0 && 0 < n <= BUF_SIZE
    requires p0 <= inbuf.base <= fin.pos <= |fin.bytes| && fin.pos == inbuf.base + n
    requires forall i :: 0 <= i < n ==> inbuf.data[i] == fin.bytes[inbuf.base + i]
    requires inbuf.data != outbuf.data
    requires Emitted(outbuf, fout, start, bits + Coded(rows, fin.bytes, p0, inbuf.base))
    modifies inbuf, inbuf.data, fin, outbuf, outbuf.data, fout
    ensures fin.Valid() && inbuf.Valid() && inbuf.bytePos == 0 && next <= BUF_SIZE
    ensures inbuf.base == old(inbuf.base) + n && fin.pos == inbuf.base + next <= |fin.bytes|
    ensures forall i :: 0 <= i < next ==> inbuf.data[i] == fin.bytes[inbuf.base + i]
    ensures next == 0 ==> fin.pos == |fin.bytes|
    ensures Emitted(outbuf, fout, start, bits + Coded(rows, fin.bytes, p0, inbuf.base))
  {
    ghost var done := bits + Coded(rows, fin.bytes, p0, inbuf.base + n);
    EncodeBuffer(inbuf, outbuf, fout, table, n, fin, rows, p0, start, bits);
    next := inbuf.ReadFromFile(fin, false);
    assert done == bits + Coded(rows, fin.bytes, p0, inbuf.base);
  }

  /** The final write_to_file of encode: the pending bits go out, the last
      byte padded with zero bits. */
  method Flush(outbuf: OutBuffer, fout: OutFile, ghost start: seq<Byte>, ghost bits: seq<bool>)
    requires Emitted(outbuf, fout, start, bits)
    modifies outbuf, outbuf.data, fout
    ensures fout.bytes == start + Pack(bits)
    ensures outbuf.Valid() && ResetOf(outbuf.data[..], outbuf.bytePos, outbuf.mask)
  {
    ghost var out := fout.bytes;
    ghost var pending := PendingOf(outbuf.data[..], outbuf.bytePos, outbuf.mask);
    var _ := outbuf.WriteToFile(fout);
    FlushAll(out, start, pending, bits);
  }

  /** The inner loop of encode: the codes of the `n` bytes the buffer
      holds. */
  method EncodeBuffer(inbuf: InBuffer, outbuf: OutBuffer, fout: OutFile, table: array<seq<char>>, n: nat,
                      ghost fin: InFile, ghost rows: seq<seq<char>>, ghost p0: nat, ghost start: seq<Byte>, ghost bits: seq<bool>)
    requires table.Length == ALPH_SIZE == |rows| && (forall i :: 0 <= i < ALPH_SIZE ==> table[i] == rows[i]) && inbuf.Valid() && inbuf.bytePos == 0
    requires 0 < n <= BUF_SIZE && p0 <= inbuf.base && inbuf.base + n <= |fin.bytes|
    requires forall i :: 0 <= i < n ==> inbuf.data[i] == fin.bytes[inbuf.base + i]
    requires inbuf.data != outbuf.data
    requires Emitted(outbuf, fout, start, bits + Coded(rows, fin.bytes, p0, inbuf.base))
    modifies inbuf, outbuf, outbuf.data, fout
    ensures inbuf.Valid() && inbuf.base == old(inbuf.base) && inbuf.pos == old(inbuf.pos)
    ensures inbuf.bytePos == n
    ensures Emitted(outbuf, fout, start, bits + Coded(rows, fin.bytes, p0, inbuf.base + n))
  {
    ghost var src := fin.bytes;
    ghost var emitted := bits + Coded(rows, src, p0, inbuf.base);
    ghost var at := inbuf.base;
    for i := 0 to n
      invariant inbuf.Valid() && inbuf.bytePos == i
      invariant inbuf.base == old(inbuf.base) && inbuf.pos == old(inbuf.pos)
      invariant at == inbuf.base + i
      invariant emitted == bits + Coded(rows, src, p0, at)
      invariant Emitted(outbuf, fout, start, emitted)
    {
      emitted := EncodeNext(inbuf, outbuf, fout, table, src, rows, p0, at, start, bits, emitted);
      at := at + 1;
    }
  }

  /** One turn of encode_buffer's loop: the byte at the buffer's position,
      byte `at` of the file, is coded with the table and its code written
      out. */
  method EncodeNext(inbuf: InBuffer, outbuf: OutBuffer, fout: OutFile, table: array<seq<char>>,
                    ghost src: seq<Byte>, ghost rows: seq<seq<char>>, ghost p0: nat, ghost at: nat,
                    ghost start: seq<Byte>, ghost bits: seq<bool>, ghost emitted: seq<bool>)
    returns (ghost emitted': seq<bool>)
    requires table.Length == ALPH_SIZE == |rows| && (forall i :: 0 <= i < ALPH_SIZE ==> table[i] == rows[i])
    requires inbuf.Valid() && inbuf.bytePos < BUF_SIZE && p0 <= at < |src|
    requires inbuf.data[inbuf.bytePos] == src[at]
    requires inbuf.data != outbuf.data
    requires emitted == bits + Coded(rows, src, p0, at)
    requires Emitted(outbuf, fout, start, emitted)
    modifies inbuf, outbuf, outbuf.data, fout
    ensures inbuf.Valid() && inbuf.base == old(inbuf.base) && inbuf.pos == old(inbuf.pos)
    ensures inbuf.bytePos == old(inbuf.bytePos) + 1
    ensures emitted' == bits + Coded(rows, src, p0, at + 1)
    ensures Emitted(outbuf, fout, start, emitted')
  {
    var b := inbuf.GetByte();
    var code := GetCode(table, b);
    var _ := inbuf.NextByte();
    WriteCodeToOutbuf(outbuf, fout, code, start, emitted);
    CodedStep(rows, src, p0, at, bits, emitted, code);
    emitted' := emitted + CodeBits(code);
  }

  /** encode_file: count the bytes of the file from the read position on,
      build the code tree and table from the counts, write the tree and then
      the file coded with the table, from its start. The counters are 32-bit
      in the source, so the counted part is at most UINT_MAX bytes. */
  method EncodeFile(fin: InFile, fout: OutFile, inbuf: InBuffer, outbuf: OutBuffer,
                    freq: array<nat>, table: array<seq<char>>) returns (ghost root: Option<Tree>)
    requires fin.Valid() && |fin.bytes| - fin.pos <= UINT_MAX
    requires freq.Length == ALPH_SIZE && table.Length == ALPH_SIZE && inbuf.data.Length == BUF_SIZE
    requires outbuf.Valid() && ResetOf(outbuf.data[..], outbuf.bytePos, outbuf.mask)
    requires inbuf.data != outbuf.data
    modifies fin, fout, inbuf, inbuf.data, outbuf, outbuf.data, freq, table
    ensures root.None? <==> old(fin.pos) == |fin.bytes|
    ensures root.Some? ==> CodeTreeOf(root.value, Histogram(fin.bytes[old(fin.pos)..]))
    ensures root.Some? ==> forall x :: x in Syms(root.value) <==> x in fin.bytes[old(fin.pos)..]
    ensures fout.bytes == old(fout.bytes) + Pack(Encoded(root, fin.bytes))
    ensures outbuf.Valid() && ResetOf(outbuf.data[..], outbuf.bytePos, outbuf.mask)
    ensures fin.Valid() && fin.pos == |fin.bytes|
  {
    ghost var counted := fin.bytes[fin.pos..];
    AnalyzeFile(freq, inbuf, fin);
    var tree := BuildCodes(freq, table, counted);
    root := tree;
    ghost var start := fout.bytes;
    ResetEmitsNothing(outbuf.data[..], start);
    WriteTree(outbuf, fout, tree, start, []);
    ghost var header := if tree.Some? then TreeBits(tree.value) else [];
    AppendNil(header);
    assert fin.pos == 0 && fin.bytes[0..] == fin.bytes;
    Encode(inbuf, outbuf, fin, fout, table, table[..], start, header);
  }

  /** The middle of encode_file: build_code_tree from the counts, then
      build_code_table from the tree. */
  method BuildCodes(freq: array<nat>, table: array<seq<char>>, ghost counted: seq<Byte>)
    returns (root: Option<Tree>)
    requires freq.Length == ALPH_SIZE && table.Length == ALPH_SIZE
    requires freq[..] == Histogram(counted) && |counted| <= UINT_MAX
    modifies table
    ensures root.None? <==> counted == []
    ensures root.Some? ==> CodeTreeOf(root.value, Histogram(counted))
    ensures root.Some? ==> forall x :: x in Syms(root.value) <==> x in counted
    ensures table[..] == Codes(root)
  {
    root := BuildCodeTree(freq);
    HistogramEmpty(counted);
    if root.Some? {
      InputTree(counted, root.value);
    }
    BuildCodeTable(table, root);
  }

  // ---------------------------------------------------------------------
  // Decoding
  // ---------------------------------------------------------------------

  /** The symbols decode writes: `n` walks from `pos`, none without a tree. */
  function DecodedSyms(root: Option<Tree>, s: seq<bool>, pos: nat, n: nat): (syms: seq<Byte>)
    requires root.Some? || n == 0
    ensures |syms| == n
  {
    if root.None? then [] else DecodeN(root.value, s, pos, n).syms
  }

  /** The inner loop of decode: from the root, a set bit goes right and a
      clear bit goes left until a leaf, whose symbol is returned. A single
      leaf takes no bits. */
  method WalkDown(inbuf: InBuffer, fin: InFile, root: Tree) returns (sym: Byte)
    requires Reading(inbuf, fin)
    modifies inbuf, inbuf.data, fin
    ensures Reading(inbuf, fin)
    ensures Walk(root, BytesToBits(fin.bytes), old(inbuf.pos)) == Step(sym, inbuf.pos)
  {
    ghost var s := BytesToBits(fin.bytes);
    var node := root;
    while node.Node?
      invariant Reading(inbuf, fin)
      invariant Walk(node, s, inbuf.pos) == Walk(root, s, old(inbuf.pos))
      decreases node
    {
      var b := GetStreamBit(inbuf, fin);
      if b != 0 {
        node := node.right;
      } else {
        node := node.left;
      }
      Advance(inbuf, fin);
    }
    sym := node.sym;
  }

  /** Storing one more decoded byte at the cursor extends what the file and
      the buffer hold together by that byte. */
  lemma {:induction false} StoreByte(before: seq<Byte>, d: seq<Byte>, bp: nat, sym: Byte, whole: seq<Byte>)
    requires bp < |d| && before + d[..bp] == whole
    ensures before + d[bp := sym][..bp + 1] == whole + [sym]
  {
    assert d[bp := sym][..bp + 1] == d[..bp] + [sym];
  }

  /** decode: `fileSize` symbols, each from a walk down from the root, out
      through the byte-wise output buffer; then the rest of the buffer. */
  method Decode(inbuf: InBuffer, outbuf: OutBuffer, fin: InFile, fout: OutFile, fileSize: nat, root: Option<Tree>)
    requires Reading(inbuf, fin) && outbuf.data.Length == BUF_SIZE && inbuf.data != outbuf.data
    requires root.Some? || fileSize == 0
    modifies inbuf, inbuf.data, fin, outbuf, outbuf.data, fout
    ensures Reading(inbuf, fin)
    ensures root.Some? ==> inbuf.pos == DecodeN(root.value, BytesToBits(fin.bytes), old(inbuf.pos), fileSize).end
    ensures fileSize == 0 ==> inbuf.pos == old(inbuf.pos)
    ensures fout.bytes == old(fout.bytes) + DecodedSyms(root, BytesToBits(fin.bytes), old(inbuf.pos), fileSize)
    ensures outbuf.Valid() && ResetOf(outbuf.data[..], outbuf.bytePos, outbuf.mask)
  {
    ghost var s := BytesToBits(fin.bytes);
    ghost var p0 := inbuf.pos;
    ghost var out0 := fout.bytes;
    outbuf.Reset();
    for k := 0 to fileSize
      invariant Reading(inbuf, fin)
      invariant outbuf.Valid() && outbuf.bytePos < BUF_SIZE && outbuf.mask == 1
      invariant root.Some? ==> inbuf.pos == DecodeN(root.value, s, p0, k).end
      invariant root.None? ==> inbuf.pos == p0
      invariant fout.bytes + outbuf.data[..outbuf.bytePos] == out0 + DecodedSyms(root, s, p0, k)
    {
      var _ := DecodeSymbol(inbuf, outbuf, fin, fout, root.value, out0 + DecodedSyms(root, s, p0, k));
    }
    var _ := outbuf.WriteToFile(fout);
  }

  /** One turn of decode's loop: walk down to a leaf, store its symbol in
      the output buffer, and flush the buffer when it is full. */
  method DecodeSymbol(inbuf: InBuffer, outbuf: OutBuffer, fin: InFile, fout: OutFile, root: Tree,
                      ghost whole: seq<Byte>) returns (sym: Byte)
    requires Reading(inbuf, fin) && inbuf.data != outbuf.data
    requires outbuf.Valid() && outbuf.bytePos < BUF_SIZE && outbuf.mask == 1
    requires fout.bytes + outbuf.data[..outbuf.bytePos] == whole
    modifies inbuf, inbuf.data, fin, outbuf, outbuf.data, fout
    ensures Reading(inbuf, fin)
    ensures outbuf.Valid() && outbuf.bytePos < BUF_SIZE && outbuf.mask == 1
    ensures Walk(root, BytesToBits(fin.bytes), old(inbuf.pos)) == Step(sym, inbuf.pos)
    ensures fout.bytes + outbuf.data[..outbuf.bytePos] == whole + [sym]
  {
    sym := WalkDown(inbuf, fin, root);
    StoreByte(fout.bytes, outbuf.data[..], outbuf.bytePos, sym, whole);
    outbuf.SetByte(sym);
    var end := outbuf.NextByte();
    if end {
      var _ := outbuf.WriteToFile(fout);
      AppendNil(fout.bytes);
    }
  }

  /** What decode_file writes for a stream whose tree starts at bit `pos`:
      nothing for an empty file; otherwise `n` symbols decoded with the tree
      read there, from the end of its bits on. */
  function Unpacked(s: seq<bool>, pos: nat, n: nat, limit: nat): (syms: seq<Byte>)
    requires n == 0 || ParseAt(s, pos, limit).Parsed?
    ensures |syms| == n
  {
    if n == 0 then []
    else
      var p := ParseAt(s, pos, limit);
      DecodeN(p.tree, s, p.end, n).syms
  }

  /** decode_file: fill the input buffer from the read position, read the
      tree when the file is not empty, then decode `fileSize` symbols. The
      tree must be complete before bit `limit`; on a stream where it is not,
      read_tree does not stop. */
  method DecodeFile(inbuf: InBuffer, outbuf: OutBuffer, fin: InFile, fout: OutFile, fileSize: nat,
                    ghost limit: nat) returns (ghost root: Option<Tree>)
    requires fin.Valid() && inbuf.data.Length == BUF_SIZE && outbuf.data.Length == BUF_SIZE
    requires inbuf.data != outbuf.data
    requires fileSize > 0 ==> ParseAt(BytesToBits(fin.bytes), 8 * fin.pos, limit).Parsed?
    modifies inbuf, inbuf.data, fin, outbuf, outbuf.data, fout
    ensures root.None? <==> fileSize == 0
    ensures root.Some? ==> root.value == ParseAt(BytesToBits(fin.bytes), 8 * old(fin.pos), limit).tree
    ensures fout.bytes == old(fout.bytes) + Unpacked(BytesToBits(fin.bytes), 8 * old(fin.pos), fileSize, limit)
    ensures outbuf.Valid() && ResetOf(outbuf.data[..], outbuf.bytePos, outbuf.mask)
  {
    var _ := inbuf.ReadFromFile(fin, false);
    var tree: Option<Tree> := None;
    if fileSize > 0 {
      var t := ReadTree(inbuf, fin, limit);
      tree := Some(t);
    }
    root := tree;
    Decode(inbuf, outbuf, fin, fout, fileSize, tree);
  }

  /** The round trip: wherever encode_file's output for an input sits in a
      file, decode_file from there, told the input's length, gives the input
      back, for any limit past the encoded bits. */
  lemma {:induction false} RoundTrip(file: seq<Byte>, pre: seq<Byte>, input: seq<Byte>, rest: seq<Byte>, root: Option<Tree>, limit: nat)
    requires file == pre + Pack(Encoded(root, input)) + rest
    requires root.None? <==> input == []
    requires root.Some? ==> forall x :: x in input ==> x in Syms(root.value)
    requires 8 * |pre| + |Encoded(root, input)| <= limit
    ensures |input| == 0 || ParseAt(BytesToBits(file), 8 * |pre|, limit).Parsed?
    ensures |input| == 0 || Unpacked(BytesToBits(file), 8 * |pre|, |input|, limit) == input
  {
    if root.Some? {
      PackedHolds(pre, Encoded(root, input), rest);
      DecodeHeld(BytesToBits(file), 8 * |pre|, root.value, input, limit);
    }
  }

  /** Reading back encoded bits held at `pos` of a stream. */
  lemma {:induction false} DecodeHeld(s: seq<bool>, pos: nat, t: Tree, input: seq<Byte>, limit: nat)
    requires Holds(s, pos, Encoded(Some(t), input)) && pos + |Encoded(Some(t), input)| <= limit
    requires input != [] && forall x :: x in input ==> x in Syms(t)
    ensures ParseAt(s, pos, limit).Parsed?
    ensures Unpacked(s, pos, |input|, limit) == input
  {
    ReadEncodedTree(t, input, s, pos, limit);
    DecodeEncoded(t, input, s, pos);
    UnpackedOf(s, pos, |input|, limit, Shape(t), pos + |TreeBits(t)|);
  }


  lemma {:induction false} UnpackedOf(s: seq<bool>, pos: nat, n: nat, limit: nat, t: Tree, end: nat)
    requires n > 0 && ParseAt(s, pos, limit) == Parsed(t, end)
    ensures Unpacked(s, pos, n, limit) == DecodeN(t, s, end, n).syms
  {
  }

}
