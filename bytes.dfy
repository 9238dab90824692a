/** Bytes, their bits (least significant first) and the bit-packing of a bit
    string into bytes, as the bit buffers of the archiver lay them out. */
module Bytes {

  type Byte = bv8

  /** The eight bits of a byte, least significant first. */
  function BitsOfByte(b: Byte): (bits: seq<bool>)
    ensures |bits| == 8
  {
    [b & 1 != 0, b & 2 != 0, b & 4 != 0, b & 8 != 0,
     b & 16 != 0, b & 32 != 0, b & 64 != 0, b & 128 != 0]
  }

  lemma {:induction false} BitsOfByteIs(b: Byte, x0: bool, x1: bool, x2: bool, x3: bool,
                     x4: bool, x5: bool, x6: bool, x7: bool)
    requires (b & 1 != 0) == x0 && (b & 2 != 0) == x1 && (b & 4 != 0) == x2
    requires (b & 8 != 0) == x3 && (b & 16 != 0) == x4 && (b & 32 != 0) == x5
    requires (b & 64 != 0) == x6 && (b & 128 != 0) == x7
    ensures BitsOfByte(b) == [x0, x1, x2, x3, x4, x5, x6, x7]
  {
  }

  /** The byte with the eight given bits, least significant first. */
  function ComposeByte(x0: bool, x1: bool, x2: bool, x3: bool,
                       x4: bool, x5: bool, x6: bool, x7: bool): (b: Byte)
    ensures BitsOfByte(b) == [x0, x1, x2, x3, x4, x5, x6, x7]
  {
    var b: Byte := (if x0 then 1 else 0) | (if x1 then 2 else 0) | (if x2 then 4 else 0) |
      (if x3 then 8 else 0) | (if x4 then 16 else 0) | (if x5 then 32 else 0) |
      (if x6 then 64 else 0) | (if x7 then 128 else 0);
    BitsOfByteIs(b, x0, x1, x2, x3, x4, x5, x6, x7);
    b
  }

  /** The byte whose bits, least significant first, are `bits`. */
  function ByteOfBits(bits: seq<bool>): (b: Byte)
    requires |bits| == 8
    ensures BitsOfByte(b) == bits
  {
    assert bits == [bits[0], bits[1], bits[2], bits[3], bits[4], bits[5], bits[6], bits[7]];
    ComposeByte(bits[0], bits[1], bits[2], bits[3], bits[4], bits[5], bits[6], bits[7])
  }

  lemma {:induction false} ByteOfBitsOfByte(b: Byte)
    ensures ByteOfBits(BitsOfByte(b)) == b
  {
  }

  /** A symbol number below 256 survives the trip through a byte. */
  lemma {:induction false} NatByte(x: nat)
    requires x < 256
    ensures (x as Byte) as nat == x
  {
    // The case split keeps the solver's reasoning about the conversion small.
    if x < 32 {
    } else if x < 64 {
    } else if x < 128 {
    } else if x < 192 {
    } else {
    }
  }

  /** A byte survives the trip through its number. */
  lemma {:induction false} ByteNat(b: Byte)
    ensures (b as nat) as Byte == b
  {
  }

  /** A one-bit mask of a byte: 1, 2, 4, ..., 128. */
  predicate IsMask(m: Byte) {
    m != 0 && m & (m - 1) == 0
  }

  lemma {:induction false} MaskCases(m: Byte)
    requires IsMask(m)
    ensures m == 1 || m == 2 || m == 4 || m == 8 || m == 16 || m == 32 || m == 64 || m == 128
  {
  }

  /** The index of the bit a mask selects. */
  function Log2(m: Byte): (k: nat)
    requires IsMask(m)
    ensures k < 8
  {
    if m == 1 then 0 else if m == 2 then 1 else if m == 4 then 2 else if m == 8 then 3
    else if m == 16 then 4 else if m == 32 then 5 else if m == 64 then 6 else 7
  }

  /** The mask selecting bit `j`. */
  function Mask(j: nat): (m: Byte)
    requires j < 8
    ensures IsMask(m) && Log2(m) == j
  {
    if j == 0 then 1 else if j == 1 then 2 else if j == 2 then 4 else if j == 3 then 8
    else if j == 4 then 16 else if j == 5 then 32 else if j == 6 then 64 else 128
  }

  lemma {:induction false} MaskOfLog2(m: Byte)
    requires IsMask(m)
    ensures Mask(Log2(m)) == m
  {
  }

  /** Bit `j` of a byte is the bit its mask selects. */
  lemma {:induction false} BitIndex(b: Byte, j: nat)
    requires j < 8
    ensures BitsOfByte(b)[j] == (b & Mask(j) != 0)
  {
  }

  /** Setting or clearing the bit of mask `m` leaves the bit of every other
      mask `c` alone. */
  lemma {:induction false} OrBit(b: Byte, m: Byte, c: Byte)
    requires IsMask(m) && IsMask(c)
    ensures ((b | m) & c != 0) == ((b & c != 0) || m == c)
    ensures ((b & !m) & c != 0) == ((b & c != 0) && m != c)
  {
  }

  /** Bit `Log2(m)` of a byte is the bit `m` selects. */
  lemma {:induction false} MaskBit(b: Byte, m: Byte)
    requires IsMask(m)
    ensures BitsOfByte(b)[Log2(m)] == (b & m != 0)
  {
    BitIndex(b, Log2(m));
    MaskOfLog2(m);
  }

  /** The first `k` bits of a byte, least significant first. */
  function LowBits(b: Byte, k: nat): (bits: seq<bool>)
    requires k <= 8
    ensures |bits| == k
  {
    BitsOfByte(b)[..k]
  }

  /** The bit string of a byte sequence: each byte's bits in turn. */
  function BytesToBits(s: seq<Byte>): (bits: seq<bool>)
    ensures |bits| == 8 * |s|
  {
    if s == [] then [] else BitsOfByte(s[0]) + BytesToBits(s[1..])
  }

  lemma {:induction false} BytesToBitsAppend(a: seq<Byte>, b: seq<Byte>)
    ensures BytesToBits(a + b) == BytesToBits(a) + BytesToBits(b)
  {
    if a == [] {
      assert a + b == b;
    } else {
      assert (a + b)[1..] == a[1..] + b;
      BytesToBitsAppend(a[1..], b);
    }
  }

  lemma {:induction false} BytesToBitsAt(s: seq<Byte>, i: nat)
    requires i < 8 * |s|
    ensures BytesToBits(s)[i] == BitsOfByte(s[i / 8])[i % 8]
  {
    var head, rest := BitsOfByte(s[0]), BytesToBits(s[1..]);
    assert BytesToBits(s) == head + rest;
    if i < 8 {
      assert i / 8 == 0 && i % 8 == i;
      assert (head + rest)[i] == head[i];
    } else {
      assert (head + rest)[i] == rest[i - 8];
      assert i / 8 == (i - 8) / 8 + 1 && i % 8 == (i - 8) % 8;
      BytesToBitsAt(s[1..], i - 8);
    }
  }

  lemma {:induction false} SliceSnoc(s: seq<Byte>, i: nat)
    requires i < |s|
    ensures s[..i + 1] == s[..i] + [s[i]]
  {
  }

  lemma {:induction false} SliceJoin<T>(s: seq<T>, i: nat, j: nat, k: nat)
    requires i <= j <= k <= |s|
    ensures s[i..j] + s[j..k] == s[i..k]
  {
  }

  /** The byte at offset `i` of a file, or 0 past its end: what a zeroed
      buffer holds where a short read left it untouched. */
  function ByteAt(src: seq<Byte>, i: nat): Byte {
    if i < |src| then src[i] else 0
  }

  /** Bit `i` of a file read as a bit stream; every bit past the end reads 0. */
  function Bit(src: seq<Byte>, i: nat): bool {
    BitsOfByte(ByteAt(src, i / 8))[i % 8]
  }

  lemma {:induction false} BitPastEnd(src: seq<Byte>, i: nat)
    requires i >= 8 * |src|
    ensures !Bit(src, i)
  {
  }

  lemma {:induction false} BitOfBytes(src: seq<Byte>, i: nat)
    requires i < 8 * |src|
    ensures Bit(src, i) == BytesToBits(src)[i]
  {
    BytesToBitsAt(src, i);
  }

  /** The bits of `src` from position `p` on, `n` of them. */
  function BitsFrom(src: seq<Byte>, p: nat, n: nat): (bits: seq<bool>)
    ensures |bits| == n
    ensures forall i :: 0 <= i < n ==> bits[i] == Bit(src, p + i)
  {
    seq(n, i requires 0 <= i < n => Bit(src, p + i))
  }

  function Zeros(n: nat): (z: seq<bool>)
    ensures |z| == n && forall i :: 0 <= i < n ==> !z[i]
  {
    seq(n, _ => false)
  }

  /** The bytes a bit string is packed into, eight bits per byte, least
      significant first; the last byte is padded with zero bits. */
  function Pack(bits: seq<bool>): (s: seq<Byte>)
    ensures |s| == (|bits| + 7) / 8
    decreases |bits|
  {
    if |bits| == 0 then []
    else if |bits| < 8 then [ByteOfBits(bits + Zeros(8 - |bits|))]
    else [ByteOfBits(bits[..8])] + Pack(bits[8..])
  }

  /** Packing keeps every bit: bit i of the packed bytes (followed by
      anything) is bit i of the string. */
  lemma {:induction false} PackBit(bits: seq<bool>, rest: seq<Byte>, i: nat)
    requires i < |bits|
    ensures Bit(Pack(bits) + rest, i) == bits[i]
    decreases |bits|
  {
    if i < 8 {
      PackHeadBit(bits, rest, i);
    } else {
      var c, q := ByteOfBits(bits[..8]), Pack(bits[8..]) + rest;
      assert Pack(bits) + rest == [c] + q;
      BitShift(c, q, i);
      PackBit(bits[8..], rest, i - 8);
      assert bits[8..][i - 8] == bits[i];
    }
  }

  lemma {:induction false} PackHeadBit(bits: seq<bool>, rest: seq<Byte>, i: nat)
    requires i < 8 && i < |bits|
    ensures Bit(Pack(bits) + rest, i) == bits[i]
  {
    var first := if |bits| < 8 then bits + Zeros(8 - |bits|) else bits[..8];
    PackHead(bits);
    HeadBit(Pack(bits) + rest, i);
    assert (Pack(bits) + rest)[0] == Pack(bits)[0];
    assert first[i] == bits[i];
  }

  /** The first packed byte holds the first eight bits, zero-padded. */
  lemma {:induction false} PackHead(bits: seq<bool>)
    requires 0 < |bits|
    ensures Pack(bits)[0] == ByteOfBits(if |bits| < 8 then bits + Zeros(8 - |bits|) else bits[..8])
  {
  }

  /** The first eight bits of a stream are the bits of its first byte. */
  lemma {:induction false} HeadBit(p: seq<Byte>, i: nat)
    requires 0 < |p| && i < 8
    ensures Bit(p, i) == BitsOfByte(p[0])[i]
  {
    assert i / 8 == 0 && i % 8 == i;
  }

  lemma {:induction false} BitShift(c: Byte, q: seq<Byte>, i: nat)
    requires i >= 8
    ensures Bit([c] + q, i) == Bit(q, i - 8)
  {
    assert i / 8 == (i - 8) / 8 + 1 && i % 8 == (i - 8) % 8;
    assert ByteAt([c] + q, i / 8) == ByteAt(q, (i - 8) / 8);
  }

  lemma {:induction false} PackCons(b: Byte, rest: seq<bool>)
    ensures Pack(BitsOfByte(b) + rest) == [b] + Pack(rest)
  {
    var bs := BitsOfByte(b) + rest;
    assert bs[..8] == BitsOfByte(b);
    assert bs[8..] == rest;
    ByteOfBitsOfByte(b);
  }

  /** Whole bytes turned into bits pack back into the same bytes. */
  lemma {:induction false} PackBytes(d: seq<Byte>, tail: seq<bool>)
    ensures Pack(BytesToBits(d) + tail) == d + Pack(tail)
  {
    if d == [] {
      PackBytesNil(tail);
    } else {
      PackFirstByte(d, tail);
      PackBytes(d[1..], tail);
      ConsAppend(d, Pack(tail));
    }
  }

  lemma {:induction false} PackBytesNil(tail: seq<bool>)
    ensures Pack(BytesToBits([]) + tail) == [] + Pack(tail)
  {
    assert BytesToBits([]) + tail == tail;
  }

  lemma {:induction false} ConsAppend(d: seq<Byte>, q: seq<Byte>)
    requires d != []
    ensures [d[0]] + (d[1..] + q) == d + q
  {
  }

  lemma {:induction false} PackFirstByte(d: seq<Byte>, tail: seq<bool>)
    requires d != []
    ensures Pack(BytesToBits(d) + tail) == [d[0]] + Pack(BytesToBits(d[1..]) + tail)
  {
    assert BytesToBits(d) + tail == BitsOfByte(d[0]) + (BytesToBits(d[1..]) + tail);
    PackCons(d[0], BytesToBits(d[1..]) + tail);
  }

  /** A partial byte whose bits from position k up are zero packs into itself. */
  lemma {:induction false} PackPartial(b: Byte, k: nat)
    requires 0 < k < 8
    requires forall j :: k <= j < 8 ==> !BitsOfByte(b)[j]
    ensures Pack(LowBits(b, k)) == [b]
  {
    PaddedLowBits(b, k);
    PackShort(LowBits(b, k));
    ByteOfBitsOfByte(b);
  }

  lemma {:induction false} PaddedLowBits(b: Byte, k: nat)
    requires 0 < k < 8
    requires forall j :: k <= j < 8 ==> !BitsOfByte(b)[j]
    ensures LowBits(b, k) + Zeros(8 - k) == BitsOfByte(b)
  {
  }

  lemma {:induction false} PackShort(bits: seq<bool>)
    requires 0 < |bits| < 8
    ensures Pack(bits) == [ByteOfBits(bits + Zeros(8 - |bits|))]
  {
  }

  // Concatenation regrouped.

  lemma {:induction false} Assoc<T>(a: seq<T>, b: seq<T>, c: seq<T>)
    ensures a + b + c == a + (b + c)
  {
  }

  lemma {:induction false} Assoc4<T>(a: seq<T>, b: seq<T>, c: seq<T>, d: seq<T>)
    ensures a + b + c + d == a + (b + c + d)
  {
  }

  lemma {:induction false} AppendNil<T>(a: seq<T>)
    ensures a + [] == a && [] + a == a
  {
  }
}
