/** The cursor of a bit buffer: a byte index and a one-bit mask over a byte
    sequence, the bits written before it, and what each cursor step does to
    them. The buffers of binary_buffer.c are built on this. */
module BitCursor {
  import opened Bytes

  /** Shifting a mask left moves it up one bit; past 128 it wraps to 0. */
  lemma {:induction false} ShiftMask(m: Byte)
    requires IsMask(m)
    ensures m == 128 <==> m << 1 == 0
    ensures m != 128 ==> IsMask(m << 1) && Log2(m << 1) == Log2(m) + 1
  {
  }

  /** No bit of `b` above the one `m` selects is set. */
  ghost predicate AboveClear(b: Byte, m: Byte)
    requires IsMask(m)
  {
    forall j :: Log2(m) < j < 8 ==> !BitsOfByte(b)[j]
  }

  /** Setting or clearing the bit of `m` keeps every other bit of the byte. */
  lemma {:induction false} OtherBits(b: Byte, m: Byte, b2: Byte)
    requires IsMask(m) && (b2 == b | m || b2 == b & !m)
    ensures LowBits(b2, Log2(m)) == LowBits(b, Log2(m))
    ensures AboveClear(b, m) ==> AboveClear(b2, m)
  {
    SameOtherBits(b, m, b2);
    var k := Log2(m);
    assert LowBits(b2, k) == LowBits(b, k);
  }

  lemma {:induction false} SameOtherBits(b: Byte, m: Byte, b2: Byte)
    requires IsMask(m) && (b2 == b | m || b2 == b & !m)
    ensures forall j :: 0 <= j < 8 && j != Log2(m) ==> BitsOfByte(b2)[j] == BitsOfByte(b)[j]
  {
    forall j | 0 <= j < 8 && j != Log2(m)
      ensures BitsOfByte(b2)[j] == BitsOfByte(b)[j]
    {
      SameBit(b, m, b2, j);
    }
  }

  lemma {:induction false} SameBit(b: Byte, m: Byte, b2: Byte, j: nat)
    requires IsMask(m) && (b2 == b | m || b2 == b & !m)
    requires j < 8 && j != Log2(m)
    ensures BitsOfByte(b2)[j] == BitsOfByte(b)[j]
  {
    BitIndex(b2, j);
    BitIndex(b, j);
    MaskOfLog2(m);
    OrBit(b, m, Mask(j));
  }

  /** Moving the cursor up one bit inside a byte appends that bit. */
  lemma {:induction false} AdvanceBit(b: Byte, m: Byte)
    requires IsMask(m) && m != 128
    ensures IsMask(m << 1) && Log2(m << 1) == Log2(m) + 1
    ensures LowBits(b, Log2(m) + 1) == LowBits(b, Log2(m)) + [b & m != 0]
    ensures AboveClear(b, m) ==> AboveClear(b, m << 1) && b & (m << 1) == 0
  {
    ShiftMask(m);
    var k := Log2(m);
    MaskBit(b, m);
    assert BitsOfByte(b)[..k + 1] == BitsOfByte(b)[..k] + [BitsOfByte(b)[k]];
    if AboveClear(b, m) {
      MaskBit(b, m << 1);
    }
  }

  /** Moving the cursor off bit 7 completes the byte. */
  lemma {:induction false} WrapBit(d: seq<Byte>, b: Byte)
    ensures BytesToBits(d + [b]) == BytesToBits(d) + LowBits(b, 7) + [b & 128 != 0]
  {
    BytesToBitsAppend(d, [b]);
    assert BytesToBits([b]) == BitsOfByte(b) + BytesToBits([]);
    MaskBit(b, 128);
    assert BitsOfByte(b) == BitsOfByte(b)[..7] + [BitsOfByte(b)[7]];
  }

  /** Bit `k` of byte `q` of a file is bit 8q + k of its bit stream. */
  lemma {:induction false} CursorBit(src: seq<Byte>, q: nat, k: nat)
    requires k < 8
    ensures Bit(src, 8 * q + k) == BitsOfByte(ByteAt(src, q))[k]
  {
    assert (8 * q + k) / 8 == q && (8 * q + k) % 8 == k;
  }

  /** The bit a cursor at byte `q`, mask `m` reads from a window onto `src`
      is the bit at stream position `pos`, when the cursor is at `pos` or both
      are past the end of the file. */
  lemma {:induction false} StreamBit(src: seq<Byte>, q: nat, m: Byte, pos: nat, b: Byte)
    requires IsMask(m) && b == ByteAt(src, q)
    requires pos == 8 * q + Log2(m) || (pos >= 8 * |src| && 8 * q + Log2(m) >= 8 * |src|)
    ensures (b & m != 0) == Bit(src, pos)
  {
    MaskBit(b, m);
    if pos == 8 * q + Log2(m) {
      CursorBit(src, q, Log2(m));
    } else {
      BitPastEnd(src, pos);
      assert q >= |src|;
    }
  }

  /** The bytes of a buffer past cursor byte `bp` are zero, and so are the
      bits of byte `bp` above mask `m`. */
  ghost predicate CleanOf(s: seq<Byte>, bp: int, m: Byte) {
    && 0 <= bp <= |s|
    && IsMask(m)
    && (forall i :: bp < i < |s| ==> s[i] == 0)
    && (bp < |s| ==> AboveClear(s[bp], m))
  }

  /** Clean, and the cursor bit itself is zero too. */
  ghost predicate FreshOf(s: seq<Byte>, bp: int, m: Byte) {
    CleanOf(s, bp, m) && (bp < |s| ==> s[bp] & m == 0)
  }

  /** The bits before a cursor at byte `bp`, mask `m`, in order. */
  ghost function PendingOf(s: seq<Byte>, bp: int, m: Byte): seq<bool>
    requires 0 <= bp <= |s| && IsMask(m)
  {
    BytesToBits(s[..bp]) + (if bp < |s| then LowBits(s[bp], Log2(m)) else [])
  }

  /** Changing only the cursor bit keeps the bits before the cursor and
      keeps the bits after it clear. */
  lemma {:induction false} KeepOtherBits(s: seq<Byte>, bp: nat, m: Byte, b2: Byte)
    requires bp < |s| && IsMask(m) && (b2 == s[bp] | m || b2 == s[bp] & !m)
    ensures PendingOf(s[bp := b2], bp, m) == PendingOf(s, bp, m)
    ensures CleanOf(s, bp, m) ==> CleanOf(s[bp := b2], bp, m)
  {
    OtherBits(s[bp], m, b2);
    var s2 := s[bp := b2];
    assert s2[..bp] == s[..bp];
    if CleanOf(s, bp, m) {
      assert forall i :: bp < i < |s2| ==> s2[i] == s[i];
    }
  }

  /** outbuf_set_bit on a clean buffer: still clean, same pending bits, and
      the cursor bit is now set. */
  lemma {:induction false} SetCursorBit(s: seq<Byte>, bp: nat, m: Byte)
    requires bp < |s| && IsMask(m) && CleanOf(s, bp, m)
    ensures CleanOf(s[bp := s[bp] | m], bp, m)
    ensures PendingOf(s[bp := s[bp] | m], bp, m) == PendingOf(s, bp, m)
    ensures (s[bp] | m) & m != 0
  {
    KeepOtherBits(s, bp, m, s[bp] | m);
    OrBit(s[bp], m, m);
  }

  /** outbuf_reset_bit on a clean buffer: fresh, with the same pending bits. */
  lemma {:induction false} ClearCursorBit(s: seq<Byte>, s2: seq<Byte>, bp: nat, m: Byte)
    requires bp < |s| && IsMask(m) && s2 == s[bp := s[bp] & !m]
    ensures CleanOf(s, bp, m) ==> FreshOf(s2, bp, m) && PendingOf(s2, bp, m) == PendingOf(s, bp, m)
  {
    KeepOtherBits(s, bp, m, s[bp] & !m);
    OrBit(s[bp], m, m);
  }

  /** Moving the mask up one bit appends the cursor bit to the pending bits. */
  lemma {:induction false} AdvanceCursor(s: seq<Byte>, bp: nat, m: Byte)
    requires bp < |s| && IsMask(m) && m != 128
    ensures IsMask(m << 1)
    ensures PendingOf(s, bp, m << 1) == PendingOf(s, bp, m) + [s[bp] & m != 0]
    ensures CleanOf(s, bp, m) ==> FreshOf(s, bp, m << 1)
  {
    AdvanceBit(s[bp], m);
  }

  /** Moving off bit 7 to the next byte appends bit 7 to the pending bits. */
  lemma {:induction false} WrapCursor(s: seq<Byte>, bp: nat)
    requires bp < |s|
    ensures PendingOf(s, bp + 1, 1) == PendingOf(s, bp, 128) + [s[bp] & 128 != 0]
    ensures CleanOf(s, bp, 128) ==> FreshOf(s, bp + 1, 1)
  {
    SliceSnoc(s, bp);
    WrapBit(s[..bp], s[bp]);
    if bp + 1 < |s| {
      assert LowBits(s[bp + 1], 0) == [];
    }
    if CleanOf(s, bp, 128) && bp + 1 < |s| {
      assert s[bp + 1] == 0;
      assert forall j :: 0 < j < 8 ==> !BitsOfByte(0)[j];
    }
  }

  /** What a flush writes is the packing of the pending bits. */
  lemma {:induction false} FlushPending(s: seq<Byte>, bp: nat, m: Byte)
    requires FreshOf(s, bp, m) && (bp == |s| ==> m == 1)
    ensures m == 1 ==> Pack(PendingOf(s, bp, m)) == s[..bp]
    ensures m != 1 ==> bp < |s| && Pack(PendingOf(s, bp, m)) == s[..bp + 1]
  {
    if m == 1 {
      FlushWhole(s, bp);
    } else {
      FlushPartial(s, bp, m);
    }
  }

  lemma {:induction false} FlushWhole(s: seq<Byte>, bp: nat)
    requires bp <= |s|
    ensures Pack(PendingOf(s, bp, 1)) == s[..bp]
  {
    var d := s[..bp];
    if bp < |s| {
      assert LowBits(s[bp], 0) == [];
    }
    assert PendingOf(s, bp, 1) == BytesToBits(d) + [];
    PackBytes(d, []);
    assert d + Pack([]) == d;
  }

  lemma {:induction false} FlushPartial(s: seq<Byte>, bp: nat, m: Byte)
    requires FreshOf(s, bp, m) && bp < |s| && m != 1
    ensures Pack(PendingOf(s, bp, m)) == s[..bp + 1]
  {
    var d := s[..bp];
    var b := s[bp];
    var k := Log2(m);
    PartialByte(b, m);
    PackPartial(b, k);
    PackBytes(d, LowBits(b, k));
    SliceSnoc(s, bp);
  }

  /** A byte clear from the cursor bit up, cursor past bit 0. */
  lemma {:induction false} PartialByte(b: Byte, m: Byte)
    requires IsMask(m) && m != 1 && AboveClear(b, m) && b & m == 0
    ensures 0 < Log2(m) < 8
    ensures forall j :: Log2(m) <= j < 8 ==> !BitsOfByte(b)[j]
  {
    MaskBit(b, m);
  }
}
