/** The two 16 KiB bit buffers of the archiver (binary_buffer.c): an input
    buffer refilled from a file and an output buffer flushed to a file, each
    with a byte cursor and a one-bit mask cursor. Bits are taken and stored
    least significant first. */
module BinaryBuffer {
  import opened Bytes
  import opened BitCursor

  const BUF_SIZE: nat := 16384

  function Min(a: int, b: int): int {
    if a <= b then a else b
  }

  /** A file opened for reading: fixed contents and a read position. */
  class InFile {
    const bytes: seq<Byte>
    var pos: nat

    ghost predicate Valid()
      reads this
    {
      pos <= |bytes|
    }

    constructor (content: seq<Byte>)
      ensures bytes == content && pos == 0 && Valid()
    {
      bytes := content;
      pos := 0;
    }

    /** fread: up to `n` bytes from the read position, fewer at the end. */
    method Read(n: nat) returns (chunk: seq<Byte>)
      requires Valid()
      modifies this
      ensures Valid()
      ensures pos == old(pos) + Min(n, |bytes| - old(pos))
      ensures chunk == bytes[old(pos)..pos]
    {
      var k := Min(n, |bytes| - pos);
      chunk := bytes[pos..pos + k];
      pos := pos + k;
    }

    /** rewind / fseek to an absolute position. */
    method Seek(p: nat)
      requires p <= |bytes|
      modifies this
      ensures pos == p && Valid()
    {
      pos := p;
    }
  }

  /** A file opened for writing; every write appends. */
  class OutFile {
    var bytes: seq<Byte>

    constructor ()
      ensures bytes == []
    {
      bytes := [];
    }

    /** fwrite of a whole chunk. */
    method Write(chunk: seq<Byte>)
      modifies this
      ensures bytes == old(bytes) + chunk
    {
      bytes := bytes + chunk;
    }
  }

  /** The input buffer, `inbuf` with INBUF_BYTE_POS and INBUF_BIT_MASK.
      The ghost `base` is the file offset that `data[0]` was read from, and
      the ghost `pos` is the position, in the file's bit stream, of the next
      bit the buffer delivers. */
  class InBuffer {
    const data: array<Byte>
    var bytePos: int
    var mask: Byte
    ghost var base: nat
    ghost var pos: nat

    ghost predicate Valid()
      reads this
    {
      && data.Length == BUF_SIZE
      && 0 <= bytePos <= BUF_SIZE
      && IsMask(mask)
      && (bytePos == BUF_SIZE ==> mask == 1)
    }

    /** The buffer holds the file's bytes from `base` on, zero past the end,
        and the file has been read up to the end of that window. */
    ghost predicate Window(f: InFile)
      reads this, data, f
    {
      && Valid()
      && base <= f.pos <= |f.bytes|
      && f.pos == Min(|f.bytes|, base + BUF_SIZE)
      && forall i :: 0 <= i < BUF_SIZE ==> data[i] == ByteAt(f.bytes, base + i)
    }

    /** The bit position of the cursor in the file's bit stream. */
    ghost function Cursor(): nat
      reads this
      requires Valid()
    {
      8 * (base + bytePos) + Log2(mask)
    }

    /** The cursor is at bit `pos` of the file, or both are past its end,
        where every bit reads 0. */
    ghost predicate Tracks(f: InFile)
      reads this, data, f
    {
      Window(f) && (pos == Cursor() || (pos >= 8 * |f.bytes| && Cursor() >= 8 * |f.bytes|))
    }

    constructor ()
      ensures Valid() && fresh(data)
      ensures bytePos == 0 && mask == 1
      ensures forall i :: 0 <= i < BUF_SIZE ==> data[i] == 0
    {
      data := new Byte[BUF_SIZE](_ => 0);
      bytePos := 0;
      mask := 1;
    }

    /** inbuf_reset: cursor to byte 0, bit mask 1, every byte zero. */
    method Reset()
      requires data.Length == BUF_SIZE
      modifies this, data
      ensures Valid()
      ensures bytePos == 0 && mask == 1
      ensures forall i :: 0 <= i < BUF_SIZE ==> data[i] == 0
      ensures base == old(base) && pos == old(pos)
    {
      bytePos := 0;
      mask := 1;
      forall i | 0 <= i < data.Length {
        data[i] := 0;
      }
    }

    /** read_from_file: reset the buffer, then read up to BUF_SIZE bytes into
        it. A refill (`refill`, after the cursor ran off the end) keeps the
        stream position; a first fill puts it at the file's read position. */
    method ReadFromFile(f: InFile, ghost refill: bool) returns (n: nat)
      requires data.Length == BUF_SIZE && f.Valid()
      requires refill ==> Tracks(f) && bytePos == BUF_SIZE
      modifies this, data, f
      ensures f.Valid()
      ensures n == Min(BUF_SIZE, |f.bytes| - old(f.pos)) && f.pos == old(f.pos) + n
      ensures bytePos == 0 && mask == 1 && base == old(f.pos)
      ensures forall i :: 0 <= i < n ==> data[i] == f.bytes[base + i]
      ensures forall i :: n <= i < BUF_SIZE ==> data[i] == 0
      ensures Window(f) && Tracks(f)
      ensures pos == if refill then old(pos) else 8 * old(f.pos)
    {
      ghost var start := f.pos;
      ghost var wasCursor := if Valid() then Cursor() else 0;
      Reset();
      var chunk := f.Read(BUF_SIZE);
      n := |chunk|;
      forall i | 0 <= i < n {
        data[i] := chunk[i];
      }
      base := start;
      if !refill {
        pos := 8 * start;
      }
      assert Cursor() == 8 * start;
      assert refill ==> wasCursor == 8 * (old(base) + BUF_SIZE);
    }

    /** end_of_inbuf */
    predicate EndOfBuffer()
      reads this
    {
      bytePos == BUF_SIZE
    }

    /** inbuf_next_byte: advance to the next byte, mask back to 1; true when
        the cursor reaches the end of the buffer. */
    method NextByte() returns (end: bool)
      requires data.Length == BUF_SIZE && 0 <= bytePos < BUF_SIZE
      modifies this
      ensures Valid() && base == old(base) && pos == old(pos)
      ensures bytePos == old(bytePos) + 1 && mask == 1
      ensures end == (bytePos == BUF_SIZE)
    {
      bytePos := bytePos + 1;
      mask := 1;
      end := EndOfBuffer();
    }

    /** inbuf_next_bit: shift the mask; when it falls off bit 7, move to the
        next byte. True exactly when the cursor reaches the end of the buffer. */
    method NextBit(ghost f: InFile) returns (end: bool)
      requires Valid() && bytePos < BUF_SIZE
      modifies this
      ensures Valid() && base == old(base)
      ensures old(mask) == 128 ==> bytePos == old(bytePos) + 1 && mask == 1
      ensures old(mask) != 128 ==> bytePos == old(bytePos) && mask == old(mask) << 1
      ensures end == (bytePos == BUF_SIZE)
      ensures pos == old(pos) + 1
      ensures old(Tracks(f)) ==> Tracks(f)
    {
      ShiftMask(mask);
      mask := mask << 1;
      if mask == 0 {
        end := NextByte();
      } else {
        end := false;
      }
      pos := pos + 1;
    }

    /** inbuf_get_bit: nonzero exactly when the mask bit of the current byte
        is set, which is the bit of the file at the stream position. */
    method GetBit(ghost f: InFile) returns (r: Byte)
      requires Valid() && bytePos < BUF_SIZE
      requires Tracks(f)
      ensures r == data[bytePos] & mask
      ensures r != 0 <==> Bit(f.bytes, pos)
    {
      r := data[bytePos] & mask;
      StreamBit(f.bytes, base + bytePos, mask, pos, data[bytePos]);
    }

    /** inbuf_get_byte: the current byte. */
    method GetByte() returns (b: Byte)
      requires Valid() && bytePos < BUF_SIZE
      ensures b == data[bytePos]
    {
      b := data[bytePos];
    }
  }

  /** The output buffer, `outbuf` with OUTBUF_BYTE_POS and OUTBUF_BIT_MASK. */
  class OutBuffer {
    const data: array<Byte>
    var bytePos: int
    var mask: Byte

    ghost predicate Valid()
      reads this
    {
      && data.Length == BUF_SIZE
      && 0 <= bytePos <= BUF_SIZE
      && IsMask(mask)
      && (bytePos == BUF_SIZE ==> mask == 1)
    }

    constructor ()
      ensures Valid() && FreshOf(data[..], bytePos, mask) && fresh(data)
      ensures bytePos == 0 && mask == 1 && PendingOf(data[..], bytePos, mask) == []
    {
      data := new Byte[BUF_SIZE](_ => 0);
      bytePos := 0;
      mask := 1;
      new;
      assert LowBits(data[..][0], 0) == [];
      assert forall j :: 0 < j < 8 ==> !BitsOfByte(0)[j];
    }

    /** outbuf_reset: cursor to byte 0, bit mask 1, every byte zero. */
    method Reset()
      requires data.Length == BUF_SIZE
      modifies this, data
      ensures Valid() && FreshOf(data[..], bytePos, mask)
      ensures bytePos == 0 && mask == 1 && PendingOf(data[..], bytePos, mask) == []
      ensures forall i :: 0 <= i < BUF_SIZE ==> data[i] == 0
    {
      bytePos := 0;
      mask := 1;
      forall i | 0 <= i < data.Length {
        data[i] := 0;
      }
      assert LowBits(data[..][0], 0) == [];
      assert forall j :: 0 < j < 8 ==> !BitsOfByte(0)[j];
    }

    /** write_to_file: write the bytes before the cursor, plus the current
        byte when some of its bits were written, then reset. */
    method WriteToFile(f: OutFile) returns (written: nat)
      requires Valid()
      modifies this, data, f
      ensures written == old(bytePos) + (if old(mask) == 1 then 0 else 1)
      ensures written <= BUF_SIZE
      ensures f.bytes == old(f.bytes) + old(data[..written])
      ensures old(FreshOf(data[..], bytePos, mask)) ==>
                f.bytes == old(f.bytes) + Pack(old(PendingOf(data[..], bytePos, mask)))
      ensures Valid() && FreshOf(data[..], bytePos, mask)
      ensures bytePos == 0 && mask == 1 && PendingOf(data[..], bytePos, mask) == []
      ensures forall i :: 0 <= i < BUF_SIZE ==> data[i] == 0
    {
      written := bytePos + (if mask == 1 then 0 else 1);
      if FreshOf(data[..], bytePos, mask) {
        FlushPending(data[..], bytePos, mask);
        assert Pack(PendingOf(data[..], bytePos, mask)) == data[..written];
      }
      f.Write(data[..written]);
      Reset();
    }

    /** end_of_outbuf */
    predicate EndOfBuffer()
      reads this
    {
      bytePos == BUF_SIZE
    }

    /** outbuf_next_byte: advance to the next byte, mask back to 1; true when
        the cursor reaches the end of the buffer. */
    method NextByte() returns (end: bool)
      requires data.Length == BUF_SIZE && 0 <= bytePos < BUF_SIZE
      modifies this
      ensures Valid()
      ensures bytePos == old(bytePos) + 1 && mask == 1
      ensures end == (bytePos == BUF_SIZE)
    {
      bytePos := bytePos + 1;
      mask := 1;
      end := EndOfBuffer();
    }

    /** outbuf_next_bit: shift the mask; when it falls off bit 7, move to the
        next byte. From a clean state this appends the cursor bit to the
        pending bits. */
    method NextBit() returns (end: bool)
      requires Valid() && bytePos < BUF_SIZE
      modifies this
      ensures Valid()
      ensures old(mask) == 128 ==> bytePos == old(bytePos) + 1 && mask == 1
      ensures old(mask) != 128 ==> bytePos == old(bytePos) && mask == old(mask) << 1
      ensures end == (bytePos == BUF_SIZE)
      ensures old(CleanOf(data[..], bytePos, mask)) ==>
                && FreshOf(data[..], bytePos, mask)
                && PendingOf(data[..], bytePos, mask)
                   == old(PendingOf(data[..], bytePos, mask)) + [old(data[bytePos] & mask) != 0]
    {
      ghost var s := data[..];
      if mask != 128 {
        AdvanceCursor(s, bytePos, mask);
      } else {
        WrapCursor(s, bytePos);
      }
      ShiftMask(mask);
      mask := mask << 1;
      if mask == 0 {
        end := NextByte();
      } else {
        end := false;
      }
      assert data[..] == s;
    }

    /** outbuf_set_bit: OR the mask bit into the current byte. */
    method SetBit()
      requires Valid() && bytePos < BUF_SIZE
      modifies data
      ensures data[..] == old(data[..])[bytePos := old(data[bytePos]) | mask]
      ensures old(CleanOf(data[..], bytePos, mask)) ==>
                && CleanOf(data[..], bytePos, mask)
                && PendingOf(data[..], bytePos, mask) == old(PendingOf(data[..], bytePos, mask))
                && data[bytePos] & mask != 0
    {
      ghost var s := data[..];
      data[bytePos] := data[bytePos] | mask;
      assert data[..] == s[bytePos := s[bytePos] | mask];
      if CleanOf(s, bytePos, mask) {
        SetCursorBit(s, bytePos, mask);
      }
    }

    /** outbuf_reset_bit: clear the mask bit of the current byte. */
    method ResetBit()
      requires Valid() && bytePos < BUF_SIZE
      modifies data
      ensures data[..] == old(data[..])[bytePos := old(data[bytePos]) & !mask]
      ensures old(CleanOf(data[..], bytePos, mask)) ==>
                && FreshOf(data[..], bytePos, mask)
                && PendingOf(data[..], bytePos, mask) == old(PendingOf(data[..], bytePos, mask))
    {
      ghost var s := data[..];
      data[bytePos] := data[bytePos] & !mask;
      ClearCursorBit(s, data[..], bytePos, mask);
    }

    /** outbuf_set_byte: overwrite the current byte. */
    method SetByte(b: Byte)
      requires Valid() && bytePos < BUF_SIZE
      modifies data
      ensures data[..] == old(data[..])[bytePos := b]
    {
      data[bytePos] := b;
    }
  }

  /** The state of an output buffer `d` (cursor byte `bp`, mask `m`) and of
      an output file `out` after the bits `bits` were written, from the
      file contents `start` on: the full buffers already flushed, then the
      bits pending before the cursor. The cursor bit and all bits after it
      are clear, and the cursor is inside the buffer. */
  ghost predicate EmittedOf(d: seq<Byte>, bp: int, m: Byte, out: seq<Byte>, start: seq<Byte>, bits: seq<bool>) {
    && |d| == BUF_SIZE && 0 <= bp < BUF_SIZE && IsMask(m)
    && FreshOf(d, bp, m)
    && |start| <= |out| && out[..|start|] == start
    && bits == BytesToBits(out[|start|..]) + PendingOf(d, bp, m)
  }

  /** EmittedOf for the output buffer and file as they are now. */
  ghost predicate Emitted(outbuf: OutBuffer, fout: OutFile, start: seq<Byte>, bits: seq<bool>)
    reads outbuf, outbuf.data, fout
  {
    outbuf.Valid() && EmittedOf(outbuf.data[..], outbuf.bytePos, outbuf.mask, fout.bytes, start, bits)
  }
}
