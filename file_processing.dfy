/** The archive checksum (file_processing.c): a table-driven CRC over bytes
    with the reflected polynomial 0xEDB88320. The table is built lazily the
    first time it is needed; it lives in `CrcTable`, the C function's static
    array. */
module Checksum {
  import opened Bytes
  import opened BinaryBuffer

  const POLY: bv32 := 0xEDB8_8320
  /** get_checksum reads the file through a 32 KiB buffer. */
  const CHUNK: nat := 32768

  /** One round of crc32_for_byte: the polynomial goes in when the low bit
      is clear (the inverted test of the code). */
  function Round(r: bv32): bv32 {
    (if r & 1 != 0 then 0 else POLY) ^ (r >> 1)
  }

  lemma {:induction false} RoundIs(r: bv32, q: bv32)
    requires q == (if r & 1 != 0 then 0 else POLY) ^ (r >> 1)
    ensures q == Round(r)
  {
  }

  /** `n` rounds applied to `r`. */
  function Rounds(r: bv32, n: nat): bv32 {
    if n == 0 then r else Round(Rounds(r, n - 1))
  }

  /** crc32_for_byte: eight rounds, then the top byte inverted. */
  function TableEntry(r: bv32): bv32 {
    Rounds(r, 8) ^ 0xFF00_0000
  }

  /** The 256 slots of the filled table: slot i holds crc32_for_byte(i). */
  function Table(): (t: seq<bv32>)
    ensures |t| == 256
  {
    seq(256, i requires 0 <= i < 256 => TableEntry(i as bv32))
  }

  /** The table slot one byte selects: the low byte of the running value
      xor the data byte. */
  function Index(crc: bv32, b: Byte): (i: nat)
    ensures i < 256
  {
    ((crc ^ b as bv32) & 0xFF) as nat
  }

  /** One step of the crc32 loop over a table `t`. */
  function Step(t: seq<bv32>, crc: bv32, b: Byte): bv32
    requires |t| == 256
  {
    t[Index(crc, b)] ^ (crc >> 8)
  }

  /** The value the crc32 loop leaves after running over `data` from `crc`
      with table `t`. */
  function Fold(t: seq<bv32>, crc: bv32, data: seq<Byte>): bv32
    requires |t| == 256
  {
    if data == [] then crc else Step(t, Fold(t, crc, data[..|data| - 1]), data[|data| - 1])
  }

  lemma {:induction false} FoldSnoc(t: seq<bv32>, crc: bv32, data: seq<Byte>, i: nat)
    requires |t| == 256 && i < |data|
    ensures Fold(t, crc, data[..i + 1]) == Step(t, Fold(t, crc, data[..i]), data[i])
  {
    assert data[..i + 1][..i] == data[..i];
  }

  /** The fold runs left to right: running over `a` and then over `b` is
      running over `a + b`, so a caller may cut the data into any chunks. */
  lemma {:induction false} FoldAppend(t: seq<bv32>, crc: bv32, a: seq<Byte>, b: seq<Byte>)
    requires |t| == 256
    ensures Fold(t, Fold(t, crc, a), b) == Fold(t, crc, a + b)
    decreases |b|
  {
    if b == [] {
      assert a + b == a;
    } else {
      var n := |b| - 1;
      FoldAppend(t, crc, a, b[..n]);
      assert (a + b)[..|a + b| - 1] == a + b[..n];
      assert (a + b)[|a + b| - 1] == b[n];
    }
  }

  /** One chunk of get_checksum continues the fold over the file. */
  lemma {:induction false} ChunkStep(t: seq<bv32>, s: seq<Byte>, start: nat, before: nat, pos: nat,
                  chunk: seq<Byte>, crc: bv32)
    requires |t| == 256
    requires start <= before <= pos <= |s| && chunk == s[before..pos]
    requires crc == Fold(t, 0, s[start..before])
    ensures Fold(t, crc, chunk) == Fold(t, 0, s[start..pos])
  {
    FoldAppend(t, 0, s[start..before], chunk);
    SliceJoin(s, start, before, pos);
  }

  /** With no data the running value is left as it was. */
  lemma {:induction false} FoldNothing(t: seq<bv32>, crc: bv32, data: seq<Byte>)
    requires |t| == 256 && |data| == 0
    ensures Fold(t, crc, data) == crc
  {
  }

  /** The first table slot is not zero, so a filled table is told apart from
      the all-zero static one by its first slot. */
  lemma {:induction false} TableEntryZero()
    ensures TableEntry(0) == 0xD202_EF8D
  {
  }

  /** crc32_for_byte, the loop of file_processing.c:5-10. */
  method CrcForByte(r: bv32) returns (res: bv32)
    ensures res == TableEntry(r)
  {
    res := r;
    for j := 0 to 8
      invariant res == Rounds(r, j)
    {
      var next := (if res & 1 != 0 then 0 else POLY) ^ (res >> 1);
      RoundIs(res, next);
      res := next;
    }
    res := res ^ 0xFF00_0000;
  }

  /** The static table of crc32. */
  class CrcTable {
    const table: array<bv32>

    ghost predicate Filled()
      reads this, table
    {
      table[..] == Table()
    }

    /** Either still the zeroed static array or completely filled. */
    ghost predicate Valid()
      reads this, table
    {
      table.Length == 256 && (Filled() || forall i :: 0 <= i < 256 ==> table[i] == 0)
    }

    /** A filled table has a nonzero first slot. */
    lemma {:induction false} FilledFirst()
      ensures Filled() ==> table[0] != 0
    {
      TableEntryZero();
      assert Table()[0] == TableEntry(0);
      if Filled() {
        assert table[0] == table[..][0];
      }
    }

    constructor ()
      ensures Valid() && !Filled() && fresh(table)
    {
      table := new bv32[256](_ => 0);
      new;
      assert table[0] == 0;
      TableEntryZero();
    }

    /** Fills the table with crc32_for_byte of every index. */
    method Fill()
      requires table.Length == 256
      modifies table
      ensures Filled()
    {
      for i := 0 to 256
        invariant forall k :: 0 <= k < i ==> table[k] == TableEntry(k as bv32)
      {
        var e := CrcForByte(i as bv32);
        table[i] := e;
      }
    }

    /** crc32: fills the table if its first slot is 0, then runs the table
        step over every byte of `data`, starting from `crc`. */
    method Crc32(data: seq<Byte>, crc: bv32) returns (c: bv32)
      requires Valid()
      modifies table
      ensures Filled()
      ensures old(Filled()) ==> table[..] == old(table[..])
      ensures c == Fold(Table(), crc, data)
    {
      FilledFirst();
      if table[0] == 0 {
        Fill();
      } else {
        assert Filled();
      }
      ghost var t := table[..];
      c := crc;
      for i := 0 to |data|
        invariant table[..] == t
        invariant c == Fold(t, crc, data[..i])
      {
        FoldSnoc(t, crc, data, i);
        var k := ((c ^ data[i] as bv32) & 0xFF) as int;
        assert k == Index(c, data[i]) && table[k] == t[k];
        c := table[k] ^ (c >> 8);
      }
      assert data[..|data|] == data;
    }

    /** get_checksum: reads the file from its position to the end in chunks
        of CHUNK bytes, starting from 0; the last read is the short one. */
    method GetChecksum(f: InFile) returns (crc: bv32)
      requires Valid() && f.Valid()
      modifies this.table, f
      ensures Filled() && f.Valid() && f.pos == |f.bytes|
      ensures crc == Fold(Table(), 0, old(f.bytes[f.pos..]))
    {
      ghost var start := f.pos;
      crc := 0;
      var eof := false;
      FoldNothing(Table(), 0, f.bytes[start..start]);
      while !eof
        invariant f.Valid() && start <= f.pos && Valid()
        invariant eof ==> f.pos == |f.bytes| && Filled()
        invariant crc == Fold(Table(), 0, f.bytes[start..f.pos])
        decreases if eof then 0 else |f.bytes| - f.pos + 1
      {
        ghost var before := f.pos;
        var chunk := f.Read(CHUNK);
        ChunkStep(Table(), f.bytes, start, before, f.pos, chunk, crc);
        crc := Crc32(chunk, crc);
        eof := |chunk| < CHUNK;
      }
      assert f.bytes[start..f.pos] == f.bytes[start..];
    }
  }
}
