/** archiver.c: the archive operations, on an open archive file whose bytes
    and position the operations change in place. Each method is proved
    against the byte-level functions of ArchiveFormat, ArchiveSpec and
    ArchiveEdit, whose relation to the stored archive is proved there. */
module Archiver {
  import opened Bytes
  import opened Checksum
  import opened BinaryBuffer
  import opened HuffmanTypes
  import opened CodingSpec
  import opened HuffmanCoding
  import opened ArchiveFormat
  import opened ArchiveSpec
  import opened ArchiveEdit

  /** A FILE opened for reading and writing: its bytes and the position
      fseek sets, which may lie past the end. */
  class Stream {
    var bytes: seq<Byte>
    var pos: nat

    constructor (content: seq<Byte>)
      ensures bytes == content && pos == 0
    {
      bytes := content;
      pos := 0;
    }

    /** file_set_pos, rewind. */
    method Seek(p: nat)
      modifies this
      ensures bytes == old(bytes) && pos == p
    {
      pos := p;
    }

    /** file_shift_pos. */
    method Shift(d: nat)
      modifies this
      ensures bytes == old(bytes) && pos == old(pos) + d
    {
      pos := pos + d;
    }

    /** fread of `n` bytes: what the file still holds there, at most `n`. */
    method Read(n: nat) returns (chunk: seq<Byte>)
      modifies this
      ensures bytes == old(bytes)
      ensures chunk == Take(Tail(bytes, old(pos)), n) && pos == old(pos) + |chunk|
    {
      chunk := Take(Tail(bytes, pos), n);
      pos := pos + |chunk|;
    }

    /** fwrite: the chunk replaces the bytes at the position, growing the
        file as needed. */
    method Write(c: seq<Byte>)
      modifies this
      ensures bytes == Patch(old(bytes), old(pos), c) && pos == old(pos) + |c|
    {
      bytes := Patch(bytes, pos, c);
      pos := pos + |c|;
    }

    /** fopen with mode "wb" on the same file: empty again. */
    method Truncate()
      modifies this
      ensures bytes == [] && pos == 0
    {
      bytes := [];
      pos := 0;
    }
  }

  /** The program's static state: the bit buffers of binary_buffer.c, the
      frequency and code tables of huffman_coding.c and the table of
      crc32. */
  class Statics {
    const inbuf: InBuffer
    const outbuf: OutBuffer
    const freq: array<nat>
    const table: array<seq<char>>
    const crc: CrcTable

    ghost predicate Valid()
      reads this, inbuf, outbuf, outbuf.data, crc, crc.table
    {
      && inbuf.data.Length == BUF_SIZE && outbuf.data != inbuf.data
      && freq.Length == ALPH_SIZE && table.Length == ALPH_SIZE
      && outbuf.Valid() && ResetOf(outbuf.data[..], outbuf.bytePos, outbuf.mask)
      && crc.Valid()
      && crc.table as object != inbuf.data && crc.table as object != outbuf.data
      && crc.table as object != freq && crc.table as object != table
    }

    constructor ()
      ensures Valid()
    {
      inbuf := new InBuffer();
      var ob := new OutBuffer();
      ob.Reset();
      outbuf := ob;
      freq := new nat[ALPH_SIZE](_ => 0);
      table := new seq<char>[ALPH_SIZE](_ => []);
      crc := new CrcTable();
    }
  }

  // ---------------------------------------------------------------------
  // Header fields
  // ---------------------------------------------------------------------

  /** check_magic_num: the first bytes of the file are the signature; the
      file is rewound. */
  method CheckMagicNum(arch: Stream) returns (ok: bool)
    modifies arch
    ensures arch.bytes == old(arch.bytes) && arch.pos == MAGIC_NUM_POS
    ensures ok == HasMagic(arch.bytes)
  {
    arch.Seek(MAGIC_NUM_POS);
    var buf := arch.Read(|MAGIC|);
    arch.Seek(MAGIC_NUM_POS);
    ok := buf == MAGIC;
  }

  /** read_checksum: the 32-bit number at CHECKSUM_POS. */
  method ReadChecksum(arch: Stream) returns (c: nat)
    modifies arch
    ensures arch.bytes == old(arch.bytes)
    ensures c == ReadField(arch.bytes, CHECKSUM_POS, INT_SIZE) && c < U32_LIMIT
  {
    arch.Seek(CHECKSUM_POS);
    var chunk := arch.Read(INT_SIZE);
    c := ValueLE(chunk);
    FieldBound(chunk);
  }

  /** read_num_of_files: the count at FILE_NUM_POS. */
  method ReadNumOfFiles(arch: Stream) returns (n: nat)
    modifies arch
    ensures arch.bytes == old(arch.bytes)
    ensures n == ReadField(arch.bytes, FILE_NUM_POS, INT_SIZE) && n < U32_LIMIT
  {
    arch.Seek(FILE_NUM_POS);
    var chunk := arch.Read(INT_SIZE);
    n := ValueLE(chunk);
    FieldBound(chunk);
  }

  /** A field of at most four bytes holds a 32-bit number. */
  lemma {:induction false} FieldBound(chunk: seq<Byte>)
    requires |chunk| <= INT_SIZE
    ensures ValueLE(chunk) < U32_LIMIT
  {
    ValueLEBound(chunk);
    Pow256Values();
    PowMono(|chunk|, INT_SIZE);
  }

  lemma {:induction false} PowMono(a: nat, b: nat)
    requires a <= b
    ensures Pow256(a) <= Pow256(b)
    decreases b
  {
    if a < b {
      PowMono(a, b - 1);
    }
  }

  /** write_magic_number. */
  method WriteMagicNumber(arch: Stream)
    modifies arch
    ensures arch.bytes == Patch(old(arch.bytes), MAGIC_NUM_POS, MAGIC) && arch.pos == CHECKSUM_POS
  {
    arch.Seek(MAGIC_NUM_POS);
    arch.Write(MAGIC);
  }

  /** write_checksum. */
  method WriteChecksum(arch: Stream, c: nat)
    requires c < U32_LIMIT
    modifies arch
    ensures arch.bytes == Patch(old(arch.bytes), CHECKSUM_POS, LE(c, INT_SIZE)) && arch.pos == FILE_NUM_POS
  {
    arch.Seek(CHECKSUM_POS);
    arch.Write(LE(c, INT_SIZE));
  }

  /** write_num_of_files: the count converted to `unsigned`. */
  method WriteNumOfFiles(arch: Stream, n: nat)
    modifies arch
    ensures arch.bytes == WithCount(old(arch.bytes), n) && arch.pos == FILE_INFO_POS
  {
    arch.Seek(FILE_NUM_POS);
    arch.Write(LE(n % U32_LIMIT, INT_SIZE));
  }

  /** refresh_checksum: the CRC of everything from FILE_NUM_POS on, read
      through get_checksum, written at CHECKSUM_POS. */
  method RefreshChecksum(arch: Stream, st: Statics)
    requires st.Valid()
    modifies arch, st.crc.table
    ensures st.Valid()
    ensures arch.bytes == Refreshed(old(arch.bytes)) && arch.pos == FILE_NUM_POS
  {
    arch.Seek(FILE_NUM_POS);
    var c := GetChecksum(arch, st);
    WriteChecksum(arch, c);
  }

  /** get_checksum on the archive: the CRC of its bytes from the position to
      the end; the position ends at the end. */
  method GetChecksum(arch: Stream, st: Statics) returns (c: nat)
    requires st.Valid() && arch.pos == FILE_NUM_POS
    modifies arch, st.crc.table
    ensures st.Valid() && arch.bytes == old(arch.bytes)
    ensures c == Crc(arch.bytes) && c < U32_LIMIT
  {
    c := ChecksumFrom(arch.bytes, st);
    arch.Seek(arch.pos + |Tail(arch.bytes, arch.pos)|);
  }

  /** get_checksum reading `s` from FILE_NUM_POS. */
  method ChecksumFrom(s: seq<Byte>, st: Statics) returns (c: nat)
    requires st.Valid()
    modifies st.crc.table
    ensures st.Valid()
    ensures c == Crc(s) && c < U32_LIMIT
  {
    var view := new InFile(s);
    view.Seek(Min(FILE_NUM_POS, |s|));
    assert view.bytes[view.pos..] == Tail(s, FILE_NUM_POS);
    var crc := st.crc.GetChecksum(view);
    c := crc as nat;
  }

  /** check_archive_checksum: the stored checksum is the CRC of the rest. */
  method CheckArchiveChecksum(arch: Stream, st: Statics) returns (ok: bool)
    requires st.Valid()
    modifies arch, st.crc.table
    ensures st.Valid() && arch.bytes == old(arch.bytes)
    ensures ok == ChecksumOk(arch.bytes)
  {
    var stored := ReadChecksum(arch);
    arch.Seek(FILE_NUM_POS);
    var c := GetChecksum(arch, st);
    ok := stored == c;
  }

  /** write_file_info: the record of `e` at the position. */
  method WriteFileInfo(arch: Stream, e: Entry)
    requires ValidEntry(e)
    modifies arch
    ensures arch.bytes == Patch(old(arch.bytes), old(arch.pos), Record(e))
    ensures arch.pos == old(arch.pos) + |Record(e)|
  {
    NatByte(|e.name| + 1);
    ghost var s0 := arch.bytes;
    ghost var p0 := arch.pos;
    var a := [(|e.name| + 1) as Byte];
    var b := e.name + [0];
    var c := LE(e.fileSize, INT_SIZE);
    var d := LE(e.compSize, INT_SIZE);
    var f := LE(e.addTime, TIME_SIZE);
    arch.Write(a);
    ghost var w := a;
    WriteNext(arch, b, s0, p0, w);
    w := w + b;
    WriteNext(arch, c, s0, p0, w);
    w := w + c;
    WriteNext(arch, d, s0, p0, w);
    w := w + d;
    WriteNext(arch, f, s0, p0, w);
    w := w + f;
    RecordParts(e, a, b, c, d, f);
  }

  /** The chunks write_file_info writes make up the record. */
  lemma {:induction false} RecordParts(e: Entry, a: seq<Byte>, b: seq<Byte>, c: seq<Byte>, d: seq<Byte>, f: seq<Byte>)
    requires ValidEntry(e) && a == [(|e.name| + 1) as Byte] && b == e.name + [0]
    requires c == LE(e.fileSize, INT_SIZE) && d == LE(e.compSize, INT_SIZE) && f == LE(e.addTime, TIME_SIZE)
    ensures a + b + c + d + f == Record(e)
  {
    assert a + b == [(|e.name| + 1) as Byte] + e.name + [0];
  }

  /** One more write right after what was written since `p0` extends it. */
  method WriteNext(arch: Stream, c: seq<Byte>, ghost s0: seq<Byte>, ghost p0: nat, ghost w: seq<Byte>)
    requires arch.bytes == Patch(s0, p0, w) && arch.pos == p0 + |w|
    modifies arch
    ensures arch.bytes == Patch(s0, p0, w + c) && arch.pos == p0 + |w + c|
  {
    ghost var b, q := arch.bytes, arch.pos;
    arch.Write(c);
    PatchStep(s0, p0, w, c, b, q, arch.bytes);
  }

  // ---------------------------------------------------------------------
  // Reading and skipping the header
  // ---------------------------------------------------------------------

  /** The bytes from `b` on of the bytes from `a` on are those from
      `a + b` on. */
  lemma {:induction false} TailTail(s: seq<Byte>, a: nat, b: nat)
    ensures Tail(Tail(s, a), b) == Tail(s, a + b)
  {
  }

  /** One turn of read_header's loop: the length byte, the name field it
      announces, the sizes and the add time. No entry where the file ends
      inside the record or the name field holds no terminator. */
  method ReadFileInfo(arch: Stream) returns (r: Option<Entry>)
    modifies arch
    ensures arch.bytes == old(arch.bytes)
    ensures var t := Tail(arch.bytes, old(arch.pos)); var p := ParseRecord(t);
      && (r.None? <==> p.None?)
      && (r.Some? ==> r.value == p.value.0 && arch.pos == old(arch.pos) + SkipLen(t))
  {
    ghost var s, p0 := arch.bytes, arch.pos;
    var size := arch.Read(1);
    if |size| == 0 {
      return None;
    }
    var field := arch.Read(size[0] as nat);
    ghost var p2 := arch.pos;
    var f1 := arch.Read(INT_SIZE);
    ghost var p3 := arch.pos;
    var f2 := arch.Read(INT_SIZE);
    ghost var p4 := arch.pos;
    var f3 := arch.Read(TIME_SIZE);
    RecordReads(s, p0, size, field, f1, f2, f3, p2, p3, p4);
    if |f3| < TIME_SIZE || !Terminated(field) {
      return None;
    }
    r := Some(Entry(CString(field), ValueLE(f1), ValueLE(f2), ValueLE(f3)));
  }

  /** The five reads of a record, one after the other from `p0`: the record
      fits exactly when the last read is whole, and then they are its
      fields. */
  lemma {:induction false} RecordReads(s: seq<Byte>, p0: nat, size: seq<Byte>, field: seq<Byte>,
                    f1: seq<Byte>, f2: seq<Byte>, f3: seq<Byte>, p2: nat, p3: nat, p4: nat)
    requires |size| == 1 && size == Take(Tail(s, p0), 1)
    requires field == Take(Tail(s, p0 + 1), size[0] as nat)
    requires p2 == p0 + 1 + |field| && f1 == Take(Tail(s, p2), INT_SIZE)
    requires p3 == p2 + |f1| && f2 == Take(Tail(s, p3), INT_SIZE)
    requires p4 == p3 + |f2| && f3 == Take(Tail(s, p4), TIME_SIZE)
    ensures var t := Tail(s, p0); ParseRecord(t).None? <==> |f3| < TIME_SIZE || !Terminated(field)
    ensures var t := Tail(s, p0); ParseRecord(t).Some? ==>
      && ParseRecord(t).value.0 == Entry(CString(field), ValueLE(f1), ValueLE(f2), ValueLE(f3))
      && p0 + SkipLen(t) == p4 + |f3|
  {
    var t := Tail(s, p0);
    var q := 1 + size[0] as nat;
    RecordFits(s, p0, t, q, field, f1, f2, f3, p2, p3, p4);
    if q + 16 <= |t| {
      assert |field| == q - 1 && |f1| == INT_SIZE && |f2| == INT_SIZE;
      ReadFields(s, p0, t, q, field, f1, f2, f3, p2, p3, p4);
    }
    RecordParsed(t, q, field, f1, f2, f3);
  }

  /** The fields read from `t`, as RecordReads gives them, are the record
      read_header parses from `t`, if any. */
  lemma {:induction false} RecordParsed(t: seq<Byte>, q: nat, field: seq<Byte>, f1: seq<Byte>, f2: seq<Byte>, f3: seq<Byte>)
    requires 1 <= |t| && q == 1 + t[0] as nat
    requires |f3| <= TIME_SIZE && (|f3| == TIME_SIZE <==> q + 16 <= |t|)
    requires q + 16 <= |t| ==> field == t[1..q] && f1 == t[q..q + 4] && f2 == t[q + 4..q + 8] && f3 == t[q + 8..q + 16]
    ensures ParseRecord(t).None? <==> |f3| < TIME_SIZE || !Terminated(field)
    ensures ParseRecord(t).Some? ==>
      ParseRecord(t).value.0 == Entry(CString(field), ValueLE(f1), ValueLE(f2), ValueLE(f3)) && SkipLen(t) == q + 16
  {
    if q + 16 <= |t| && Terminated(field) {
      assert ParseRecord(t) == Some((FieldsAt(t, q), t[q + 16..]));
    }
  }

  /** The reads of a record that fits are its fields. */
  lemma {:induction false} ReadFields(s: seq<Byte>, p0: nat, t: seq<Byte>, q: nat, field: seq<Byte>,
                   f1: seq<Byte>, f2: seq<Byte>, f3: seq<Byte>, p2: nat, p3: nat, p4: nat)
    requires t == Tail(s, p0) && 1 <= q && q + 16 <= |t|
    requires field == Take(Tail(s, p0 + 1), q - 1)
    requires p2 == p0 + q && f1 == Take(Tail(s, p2), INT_SIZE)
    requires p3 == p0 + q + 4 && f2 == Take(Tail(s, p3), INT_SIZE)
    requires p4 == p0 + q + 8 && f3 == Take(Tail(s, p4), TIME_SIZE)
    ensures field == t[1..q] && f1 == t[q..q + 4] && f2 == t[q + 4..q + 8] && f3 == t[q + 8..q + 16]
  {
    TakeAt(s, p0, t, 1, q - 1);
    TakeAt(s, p0, t, q, INT_SIZE);
    TakeAt(s, p0, t, q + 4, INT_SIZE);
    TakeAt(s, p0, t, q + 8, TIME_SIZE);
  }

  /** The last of the reads of a record is whole exactly when the record
      fits in what follows `p0`. */
  lemma {:induction false} RecordFits(s: seq<Byte>, p0: nat, t: seq<Byte>, q: nat, field: seq<Byte>,
                   f1: seq<Byte>, f2: seq<Byte>, f3: seq<Byte>, p2: nat, p3: nat, p4: nat)
    requires t == Tail(s, p0) && 1 <= q && 1 <= |t|
    requires field == Take(Tail(s, p0 + 1), q - 1)
    requires p2 == p0 + 1 + |field| && f1 == Take(Tail(s, p2), INT_SIZE)
    requires p3 == p2 + |f1| && f2 == Take(Tail(s, p3), INT_SIZE)
    requires p4 == p3 + |f2| && f3 == Take(Tail(s, p4), TIME_SIZE)
    ensures |f3| == TIME_SIZE <==> q + 16 <= |t|
  {
  }

  /** A read of `n` bytes at `p0 + k` where the file still holds them. */
  lemma {:induction false} TakeAt(s: seq<Byte>, p0: nat, t: seq<Byte>, k: nat, n: nat)
    requires t == Tail(s, p0) && k + n <= |t|
    ensures Take(Tail(s, p0 + k), n) == t[k..k + n]
  {
  }

  /** read_header: the signature, the checksum, the count, then that many
      records; the position ends where the data blocks begin. */
  method ReadHeader(arch: Stream) returns (h: Option<Header>)
    modifies arch
    ensures arch.bytes == old(arch.bytes)
    ensures h == ParseHeader(arch.bytes)
    ensures h.Some? ==> arch.pos == h.value.dataStart
  {
    ghost var s := arch.bytes;
    var c, num := ReadFixed(arch);
    if |num| < INT_SIZE {
      if ValueLE(num) != 0 {
        return None;
      }
      return Some(Header(ValueLE(c), [], arch.pos));
    }
    var es := ReadRecords(arch, ValueLE(num), s[FILE_INFO_POS..]);
    if es.None? {
      HeaderFails(s);
      return None;
    }
    HeaderOf(s, es.value, ParseRecords(s[FILE_INFO_POS..], ValueLE(num)).value.1);
    h := Some(Header(ValueLE(c), es.value, arch.pos));
  }

  /** The fixed part of read_header: the signature, the checksum and the
      count are read from the start, each cut short by the end of file. */
  method ReadFixed(arch: Stream) returns (c: seq<Byte>, num: seq<Byte>)
    modifies arch
    ensures arch.bytes == old(arch.bytes) && arch.pos == Min(FILE_INFO_POS, |arch.bytes|)
    ensures ValueLE(c) == ReadField(arch.bytes, CHECKSUM_POS, INT_SIZE)
    ensures ValueLE(num) == ReadField(arch.bytes, FILE_NUM_POS, INT_SIZE)
    ensures |num| < INT_SIZE <==> |arch.bytes| < FILE_INFO_POS
  {
    arch.Seek(MAGIC_NUM_POS);
    var sig := arch.Read(|MAGIC|);
    c := arch.Read(INT_SIZE);
    num := arch.Read(INT_SIZE);
  }

  /** The loop of read_header: `n` records read one after the other from
      the current position, failing as soon as one does not fit. */
  method ReadRecords(arch: Stream, n: nat, ghost t: seq<Byte>) returns (r: Option<seq<Entry>>)
    requires arch.pos <= |arch.bytes| && t == arch.bytes[arch.pos..]
    modifies arch
    ensures arch.bytes == old(arch.bytes)
    ensures var p := ParseRecords(t, n);
      && (r.None? <==> p.None?)
      && (r.Some? ==> r.value == p.value.0 && arch.pos == |arch.bytes| - |p.value.1|)
  {
    ghost var s := arch.bytes;
    var es: seq<Entry> := [];
    ghost var rest := t;
    for i := 0 to n
      invariant arch.bytes == s && arch.pos <= |s| && rest == s[arch.pos..]
      invariant ParseRecords(t, i) == Some((es, rest))
    {
      var ok;
      ok, es, rest := ReadNext(arch, t, i, es, rest);
      if !ok {
        RecordsFail(t, i + 1, n);
        return None;
      }
    }
    r := Some(es);
  }

  /** One turn of read_header's loop: the next record appended to those
      read so far, or the failure that ends the loop. */
  method ReadNext(arch: Stream, ghost t: seq<Byte>, ghost i: nat, es: seq<Entry>, ghost rest: seq<Byte>)
    returns (ok: bool, es': seq<Entry>, ghost rest': seq<Byte>)
    requires arch.pos <= |arch.bytes| && rest == arch.bytes[arch.pos..]
    requires ParseRecords(t, i) == Some((es, rest))
    modifies arch
    ensures arch.bytes == old(arch.bytes)
    ensures !ok <==> ParseRecords(t, i + 1).None?
    ensures ok ==> arch.pos <= |arch.bytes| && rest' == arch.bytes[arch.pos..]
                   && ParseRecords(t, i + 1) == Some((es', rest'))
  {
    ReadOneMore(t, i, es, rest);
    assert Tail(arch.bytes, arch.pos) == rest;
    var e := ReadFileInfo(arch);
    ok := e.Some?;
    es' := if ok then es + [e.value] else es;
    rest' := if ok then rest[SkipLen(rest)..] else rest;
  }

  /** skip_file_info: past the length byte and the name, sizes and time it
      announces; at the end of the file the length reads as 0. */
  method SkipFileInfo(arch: Stream)
    modifies arch
    ensures arch.bytes == old(arch.bytes)
    ensures arch.pos == old(arch.pos) + SkipLen(Tail(arch.bytes, old(arch.pos)))
  {
    var size := arch.Read(1);
    var k := if |size| == 0 then 0 else size[0] as nat;
    arch.Shift(k + 2 * INT_SIZE + TIME_SIZE);
  }

  /** skip_header: from FILE_INFO_POS, skip_file_info as many times as the
      count field says. */
  method SkipHeader(arch: Stream)
    modifies arch
    ensures arch.bytes == old(arch.bytes)
    ensures arch.pos == HeaderEnd(arch.bytes)
  {
    var n := ReadNumOfFiles(arch);
    arch.Seek(FILE_INFO_POS);
    ghost var t := Tail(arch.bytes, FILE_INFO_POS);
    for i := 0 to n
      invariant arch.bytes == old(arch.bytes)
      invariant arch.pos == FILE_INFO_POS + SkipBytes(t, i)
    {
      TailTail(arch.bytes, FILE_INFO_POS, SkipBytes(t, i));
      SkipFileInfo(arch);
    }
  }

  // ---------------------------------------------------------------------
  // Copying between files
  // ---------------------------------------------------------------------

  /** The size of the buffer file_copy_block and concat_files copy
      through. */
  const COPY_BUF_SIZE: nat := 1024

  /** concat_files: everything from the position of `from` to its end,
      copied a buffer at a time to the position of `to`; the result is the
      number of bytes copied. */
  method ConcatFiles(to: Stream, from: Stream) returns (total: nat)
    requires to != from
    modifies to, from
    ensures from.bytes == old(from.bytes)
    ensures var rest := Tail(from.bytes, old(from.pos));
      && to.bytes == Patch(old(to.bytes), old(to.pos), rest) && to.pos == old(to.pos) + |rest|
      && from.pos == old(from.pos) + |rest| && total == |rest|
  {
    ghost var s := from.bytes;
    ghost var p0 := from.pos;
    ghost var t0 := to.bytes;
    ghost var q0 := to.pos;
    ghost var copied: seq<Byte> := [];
    total := 0;
    assert Patch(t0, q0, []) == t0;
    while true
      invariant Copying(from, to, s, p0, t0, q0, copied) && total == |copied|
      decreases |Tail(s, from.pos)|
    {
      var n;
      n, copied := CopyChunk(from, to, COPY_BUF_SIZE, s, p0, t0, q0, copied);
      if n == 0 {
        break;
      }
      total := total + n;
    }
  }

  /** Partway through a copy: the bytes `copied` so far are those that
      followed position `p0` of `s`, read from `from` and written at `q0` of
      what `to` held, `t0`. */
  ghost predicate Copying(from: Stream, to: Stream, s: seq<Byte>, p0: nat, t0: seq<Byte>, q0: nat, copied: seq<Byte>)
    reads from, to
  {
    && from.bytes == s && to.bytes == Patch(t0, q0, copied) && to.pos == q0 + |copied|
    && from.pos == p0 + |copied| && Tail(s, p0) == copied + Tail(s, from.pos)
  }

  /** One fread of at most `n` bytes and the fwrite of what it read. */
  method CopyChunk(from: Stream, to: Stream, n: nat, ghost s: seq<Byte>, ghost p0: nat,
                   ghost t0: seq<Byte>, ghost q0: nat, ghost copied: seq<Byte>)
    returns (k: nat, ghost copied': seq<Byte>)
    requires to != from && Copying(from, to, s, p0, t0, q0, copied)
    modifies to, from
    ensures Copying(from, to, s, p0, t0, q0, copied')
    ensures copied' == copied + Take(Tail(s, old(from.pos)), n) && k == |copied'| - |copied|
    ensures k < n ==> Tail(s, from.pos) == []
    ensures |Tail(s, from.pos)| == |Tail(s, old(from.pos))| - k
  {
    ghost var p := from.pos;
    ChunkSplit(s, p, n);
    var chunk := from.Read(n);
    ghost var w, pw := to.bytes, to.pos;
    to.Write(chunk);
    copied' := copied + chunk;
    PatchStep(t0, q0, copied, chunk, w, pw, to.bytes);
    SplitAgain(Tail(s, p0), copied, Tail(s, p), chunk, Tail(s, from.pos));
    k := |chunk|;
  }

  /** A write right after an earlier one at `q0` extends it. */
  lemma {:induction false} PatchStep(t0: seq<Byte>, q0: nat, a: seq<Byte>, b: seq<Byte>, w: seq<Byte>, p: nat, r: seq<Byte>)
    requires w == Patch(t0, q0, a) && p == q0 + |a| && r == Patch(w, p, b)
    ensures r == Patch(t0, q0, a + b)
  {
    var q := Patch(t0, q0, a + b);
    assert |r| == |q|;
    forall i | 0 <= i < |r|
      ensures r[i] == q[i]
    {
      if q0 <= i < p + |b| {
        assert q[i] == (a + b)[i - q0];
      }
    }
  }

  /** A sequence that is `a` then `y`, where `y` is `b` then `z`, is `a`
      and `b` then `z`. */
  lemma {:induction false} SplitAgain(x: seq<Byte>, a: seq<Byte>, y: seq<Byte>, b: seq<Byte>, z: seq<Byte>)
    requires x == a + y && y == b + z
    ensures x == (a + b) + z
  {
  }

  /** A read of `n` bytes at `p` splits what follows `p` into the chunk and
      what follows it. */
  lemma {:induction false} ChunkSplit(s: seq<Byte>, p: nat, n: nat)
    ensures var chunk := Take(Tail(s, p), n);
      && Tail(s, p) == chunk + Tail(s, p + |chunk|)
      && (|chunk| < n ==> Tail(s, p + |chunk|) == [])
  {
  }

  /** file_copy_block: `blockSize` bytes from the position of `from`, or
      fewer where it ends, copied a buffer at a time to the position of
      `to`; the result is the number of bytes copied. */
  method FileCopyBlock(from: Stream, to: Stream, blockSize: nat) returns (total: nat)
    requires to != from
    modifies to, from
    ensures from.bytes == old(from.bytes)
    ensures var blk := Take(Tail(from.bytes, old(from.pos)), blockSize);
      && to.bytes == Patch(old(to.bytes), old(to.pos), blk) && to.pos == old(to.pos) + |blk|
      && from.pos == old(from.pos) + |blk| && total == |blk|
  {
    ghost var s := from.bytes;
    ghost var p0 := from.pos;
    ghost var t0 := to.bytes;
    ghost var q0 := to.pos;
    ghost var copied: seq<Byte> := [];
    total := 0;
    assert Patch(t0, q0, []) == t0;
    var left: nat := blockSize;
    var n;
    while left > COPY_BUF_SIZE
      invariant Copying(from, to, s, p0, t0, q0, copied) && total == |copied|
      invariant left <= blockSize && |copied| == blockSize - left
    {
      n, copied := CopyChunk(from, to, COPY_BUF_SIZE, s, p0, t0, q0, copied);
      total := total + n;
      if n < COPY_BUF_SIZE {
        TakeAll(Tail(s, p0), copied, blockSize);
        return;
      }
      left := left - COPY_BUF_SIZE;
    }
    ghost var before := copied;
    ghost var rest := Tail(s, from.pos);
    n, copied := CopyChunk(from, to, left, s, p0, t0, q0, copied);
    total := total + n;
    TakeJoin(before, rest, left);
  }

  /** Taking at least all of `t` gives `t`. */
  lemma {:induction false} TakeAll(t: seq<Byte>, copied: seq<Byte>, n: nat)
    requires t == copied + [] && |copied| <= n
    ensures Take(t, n) == copied
  {
  }

  /** Taking past a prefix takes the prefix and then from the rest. */
  lemma {:induction false} TakeJoin(x: seq<Byte>, y: seq<Byte>, k: nat)
    ensures Take(x + y, |x| + k) == x + Take(y, k)
  {
  }

  // ---------------------------------------------------------------------
  // Adding files
  // ---------------------------------------------------------------------

  /** encode_file from a file holding `content` to the position of `temp`:
      the block written is the encoding of `content` with the code tree
      built from it; `read` is where the input file ends up, its length. */
  method EncodeInto(content: seq<Byte>, temp: Stream, st: Statics)
    returns (read: nat, block: seq<Byte>, ghost root: Option<Tree>)
    requires st.Valid() && |content| <= UINT_MAX
    modifies temp, st.inbuf, st.inbuf.data, st.outbuf, st.outbuf.data, st.freq, st.table
    ensures st.Valid() && read == |content|
    ensures block == Pack(Encoded(root, content)) && (root.None? <==> content == [])
    ensures root.Some? ==> forall x :: x in content ==> x in Syms(root.value)
    ensures temp.bytes == Patch(old(temp.bytes), old(temp.pos), block) && temp.pos == old(temp.pos) + |block|
  {
    read, block, root := EncodeBlock(content, st);
    temp.Write(block);
  }

  /** encode_file from a file holding `content` into a new file. */
  method EncodeBlock(content: seq<Byte>, st: Statics) returns (read: nat, block: seq<Byte>, ghost root: Option<Tree>)
    requires st.Valid() && |content| <= UINT_MAX
    modifies st.inbuf, st.inbuf.data, st.outbuf, st.outbuf.data, st.freq, st.table
    ensures st.Valid() && read == |content|
    ensures block == Pack(Encoded(root, content)) && (root.None? <==> content == [])
    ensures root.Some? ==> forall x :: x in content ==> x in Syms(root.value)
  {
    var fin := new InFile(content);
    var fout := new OutFile();
    ghost var none := fout.bytes;
    root := EncodeFile(fin, fout, st.inbuf, st.outbuf, st.freq, st.table);
    read := fin.pos;
    block := fout.bytes;
    ghost var enc := Pack(Encoded(root, content));
    NilPlus(none, enc, block);
  }

  /** Nothing followed by `y` is `y`. */
  lemma {:induction false} NilPlus(x: seq<Byte>, y: seq<Byte>, z: seq<Byte>)
    requires x == [] && z == x + y
    ensures z == y
  {
  }

  /** One opened file of compress_files: its block goes to `temp`, its
      record to `arch`; the compressed size is how far `temp` moved, as an
      `unsigned`. */
  method CompressOne(arch: Stream, temp: Stream, name: seq<Byte>, content: seq<Byte>, time: nat, st: Statics)
    returns (e: Entry, ghost block: seq<Byte>, ghost root: Option<Tree>)
    requires st.Valid() && arch != temp
    requires |name| <= MAX_NAME && NoZero(name) && |content| <= UINT_MAX && time < U64_LIMIT
    modifies arch, temp, st.inbuf, st.inbuf.data, st.outbuf, st.outbuf.data, st.freq, st.table
    ensures st.Valid()
    ensures e == Entry(name, |content|, |block| % U32_LIMIT, time) && ValidEntry(e)
    ensures Encodes(e, block, content, root)
    ensures temp.bytes == Patch(old(temp.bytes), old(temp.pos), block) && temp.pos == old(temp.pos) + |block|
    ensures arch.bytes == Patch(old(arch.bytes), old(arch.pos), Record(e)) && arch.pos == old(arch.pos) + |Record(e)|
  {
    var begPos := temp.pos;
    var read, b, r := EncodeInto(content, temp, st);
    block, root := b, r;
    assert temp.pos - begPos == |b| && read == |content|;
    e := Entry(name, read, (temp.pos - begPos) % U32_LIMIT, time);
    assert ValidEntry(e);
    WriteFileInfo(arch, e);
  }

  /** The names and files compress_files can record: names that fit a
      record, files whose sizes fit an `unsigned`, and a time read for each
      name. */
  predicate Addable(names: seq<seq<Byte>>, inputs: seq<Option<seq<Byte>>>, clock: seq<nat>) {
    && |inputs| == |names|
    && (forall i :: 0 <= i < |names| ==> |names[i]| <= MAX_NAME && NoZero(names[i]))
    && (forall i :: 0 <= i < |inputs| && inputs[i].Some? ==> |inputs[i].value| <= UINT_MAX)
    && |names| <= |clock| && (forall j :: 0 <= j < |clock| ==> clock[j] < U64_LIMIT)
  }

  /** compress_files: every requested name that opens is compressed to the
      position of `temp` and its record written at the position of `arch`;
      the others are skipped. The result is the number compressed. */
  method CompressFiles(arch: Stream, temp: Stream, names: seq<seq<Byte>>, inputs: seq<Option<seq<Byte>>>,
                       clock: seq<nat>, st: Statics)
    returns (cnt: nat, ghost news: seq<Entry>, ghost blocks: seq<seq<Byte>>,
             ghost contents: seq<seq<Byte>>, ghost roots: seq<Option<Tree>>)
    requires st.Valid() && arch != temp
    requires Addable(names, inputs, clock)
    modifies arch, temp, st.inbuf, st.inbuf.data, st.outbuf, st.outbuf.data, st.freq, st.table
    ensures st.Valid()
    ensures AddedUpTo(names, inputs, clock, |names|, news, blocks, contents, roots) && cnt == |news|
    ensures AllValid(news)
    ensures arch.bytes == Patch(old(arch.bytes), old(arch.pos), Records(news))
    ensures arch.pos == old(arch.pos) + |Records(news)|
    ensures temp.bytes == Patch(old(temp.bytes), old(temp.pos), Data(blocks))
    ensures temp.pos == old(temp.pos) + |Data(blocks)|
  {
    ghost var a0, p0 := arch.bytes, arch.pos;
    ghost var t0, q0 := temp.bytes, temp.pos;
    cnt := 0;
    news, blocks, contents, roots := [], [], [], [];
    assert Patch(a0, p0, []) == a0 && Patch(t0, q0, []) == t0;
    // Each invariant is kept whole (`== true`) rather than split into its
    // conjuncts: CompressNext takes and returns them as they stand.
    for i := 0 to |names|
      invariant st.Valid() == true && cnt == |news| <= i
      invariant AddedUpTo(names, inputs, clock, i, news, blocks, contents, roots) == true
      invariant Compressing(arch.bytes, arch.pos, temp.bytes, temp.pos, a0, p0, t0, q0, news, blocks) == true
    {
      cnt, news, blocks, contents, roots :=
        CompressNext(arch, temp, names, inputs, clock, st, i, cnt, a0, p0, t0, q0, news, blocks, contents, roots);
    }
  }

  /** One turn of compress_files' loop: the file of the i-th requested name
      compressed when it opens, nothing done when it does not. */
  method CompressNext(arch: Stream, temp: Stream, names: seq<seq<Byte>>, inputs: seq<Option<seq<Byte>>>,
                      clock: seq<nat>, st: Statics, i: nat, cnt: nat, ghost a0: seq<Byte>, ghost p0: nat,
                      ghost t0: seq<Byte>, ghost q0: nat, ghost news: seq<Entry>, ghost blocks: seq<seq<Byte>>,
                      ghost contents: seq<seq<Byte>>, ghost roots: seq<Option<Tree>>)
    returns (cnt': nat, ghost news': seq<Entry>, ghost blocks': seq<seq<Byte>>,
             ghost contents': seq<seq<Byte>>, ghost roots': seq<Option<Tree>>)
    requires st.Valid() && arch != temp && i < |names| && cnt == |news| <= i
    requires Addable(names, inputs, clock)
    requires AddedUpTo(names, inputs, clock, i, news, blocks, contents, roots)
    requires Compressing(arch.bytes, arch.pos, temp.bytes, temp.pos, a0, p0, t0, q0, news, blocks)
    modifies arch, temp, st.inbuf, st.inbuf.data, st.outbuf, st.outbuf.data, st.freq, st.table
    ensures st.Valid() && cnt' == |news'| <= i + 1
    ensures AddedUpTo(names, inputs, clock, i + 1, news', blocks', contents', roots')
    ensures Compressing(arch.bytes, arch.pos, temp.bytes, temp.pos, a0, p0, t0, q0, news', blocks')
  {
    if inputs[i].None? {
      AddedSkip(names, inputs, clock, i, news, blocks, contents, roots);
      cnt', news', blocks', contents', roots' := cnt, news, blocks, contents, roots;
      return;
    }
    var c := inputs[i].value;
    ghost var aw, ap, tw, tp := arch.bytes, arch.pos, temp.bytes, temp.pos;
    var e, b, r := CompressOne(arch, temp, names[i], c, clock[cnt], st);
    AddedOne(names, inputs, clock, i, news, blocks, contents, roots, e, b, c, r);
    GrowRecords(a0, p0, news, e, aw, ap, arch.bytes);
    GrowData(t0, q0, blocks, b, tw, tp, temp.bytes);
    cnt', news', blocks', contents', roots' := cnt + 1, news + [e], blocks + [b], contents + [c], roots + [r];
  }

  /** The records written so far followed by one more. */
  lemma {:induction false} GrowRecords(a0: seq<Byte>, p0: nat, news: seq<Entry>, e: Entry, w: seq<Byte>, p: nat, r: seq<Byte>)
    requires AllValid(news) && ValidEntry(e)
    requires w == Patch(a0, p0, Records(news)) && p == p0 + |Records(news)| && r == Patch(w, p, Record(e))
    ensures AllValid(news + [e])
    ensures r == Patch(a0, p0, Records(news + [e])) && p + |Record(e)| == p0 + |Records(news + [e])|
  {
    var recs := RecordsPush(news, e);
    PatchStep(a0, p0, Records(news), Record(e), w, p, r);
    SamePatch(a0, p0, Records(news) + Record(e), recs);
  }

  /** The records of `news` and one more entry. */
  lemma {:induction false} RecordsPush(news: seq<Entry>, e: Entry) returns (recs: seq<Byte>)
    requires AllValid(news) && ValidEntry(e)
    ensures AllValid(news + [e]) && recs == Records(news + [e]) && recs == Records(news) + Record(e)
  {
    var es := news + [e];
    assert es[..|es| - 1] == news;
    RecordsSnoc(es);
    recs := Records(es);
  }

  /** The blocks written so far followed by one more. */
  lemma {:induction false} GrowData(t0: seq<Byte>, q0: nat, blocks: seq<seq<Byte>>, b: seq<Byte>, w: seq<Byte>, p: nat, r: seq<Byte>)
    requires w == Patch(t0, q0, Data(blocks)) && p == q0 + |Data(blocks)| && r == Patch(w, p, b)
    ensures r == Patch(t0, q0, Data(blocks + [b])) && p + |b| == q0 + |Data(blocks + [b])|
  {
    var data := DataPush(blocks, b);
    PatchStep(t0, q0, Data(blocks), b, w, p, r);
    SamePatch(t0, q0, Data(blocks) + b, data);
  }

  /** The data of `blocks` and one more block. */
  lemma {:induction false} DataPush(blocks: seq<seq<Byte>>, b: seq<Byte>) returns (data: seq<Byte>)
    ensures data == Data(blocks + [b]) && data == Data(blocks) + b
  {
    var bs := blocks + [b];
    assert bs[..|bs| - 1] == blocks;
    data := Data(bs);
  }

  /** Writing equal chunks gives equal files. */
  lemma {:induction false} SamePatch(t: seq<Byte>, q: nat, a: seq<Byte>, b: seq<Byte>)
    requires a == b
    ensures Patch(t, q, a) == Patch(t, q, b)
  {
  }

  /** append_to_archive: the new records are written where the header
      ends, then the old data and the new blocks, passed through a
      temporary file, after them; the count read back is raised by the
      number added and the checksum refreshed. `tmpOk` is whether tmpfile
      succeeded; when it fails nothing is written and 0 is returned. */
  method AppendToArchive(arch: Stream, names: seq<seq<Byte>>, inputs: seq<Option<seq<Byte>>>,
                         clock: seq<nat>, tmpOk: bool, st: Statics)
    returns (cnt: nat, ghost news: seq<Entry>, ghost blocks: seq<seq<Byte>>,
             ghost contents: seq<seq<Byte>>, ghost roots: seq<Option<Tree>>)
    requires st.Valid()
    requires Addable(names, inputs, clock)
    modifies arch, st.inbuf, st.inbuf.data, st.outbuf, st.outbuf.data, st.freq, st.table, st.crc.table
    ensures st.Valid()
    ensures !tmpOk ==> cnt == 0 && arch.bytes == old(arch.bytes)
    ensures tmpOk ==> AddedUpTo(names, inputs, clock, |names|, news, blocks, contents, roots)
    ensures tmpOk ==> cnt == |news| && AllValid(news)
    ensures tmpOk ==> arch.bytes == AppendedBytes(old(arch.bytes), Records(news), cnt, Data(blocks))
  {
    SkipHeader(arch);
    if !tmpOk {
      cnt, news, blocks, contents, roots := 0, [], [], [], [];
      return;
    }
    ghost var s := arch.bytes;
    cnt, news, blocks, contents, roots := GrowArchive(arch, names, inputs, clock, st);
    ghost var g := arch.bytes;
    var n := ReadNumOfFiles(arch);
    WriteNumOfFiles(arch, cnt + n);
    ghost var u := arch.bytes;
    RefreshChecksum(arch, st);
    AppendSteps(s, Records(news), cnt, Data(blocks), g, n, u, arch.bytes);
  }

  /** The end of append_to_archive: the grown archive `g`, its count `n`
      raised by `cnt` in `u`, then the checksum refreshed in `r`. */
  lemma {:induction false} AppendSteps(s: seq<Byte>, recs: seq<Byte>, cnt: nat, data: seq<Byte>, g: seq<Byte>, n: nat,
                    u: seq<Byte>, r: seq<Byte>)
    requires g == Grown(s, recs, data) && n == ReadField(g, FILE_NUM_POS, INT_SIZE)
    requires u == WithCount(g, cnt + n) && r == Refreshed(u)
    ensures r == AppendedBytes(s, recs, cnt, data)
  {
    Recount(g, cnt, n);
    AppendedOf(s, recs, cnt, data, g);
  }

  /** The part of append_to_archive between the two skip_header calls and
      the second concat_files: the archive, positioned where its header
      ends, is grown by the new records, the old data and the new blocks. */
  method GrowArchive(arch: Stream, names: seq<seq<Byte>>, inputs: seq<Option<seq<Byte>>>,
                     clock: seq<nat>, st: Statics)
    returns (cnt: nat, ghost news: seq<Entry>, ghost blocks: seq<seq<Byte>>,
             ghost contents: seq<seq<Byte>>, ghost roots: seq<Option<Tree>>)
    requires st.Valid() && arch.pos == HeaderEnd(arch.bytes)
    requires Addable(names, inputs, clock)
    modifies arch, st.inbuf, st.inbuf.data, st.outbuf, st.outbuf.data, st.freq, st.table
    ensures st.Valid()
    ensures AddedUpTo(names, inputs, clock, |names|, news, blocks, contents, roots)
    ensures cnt == |news| && AllValid(news)
    ensures arch.bytes == Grown(old(arch.bytes), Records(news), Data(blocks))
  {
    ghost var s, he := arch.bytes, arch.pos;
    var temp := new Stream([]);
    var moved := ConcatFiles(temp, arch);
    ghost var rest, rp := temp.bytes, temp.pos;
    PatchEnd([], Tail(s, he));
    assert rest == Tail(s, he) && rp == |rest|;
    SkipHeader(arch);
    cnt, news, blocks, contents, roots := CompressFiles(arch, temp, names, inputs, clock, st);
    assert st.Valid();
    temp.Seek(0);
    assert st.Valid();
    ghost var w, wp, u := arch.bytes, arch.pos, temp.bytes;
    PatchEnd(rest, Data(blocks));
    assert u == rest + Data(blocks);
    moved := ConcatFiles(arch, temp);
    GrowSteps(s, he, Records(news), Data(blocks), w, wp, u, arch.bytes);
  }

  /** The bytes of GrowArchive: `w` is the archive with the records
      written at the header end `he`, `u` the temporary file holding the
      old data and the new blocks, `r` the final archive. */
  lemma {:induction false} GrowSteps(s: seq<Byte>, he: nat, recs: seq<Byte>, data: seq<Byte>,
                  w: seq<Byte>, wp: nat, u: seq<Byte>, r: seq<Byte>)
    requires he == HeaderEnd(s) && u == Tail(s, he) + data
    requires w == Patch(s, he, recs) && wp == he + |recs| && r == Patch(w, wp, Tail(u, 0))
    ensures r == Grown(s, recs, data)
  {
    GrowPatch(s, he, recs, Tail(s, he), data, w, wp, u, r);
  }

  /** The two writes of append_to_archive at the end of the header: the
      records, then the moved tail and the new blocks behind them. */
  lemma {:induction false} GrowPatch(s: seq<Byte>, he: nat, recs: seq<Byte>, t: seq<Byte>, data: seq<Byte>,
                  w: seq<Byte>, wp: nat, u: seq<Byte>, r: seq<Byte>)
    requires u == t + data
    requires w == Patch(s, he, recs) && wp == he + |recs| && r == Patch(w, wp, Tail(u, 0))
    ensures r == Patch(s, he, recs + t + data)
  {
    assert Tail(u, 0) == u;
    PatchStep(s, he, recs, u, w, wp, r);
    assert recs + u == recs + t + data;
    SamePatch(s, he, recs + u, recs + t + data);
  }

  /** create_archive: the file `arch` names is created empty and given
      the signature, a zero checksum and a zero count, with the checksum
      then refreshed. `canOpen` is whether fopen succeeded; when it fails
      the result is 1 and nothing is written. */
  method CreateArchive(arch: Stream, canOpen: bool, st: Statics) returns (code: int)
    requires st.Valid()
    modifies arch, st.crc.table
    ensures st.Valid()
    ensures !canOpen ==> code == 1 && arch.bytes == old(arch.bytes)
    ensures canOpen ==> code == 0 && arch.bytes == Created()
  {
    if !canOpen {
      return 1;
    }
    arch.Truncate();
    WritePlaceholder(arch);
    ghost var z := arch.bytes;
    RefreshChecksum(arch, st);
    RefreshSeals(z, LE(0, INT_SIZE), LE(0, INT_SIZE));
    return 0;
  }

  // ---------------------------------------------------------------------
  // Selecting and extracting files
  // ---------------------------------------------------------------------

  /** The search loops of extract_from_archive and remove_from_archive: for
      each requested name, the first entry of that name is selected and
      the search stops there. */
  method MarkFiles(es: seq<Entry>, names: seq<seq<Byte>>) returns (marks: seq<bool>)
    ensures marks == Marks(es, names)
  {
    var a := new bool[|es|](_ => false);
    assert a[..] == Marks(es, names[..0]);
    for i := 0 to |names|
      invariant a[..] == Marks(es, names[..i])
    {
      var j := 0;
      while j < |es|
        invariant j <= |es| && forall k :: 0 <= k < j ==> es[k].name != names[i]
      {
        if es[j].name == names[i] {
          break;
        }
        j := j + 1;
      }
      assert j == FirstNamed(es, names[i]);
      if j < |es| {
        a[j] := true;
      }
      assert names[..i + 1][..i] == names[..i];
    }
    assert names[..|names|] == names;
    marks := a[..];
  }

  /** Which entries' output files fopen can create: all but those whose
      names are in `unwritable`. */
  function Opens(es: seq<Entry>, unwritable: set<seq<Byte>>): (o: seq<bool>)
    ensures |o| == |es| && forall i :: 0 <= i < |es| ==> (o[i] <==> es[i].name !in unwritable)
  {
    seq(|es|, i requires 0 <= i < |es| => es[i].name !in unwritable)
  }

  /** decode_file from byte `p` of the archive bytes `s` into a new output
      file: the bytes of the entry's file when its block starts there. A
      position past the end reads as the end of the file. */
  method DecodeAt(s: seq<Byte>, p: nat, fileSize: nat, st: Statics, ghost limit: nat)
    returns (content: seq<Byte>)
    requires st.Valid()
    requires fileSize == 0 || ParseAt(BytesToBits(s), 8 * p, limit).Parsed?
    modifies st.inbuf, st.inbuf.data, st.outbuf, st.outbuf.data
    ensures st.Valid()
    ensures content == Unpacked(BytesToBits(s), 8 * p, fileSize, limit)
  {
    var fin := new InFile(s);
    if p <= |s| {
      fin.Seek(p);
    } else {
      fin.Seek(|s|);
      if fileSize > 0 {
        ParsePastEnd(BytesToBits(s), 8 * p, limit);
        assert false;
      }
    }
    var fout := new OutFile();
    ghost var none := fout.bytes;
    var _ := DecodeFile(st.inbuf, st.outbuf, fin, fout, fileSize, limit);
    content := fout.bytes;
    NilPlus(none, Unpacked(BytesToBits(s), 8 * p, fileSize, limit), content);
  }

  /** extract_files: from where the header ends, each entry's block starts
      where the running sum of compressed sizes puts it; each selected entry
      whose output file opens is decoded into it. `written` are the files
      written, in order; `cnt` their number. */
  method ExtractFiles(arch: Stream, h: Header, marks: seq<bool>, opens: seq<bool>, st: Statics, ghost limit: nat)
    returns (cnt: nat, written: seq<Written>)
    requires st.Valid() && |marks| == |h.entries| && |opens| == |h.entries| && arch.pos == h.dataStart
    requires Decodable(arch.bytes, h, Picks(marks, opens), limit)
    modifies arch, st.inbuf, st.inbuf.data, st.outbuf, st.outbuf.data
    ensures st.Valid() && arch.bytes == old(arch.bytes)
    ensures written == Extracted(arch.bytes, h, Picks(marks, opens), |marks|, limit) && cnt == |written|
  {
    var begPos := arch.pos;
    var shift := 0;
    cnt, written := 0, [];
    ghost var s, picks := arch.bytes, Picks(marks, opens);
    for i := 0 to |h.entries|
      invariant st.Valid() && arch.bytes == s
      invariant begPos + shift == BlockStart(h, i)
      invariant written == Extracted(s, h, picks, i, limit) && cnt == |written|
    {
      cnt, written, shift := ExtractStep(arch, begPos, shift, h, marks, opens, st, limit, i, cnt, written);
    }
  }

  /** The body of extract_files' loop: seek to the entry's block, extract
      it when picked, and move the running shift past it. */
  method ExtractStep(arch: Stream, begPos: nat, shift: nat, h: Header, marks: seq<bool>, opens: seq<bool>,
                     st: Statics, ghost limit: nat, i: nat, cnt: nat, written: seq<Written>)
    returns (cnt': nat, written': seq<Written>, shift': nat)
    requires st.Valid() && |marks| == |h.entries| && |opens| == |h.entries| && i < |h.entries|
    requires begPos + shift == BlockStart(h, i)
    requires Decodable(arch.bytes, h, Picks(marks, opens), limit)
    requires written == Extracted(arch.bytes, h, Picks(marks, opens), i, limit) && cnt == |written|
    modifies arch, st.inbuf, st.inbuf.data, st.outbuf, st.outbuf.data
    ensures st.Valid() && arch.bytes == old(arch.bytes)
    ensures begPos + shift' == BlockStart(h, i + 1)
    ensures written' == Extracted(arch.bytes, h, Picks(marks, opens), i + 1, limit) && cnt' == |written'|
  {
    arch.Seek(begPos + shift);
    cnt', written' := ExtractNext(arch.bytes, arch.pos, h, marks, opens, st, limit, i, cnt, written);
    BlockStartStep(h, i);
    shift' := shift + h.entries[i].compSize;
  }

  /** One turn of extract_files' loop, with the archive `s` positioned at
      `p`, where the entry's block starts. */
  method ExtractNext(s: seq<Byte>, p: nat, h: Header, marks: seq<bool>, opens: seq<bool>, st: Statics,
                     ghost limit: nat, i: nat, cnt: nat, written: seq<Written>)
    returns (cnt': nat, written': seq<Written>)
    requires st.Valid() && |marks| == |h.entries| && |opens| == |h.entries| && i < |h.entries|
    requires p == BlockStart(h, i)
    requires Decodable(s, h, Picks(marks, opens), limit)
    requires written == Extracted(s, h, Picks(marks, opens), i, limit) && cnt == |written|
    modifies st.inbuf, st.inbuf.data, st.outbuf, st.outbuf.data
    ensures st.Valid()
    ensures written' == Extracted(s, h, Picks(marks, opens), i + 1, limit) && cnt' == |written'|
  {
    cnt', written' := cnt, written;
    if marks[i] && opens[i] {
      var e := h.entries[i];
      var content := DecodeAt(s, p, e.fileSize, st, limit);
      written' := written + [Written(e.name, content)];
      cnt' := cnt + 1;
    }
  }

  /** extract_from_archive: the header is read, the requested names
      selected and the selected files extracted. `unwritable` are the names
      whose output files fopen cannot create. A file too short for the
      header it announces extracts nothing. */
  method ExtractFromArchive(arch: Stream, names: seq<seq<Byte>>, unwritable: set<seq<Byte>>, st: Statics,
                            ghost limit: nat)
    returns (cnt: nat, written: seq<Written>)
    requires st.Valid()
    requires var h := ParseHeader(arch.bytes);
      h.Some? ==> Decodable(arch.bytes, h.value, Picks(Marks(h.value.entries, names), Opens(h.value.entries, unwritable)), limit)
    modifies arch, st.inbuf, st.inbuf.data, st.outbuf, st.outbuf.data
    ensures st.Valid() && arch.bytes == old(arch.bytes)
    ensures var h := ParseHeader(arch.bytes);
      && (h.None? ==> cnt == 0 && written == [])
      && (h.Some? ==> var es := h.value.entries;
            && written == Extracted(arch.bytes, h.value, Picks(Marks(es, names), Opens(es, unwritable)), |es|, limit)
            && cnt == |written|)
  {
    var h := ReadHeader(arch);
    if h.None? {
      return 0, [];
    }
    var marks := MarkFiles(h.value.entries, names);
    cnt, written := ExtractFiles(arch, h.value, marks, Opens(h.value.entries, unwritable), st, limit);
  }

  /** extract_all: every entry selected. */
  method ExtractAll(arch: Stream, unwritable: set<seq<Byte>>, st: Statics, ghost limit: nat)
    returns (cnt: nat, written: seq<Written>)
    requires st.Valid()
    requires var h := ParseHeader(arch.bytes);
      h.Some? ==> Decodable(arch.bytes, h.value, Picks(All(|h.value.entries|), Opens(h.value.entries, unwritable)), limit)
    modifies arch, st.inbuf, st.inbuf.data, st.outbuf, st.outbuf.data
    ensures st.Valid() && arch.bytes == old(arch.bytes)
    ensures var h := ParseHeader(arch.bytes);
      && (h.None? ==> cnt == 0 && written == [])
      && (h.Some? ==> var es := h.value.entries;
            && written == Extracted(arch.bytes, h.value, Picks(All(|es|), Opens(es, unwritable)), |es|, limit)
            && cnt == |written|)
  {
    var h := ReadHeader(arch);
    if h.None? {
      return 0, [];
    }
    var n := |h.value.entries|;
    cnt, written := ExtractFiles(arch, h.value, All(n), Opens(h.value.entries, unwritable), st, limit);
  }

  // ---------------------------------------------------------------------
  // Removing files
  // ---------------------------------------------------------------------

  /** delete_files: the records of the unselected entries are written to
      `temp`, then, from where the header ends, the block of each unselected
      entry is copied after them; the result is the number of selected
      entries. */
  method DeleteFiles(arch: Stream, temp: Stream, h: Header, marks: seq<bool>) returns (cnt: nat)
    requires arch != temp && AllValid(h.entries) && |marks| == |h.entries| && arch.pos == h.dataStart
    modifies arch, temp
    ensures arch.bytes == old(arch.bytes) && cnt == Marked(marks, |marks|)
    ensures var out := KeptRecords(h, marks) + KeptData(arch.bytes, h, marks, |marks|);
      temp.bytes == Patch(old(temp.bytes), old(temp.pos), out) && temp.pos == old(temp.pos) + |out|
  {
    ghost var t0, q0 := temp.bytes, temp.pos;
    WriteKept(temp, h, marks);
    ghost var w, wp := temp.bytes, temp.pos;
    cnt := CopyKept(arch, temp, h, marks);
    PatchStep(t0, q0, KeptRecords(h, marks), KeptData(arch.bytes, h, marks, |marks|), w, wp, temp.bytes);
  }

  /** The first loop of delete_files: the records of the unselected
      entries, in order. */
  method WriteKept(temp: Stream, h: Header, marks: seq<bool>)
    requires AllValid(h.entries) && |marks| == |h.entries|
    modifies temp
    ensures temp.bytes == Patch(old(temp.bytes), old(temp.pos), KeptRecords(h, marks))
    ensures temp.pos == old(temp.pos) + |KeptRecords(h, marks)|
  {
    ghost var t0, q0 := temp.bytes, temp.pos;
    var es := h.entries;
    assert Patch(t0, q0, []) == t0;
    for i := 0 to |es|
      invariant AllValid(Keep(es, marks, i))
      invariant temp.bytes == Patch(t0, q0, Records(Keep(es, marks, i)))
      invariant temp.pos == q0 + |Records(Keep(es, marks, i))|
    {
      WriteKeptNext(temp, es, marks, i, t0, q0);
    }
  }

  /** One turn of the first loop of delete_files. */
  method WriteKeptNext(temp: Stream, es: seq<Entry>, marks: seq<bool>, i: nat, ghost t0: seq<Byte>, ghost q0: nat)
    requires AllValid(es) && i < |es| == |marks| && AllValid(Keep(es, marks, i))
    requires temp.bytes == Patch(t0, q0, Records(Keep(es, marks, i)))
    requires temp.pos == q0 + |Records(Keep(es, marks, i))|
    modifies temp
    ensures AllValid(Keep(es, marks, i + 1))
    ensures temp.bytes == Patch(t0, q0, Records(Keep(es, marks, i + 1)))
    ensures temp.pos == q0 + |Records(Keep(es, marks, i + 1))|
  {
    if !marks[i] {
      ghost var w, wp := temp.bytes, temp.pos;
      WriteFileInfo(temp, es[i]);
      GrowRecords(t0, q0, Keep(es, marks, i), es[i], w, wp, temp.bytes);
      assert Keep(es, marks, i + 1) == Keep(es, marks, i) + [es[i]];
    } else {
      assert Keep(es, marks, i + 1) == Keep(es, marks, i);
    }
  }

  /** The second loop of delete_files: the blocks of the unselected
      entries copied, the selected ones counted. */
  method CopyKept(arch: Stream, temp: Stream, h: Header, marks: seq<bool>) returns (cnt: nat)
    requires arch != temp && |marks| == |h.entries| && arch.pos == h.dataStart
    modifies arch, temp
    ensures arch.bytes == old(arch.bytes) && cnt == Marked(marks, |marks|)
    ensures temp.bytes == Patch(old(temp.bytes), old(temp.pos), KeptData(arch.bytes, h, marks, |marks|))
    ensures temp.pos == old(temp.pos) + |KeptData(arch.bytes, h, marks, |marks|)|
  {
    ghost var s, t0, q0 := arch.bytes, temp.bytes, temp.pos;
    var begPos := arch.pos;
    var shift := 0;
    cnt := 0;
    assert Patch(t0, q0, []) == t0;
    for i := 0 to |h.entries|
      invariant arch.bytes == s && begPos + shift == BlockStart(h, i) && cnt == Marked(marks, i)
      invariant temp.bytes == Patch(t0, q0, KeptData(s, h, marks, i))
      invariant temp.pos == q0 + |KeptData(s, h, marks, i)|
    {
      cnt, shift := CopyKeptNext(arch, temp, h, marks, begPos, shift, i, cnt, s, t0, q0);
    }
  }

  /** One turn of the second loop of delete_files: seek to the entry's
      block in the archive `s`, copy it unless the entry is selected, and
      move the running shift past it. */
  method CopyKeptNext(arch: Stream, temp: Stream, h: Header, marks: seq<bool>, begPos: nat, shift: nat,
                      i: nat, cnt: nat, ghost s: seq<Byte>, ghost t0: seq<Byte>, ghost q0: nat)
    returns (cnt': nat, shift': nat)
    requires arch != temp && |marks| == |h.entries| && i < |h.entries|
    requires arch.bytes == s && begPos + shift == BlockStart(h, i) && cnt == Marked(marks, i)
    requires temp.bytes == Patch(t0, q0, KeptData(s, h, marks, i)) && temp.pos == q0 + |KeptData(s, h, marks, i)|
    modifies arch, temp
    ensures arch.bytes == s && begPos + shift' == BlockStart(h, i + 1) && cnt' == Marked(marks, i + 1)
    ensures temp.bytes == Patch(t0, q0, KeptData(s, h, marks, i + 1))
    ensures temp.pos == q0 + |KeptData(s, h, marks, i + 1)|
  {
    arch.Seek(begPos + shift);
    if marks[i] {
      cnt' := cnt + 1;
      assert KeptData(s, h, marks, i + 1) == KeptData(s, h, marks, i);
    } else {
      cnt' := cnt;
      assert KeptData(s, h, marks, i + 1) == KeptData(s, h, marks, i) + Block(s, h, i);
      ghost var w, wp := temp.bytes, temp.pos;
      var _ := FileCopyBlock(arch, temp, h.entries[i].compSize);
      assert temp.bytes == Patch(w, wp, Block(s, h, i)) && temp.pos == wp + |Block(s, h, i)|;
      PatchStep(t0, q0, KeptData(s, h, marks, i), Block(s, h, i), w, wp, temp.bytes);
    }
    BlockStartStep(h, i);
    shift' := shift + h.entries[i].compSize;
  }

  /** remove_from_archive: the header is read and the requested names
      selected; a temporary file receives the signature, the count of the
      entries left, their records and their blocks, and a fresh checksum;
      the archive is then reopened empty and the temporary file copied into
      it. `tmpOk` is whether tmpfile succeeded, `reopenOk` whether the
      archive could be reopened for writing; when either fails the archive
      is left as it was. The result is the number of selected entries. A
      file too short for the header it announces is left as it was. */
  method RemoveFromArchive(arch: Stream, names: seq<seq<Byte>>, tmpOk: bool, reopenOk: bool, st: Statics)
    returns (cnt: nat)
    requires st.Valid()
    modifies arch, st.crc.table
    ensures st.Valid()
    ensures var h := ParseHeader(old(arch.bytes));
      && (h.None? || !tmpOk ==> cnt == 0 && arch.bytes == old(arch.bytes))
      && (h.Some? && tmpOk ==> var marks := Marks(h.value.entries, names);
            && cnt == Marked(marks, |marks|)
            && arch.bytes == if reopenOk then Removed(old(arch.bytes), h.value, marks) else old(arch.bytes))
  {
    var header := ReadHeader(arch);
    if header.None? {
      return 0;
    }
    var h := header.value;
    var marks := MarkFiles(h.entries, names);
    if !tmpOk {
      return 0;
    }
    var temp := new Stream([]);
    cnt := Stripped(arch, temp, h, marks, st);
    temp.Seek(0);
    if reopenOk {
      CopyBack(arch, temp);
    }
  }

  /** The end of remove_from_archive once the archive is reopened for
      writing: it is emptied and the whole temporary file is copied in. */
  method CopyBack(arch: Stream, temp: Stream)
    requires arch != temp && temp.pos == 0
    modifies arch, temp
    ensures arch.bytes == old(temp.bytes) && temp.bytes == old(temp.bytes)
  {
    arch.Truncate();
    var _ := ConcatFiles(arch, temp);
    PatchEnd([], Tail(temp.bytes, 0));
    assert Tail(temp.bytes, 0) == temp.bytes;
  }

  /** The part of remove_from_archive that fills the temporary file: it
      ends up holding the archive less the selected entries. */
  method Stripped(arch: Stream, temp: Stream, h: Header, marks: seq<bool>, st: Statics) returns (cnt: nat)
    requires st.Valid() && arch != temp && temp.bytes == [] && temp.pos == 0
    requires AllValid(h.entries) && arch.pos == h.dataStart && |marks| == |h.entries|
    modifies arch, temp, st.crc.table
    ensures st.Valid() && arch.bytes == old(arch.bytes)
    ensures cnt == Marked(marks, |marks|) && temp.bytes == Removed(arch.bytes, h, marks)
  {
    WritePlaceholder(temp);
    cnt := DeleteFiles(arch, temp, h, marks);
    SealRemoved(temp, arch.bytes, h, marks, cnt, st);
  }

  /** The close of the temporary file's filling: behind the placeholders
      sit the kept records and blocks of `s`; the count of the entries left
      and the checksum make it the archive remove_from_archive leaves. */
  method SealRemoved(temp: Stream, ghost s: seq<Byte>, h: Header, marks: seq<bool>, cnt: nat, st: Statics)
    requires st.Valid() && AllValid(h.entries) && |marks| == |h.entries| && cnt == Marked(marks, |marks|)
    requires temp.bytes == Patch(MAGIC + LE(0, INT_SIZE) + LE(0, INT_SIZE), FILE_INFO_POS,
                                 KeptRecords(h, marks) + KeptData(s, h, marks, |marks|))
    modifies temp, st.crc.table
    ensures st.Valid() && temp.bytes == Removed(s, h, marks)
  {
    SealCount(temp, KeptRecords(h, marks) + KeptData(s, h, marks, |marks|), |h.entries| - cnt, st);
    RemovedIs(s, h, marks, |h.entries| - cnt, temp.bytes);
  }

  /** The end of remove_from_archive's filling of the temporary file: on the
      placeholders followed by `body`, write_num_of_files with the count `n`
      and refresh_checksum leave `body` sealed under that count. */
  method SealCount(temp: Stream, ghost body: seq<Byte>, n: nat, st: Statics)
    requires st.Valid()
    requires temp.bytes == Patch(MAGIC + LE(0, INT_SIZE) + LE(0, INT_SIZE), FILE_INFO_POS, body)
    modifies temp, st.crc.table
    ensures st.Valid()
    ensures temp.bytes == Sealed(LE(n % U32_LIMIT, INT_SIZE) + body)
  {
    ghost var t, w := MAGIC + LE(0, INT_SIZE) + LE(0, INT_SIZE), temp.bytes;
    WriteNumOfFiles(temp, n);
    ghost var u := temp.bytes;
    RefreshChecksum(temp, st);
    Reseal(body, n, t, w, u, temp.bytes);
  }

  /** The kept records and blocks sealed under the count of the entries
      left are what remove_from_archive leaves. */
  lemma {:induction false} RemovedIs(s: seq<Byte>, h: Header, marks: seq<bool>, n: nat, r: seq<Byte>)
    requires AllValid(h.entries) && |marks| == |h.entries| && n == |h.entries| - Marked(marks, |marks|)
    requires r == Sealed(LE(n % U32_LIMIT, INT_SIZE) + (KeptRecords(h, marks) + KeptData(s, h, marks, |marks|)))
    ensures r == Removed(s, h, marks)
  {
    var x, kr, kd := LE(n % U32_LIMIT, INT_SIZE), KeptRecords(h, marks), KeptData(s, h, marks, |marks|);
    Assoc(x, kr, kd);
    SameSeal(x + (kr + kd), x + kr + kd);
  }

  /** The signature, a zero checksum and a zero count written to an empty
      file, as placeholders. */
  method WritePlaceholder(f: Stream)
    requires f.bytes == []
    modifies f
    ensures f.bytes == MAGIC + LE(0, INT_SIZE) + LE(0, INT_SIZE) && f.pos == FILE_INFO_POS
  {
    WriteMagicNumber(f);
    PatchEnd([], MAGIC);
    WriteChecksum(f, 0);
    PatchEnd(MAGIC, LE(0, INT_SIZE));
    WriteNumOfFiles(f, 0);
    PatchEnd(MAGIC + LE(0, INT_SIZE), LE(0, INT_SIZE));
  }

  /** The placeholders `t` followed by `body`, with the count `n` written
      and the checksum refreshed, are `body` sealed under that count. */
  lemma {:induction false} Reseal(body: seq<Byte>, n: nat, t: seq<Byte>, w: seq<Byte>, u: seq<Byte>, r: seq<Byte>)
    requires t == MAGIC + LE(0, INT_SIZE) + LE(0, INT_SIZE)
    requires w == Patch(t, |t|, body) && u == WithCount(w, n) && r == Refreshed(u)
    ensures r == Sealed(LE(n % U32_LIMIT, INT_SIZE) + body)
  {
    var c := LE(0, INT_SIZE);
    PatchEnd(t, body);
    assert w == MAGIC + c + (c + body);
    CountField(w, c, c, body, n);
    RefreshSeals(u, c, LE(n % U32_LIMIT, INT_SIZE) + body);
  }
}
