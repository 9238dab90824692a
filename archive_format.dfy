/** The archive format of archiver.c: a fixed header (signature, checksum,
    file count), one record per stored file, then the compressed blocks in
    record order. Integers are stored little-endian with fixed widths: four
    bytes for `int`, `unsigned` and `uint32_t`, eight for `time_t`. */
module ArchiveFormat {
  import opened Bytes
  import opened Checksum
  import opened BinaryBuffer
  import opened HuffmanTypes
  import opened CodingSpec

  /** The signature "MAGIC_NUMBER", without its terminator. */
  const MAGIC: seq<Byte> := [0x4D, 0x41, 0x47, 0x49, 0x43, 0x5F, 0x4E, 0x55, 0x4D, 0x42, 0x45, 0x52]

  const INT_SIZE: nat := 4
  const TIME_SIZE: nat := 8
  const MAGIC_NUM_POS: nat := 0
  const CHECKSUM_POS: nat := MAGIC_NUM_POS + |MAGIC|
  const FILE_NUM_POS: nat := CHECKSUM_POS + INT_SIZE
  const FILE_INFO_POS: nat := FILE_NUM_POS + INT_SIZE

  const U32_LIMIT: nat := 0x1_0000_0000
  const U64_LIMIT: nat := 0x1_0000_0000_0000_0000

  /** The largest name a record can hold: its length plus the terminator
      must fit the one-byte length field. */
  const MAX_NAME: nat := 254

  /** The header fields sit back to back from the start of the file. */
  lemma {:induction false} HeaderLayout()
    ensures MAGIC_NUM_POS == 0 && CHECKSUM_POS == 12 && FILE_NUM_POS == 16 && FILE_INFO_POS == 20
  {
  }

  function Pow256(w: nat): (p: nat)
    ensures p > 0
  {
    if w == 0 then 1 else 256 * Pow256(w - 1)
  }

  /** The `w` bytes an fwrite of the integer `x` stores, least significant
      first; a value too wide for the field keeps its low bytes. */
  function LE(x: nat, w: nat): (s: seq<Byte>)
    ensures |s| == w
  {
    if w == 0 then [] else [(x % 256) as Byte] + LE(x / 256, w - 1)
  }

  /** The integer bytes read least significant first denote. */
  function ValueLE(s: seq<Byte>): (v: nat)
  {
    if s == [] then 0 else s[0] as nat + 256 * ValueLE(s[1..])
  }

  /** Reading back a stored integer gives it back when it fits the field. */
  lemma {:induction false} ValueOfLE(x: nat, w: nat)
    requires x < Pow256(w)
    ensures ValueLE(LE(x, w)) == x
  {
    if w > 0 {
      ValueOfLE(x / 256, w - 1);
      var s := LE(x, w);
      assert s[1..] == LE(x / 256, w - 1);
      NatByte(x % 256);
    }
  }

  /** A value read from `w` bytes fits a field of `w` bytes. */
  lemma {:induction false} ValueLEBound(s: seq<Byte>)
    ensures ValueLE(s) < Pow256(|s|)
  {
    if s != [] {
      ValueLEBound(s[1..]);
    }
  }

  /** Storing what was read gives the same bytes. */
  lemma {:induction false} LEOfValue(s: seq<Byte>)
    ensures LE(ValueLE(s), |s|) == s
  {
    if s != [] {
      LEOfValue(s[1..]);
      DigitOf(s[0], ValueLE(s[1..]));
      assert s == [s[0]] + s[1..];
    }
  }

  lemma {:induction false} DigitOf(b: Byte, rest: nat)
    ensures (b as nat + 256 * rest) % 256 == b as nat
    ensures (b as nat + 256 * rest) / 256 == rest
    ensures ((b as nat + 256 * rest) % 256) as Byte == b
  {
    ByteNat(b);
  }

  /** fread of a `w`-byte integer at `p` into a zeroed variable: the bytes
      the file still holds there, least significant first; missing bytes
      stay zero. */
  function ReadField(s: seq<Byte>, p: nat, w: nat): nat {
    ValueLE(Take(Tail(s, p), w))
  }

  /** The bytes of the file from `p` to its end (none when `p` is past it). */
  function Tail(s: seq<Byte>, p: nat): (t: seq<Byte>)
    ensures |t| == |s| - Min(p, |s|)
  {
    s[Min(p, |s|)..]
  }

  /** What fread of `n` bytes delivers from the remaining bytes `t`: all of
      them, or the first `n`. */
  function Take(t: seq<Byte>, n: nat): (r: seq<Byte>)
    ensures |r| == Min(n, |t|)
  {
    t[..Min(n, |t|)]
  }

  /** One stored file: the record read_header reads back. */
  datatype Entry = Entry(name: seq<Byte>, fileSize: nat, compSize: nat, addTime: nat)

  /** A C string: no zero byte inside. */
  predicate NoZero(name: seq<Byte>) {
    forall i :: 0 <= i < |name| ==> name[i] != 0
  }

  /** What write_file_info can store faithfully: a name whose length and
      terminator fit the length byte, and every number within its field. */
  predicate ValidEntry(e: Entry) {
    && |e.name| <= MAX_NAME && NoZero(e.name)
    && e.fileSize < U32_LIMIT && e.compSize < U32_LIMIT && e.addTime < U64_LIMIT
  }

  predicate AllValid(es: seq<Entry>) {
    forall i :: 0 <= i < |es| ==> ValidEntry(es[i])
  }

  /** The record write_file_info emits: the length byte (strlen + 1), the
      name with its terminator, file size, compressed size and add time. */
  function Record(e: Entry): (r: seq<Byte>)
    requires ValidEntry(e)
    ensures |r| == |e.name| + 2 + 2 * INT_SIZE + TIME_SIZE
  {
    [(|e.name| + 1) as Byte] + e.name + [0]
      + LE(e.fileSize, INT_SIZE) + LE(e.compSize, INT_SIZE) + LE(e.addTime, TIME_SIZE)
  }

  /** write_file_info as written, for any name: the length byte is
      strlen + 1 cut to an unsigned char, and that many bytes of the name
      and its terminator follow. */
  function RecordAsWritten(e: Entry): (r: seq<Byte>)
    requires NoZero(e.name) && e.fileSize < U32_LIMIT && e.compSize < U32_LIMIT && e.addTime < U64_LIMIT
    ensures |r| == 1 + (|e.name| + 1) % 256 + 2 * INT_SIZE + TIME_SIZE
    ensures r[0] == ((|e.name| + 1) % 256) as Byte
  {
    var n := (|e.name| + 1) % 256;
    var name := (e.name + [0])[..n];
    assert |name| == n;
    [n as Byte] + name
      + LE(e.fileSize, INT_SIZE) + LE(e.compSize, INT_SIZE) + LE(e.addTime, TIME_SIZE)
  }

  /** For names of at most MAX_NAME bytes the record as written is the
      record read_header reads back. */
  lemma {:induction false} AsWrittenFits(e: Entry)
    requires ValidEntry(e)
    ensures RecordAsWritten(e) == Record(e)
  {
    var n := |e.name| + 1;
    var field := e.name + [0];
    assert field[..n % 256] == field;
    assert [(n % 256) as Byte] + field[..n % 256] == [n as Byte] + e.name + [0];
  }

  /** A 255-byte name gets length byte 0: none of it is written, and the
      record does not read back as the entry. */
  lemma {:induction false} LongNameLost(e: Entry, rest: seq<Byte>)
    requires |e.name| == 255 && NoZero(e.name)
    requires e.fileSize < U32_LIMIT && e.compSize < U32_LIMIT && e.addTime < U64_LIMIT
    ensures RecordAsWritten(e)[0] == 0 && |RecordAsWritten(e)| == 1 + 2 * INT_SIZE + TIME_SIZE
    ensures ParseRecord(RecordAsWritten(e) + rest) != Some((e, rest))
  {
    var t := RecordAsWritten(e) + rest;
    assert t[0] == 0;
    assert CString(t[1..1]) == [];
  }

  /** The records of `es`, in order. */
  function Records(es: seq<Entry>): (r: seq<Byte>)
    requires AllValid(es)
  {
    if es == [] then [] else Records(es[..|es| - 1]) + Record(es[|es| - 1])
  }

  /** The string a calloc'ed name buffer holds: its bytes up to the first
      zero. */
  function CString(f: seq<Byte>): (name: seq<Byte>)
    ensures |name| <= |f| && NoZero(name)
  {
    if f == [] || f[0] == 0 then [] else [f[0]] + CString(f[1..])
  }

  /** How far skip_file_info moves a file whose remaining bytes are `t`:
      past the length byte it reads and the name, sizes and time that byte
      announces. At the end of the file nothing is read and the length
      stays 0. */
  function SkipLen(t: seq<Byte>): (k: nat)
    ensures k >= 2 * INT_SIZE + TIME_SIZE
  {
    (if |t| > 0 then 1 + t[0] as nat else 0) + 2 * INT_SIZE + TIME_SIZE
  }

  /** read_header's reading of one record from the remaining bytes `t`: the
      entry and the bytes after it. None where the file ends inside the
      record or the name field holds no terminator. */
  function ParseRecord(t: seq<Byte>): (r: Option<(Entry, seq<Byte>)>)
    ensures r.Some? ==> ValidEntry(r.value.0) && SkipLen(t) <= |t| && r.value.1 == t[SkipLen(t)..]
  {
    if |t| == 0 then None
    else
      var q := 1 + t[0] as nat;
      if q + 2 * INT_SIZE + TIME_SIZE > |t| || !Terminated(t[1..q]) then None
      else Some((FieldsAt(t, q), t[q + 16..]))
  }

  /** The entry held by the record fields of `t`, the name field ending at
      `q`. */
  function FieldsAt(t: seq<Byte>, q: nat): (e: Entry)
    requires 0 < |t| && q == 1 + t[0] as nat && q + 16 <= |t| && Terminated(t[1..q])
    ensures ValidEntry(e)
  {
    ParsedValid(t, q);
    Entry(CString(t[1..q]), ValueLE(t[q..q + 4]), ValueLE(t[q + 4..q + 8]), ValueLE(t[q + 8..q + 16]))
  }

  lemma {:induction false} ParsedValid(t: seq<Byte>, q: nat)
    requires 0 < |t| && q == 1 + t[0] as nat && q + 16 <= |t| && Terminated(t[1..q])
    ensures ValidEntry(Entry(CString(t[1..q]), ValueLE(t[q..q + 4]), ValueLE(t[q + 4..q + 8]),
                             ValueLE(t[q + 8..q + 16])))
  {
    ValueLEBound(t[q..q + 4]);
    ValueLEBound(t[q + 4..q + 8]);
    ValueLEBound(t[q + 8..q + 16]);
    Pow256Values();
  }

  /** The name field holds a terminator: the string in it stops before the
      end of the field. */
  predicate Terminated(field: seq<Byte>) {
    |CString(field)| < |field|
  }

  /** A string followed by its terminator reads back as itself. */
  lemma {:induction false} CStringOf(name: seq<Byte>, rest: seq<Byte>)
    requires NoZero(name)
    ensures CString(name + [0] + rest) == name
  {
    if name != [] {
      assert (name + [0] + rest)[1..] == name[1..] + [0] + rest;
      CStringOf(name[1..], rest);
    }
  }

  /** read_header reads back what write_file_info wrote, whatever follows
      it, and skip_file_info skips exactly the record. */
  lemma {:induction false} RecordAt(e: Entry, rest: seq<Byte>)
    requires ValidEntry(e)
    ensures ParseRecord(Record(e) + rest) == Some((e, rest))
    ensures SkipLen(Record(e) + rest) == |Record(e)|
  {
    var t := Record(e) + rest;
    FieldsOf(e, rest);
    ParseRecordOf(t, e);
    assert t[|e.name| + 18..] == rest;
  }

  /** The fields of a record, with anything after it. */
  lemma {:induction false} FieldsOf(e: Entry, rest: seq<Byte>)
    requires ValidEntry(e)
    ensures var t := Record(e) + rest; var q := 2 + |e.name|;
      && |e.name| + 18 <= |t| && t[0] as nat == |e.name| + 1
      && t[1..q] == e.name + [0]
      && ValueLE(t[q..q + 4]) == e.fileSize && ValueLE(t[q + 4..q + 8]) == e.compSize
      && ValueLE(t[q + 8..q + 16]) == e.addTime
  {
    var t := Record(e) + rest;
    var r := Record(e);
    var n := |e.name| + 1;
    RecordFields(e);
    assert t[0] == r[0];
    Front(r, rest, 1, n + 1);
    Front(r, rest, n + 1, n + 5);
    Front(r, rest, n + 5, n + 9);
    Front(r, rest, n + 9, n + 17);
  }

  /** A window of the front part of a concatenation. */
  lemma {:induction false} Front(r: seq<Byte>, rest: seq<Byte>, a: nat, b: nat)
    requires a <= b <= |r|
    ensures (r + rest)[a..b] == r[a..b]
  {
  }

  /** A record whose fields hold `e` parses as `e`. */
  lemma {:induction false} ParseRecordOf(t: seq<Byte>, e: Entry)
    requires ValidEntry(e)
    requires |e.name| + 18 <= |t| && t[0] as nat == |e.name| + 1
    requires var q := 2 + |e.name|;
      && t[1..q] == e.name + [0]
      && ValueLE(t[q..q + 4]) == e.fileSize && ValueLE(t[q + 4..q + 8]) == e.compSize
      && ValueLE(t[q + 8..q + 16]) == e.addTime
    ensures ParseRecord(t) == Some((e, t[|e.name| + 18..]))
    ensures SkipLen(t) == |e.name| + 18
  {
    var q := 2 + |e.name|;
    TerminatedName(t[1..q], e.name);
    assert FieldsAt(t, q) == e;
  }

  /** A name field holding the name and its terminator. */
  lemma {:induction false} TerminatedName(field: seq<Byte>, name: seq<Byte>)
    requires field == name + [0] && NoZero(name)
    ensures Terminated(field) && CString(field) == name
  {
    CStringOf(name, []);
    assert name + [0] + [] == field;
  }

  /** The fields of a record, where read_header looks for them. */
  lemma {:induction false} RecordFields(e: Entry)
    requires ValidEntry(e)
    ensures var r := Record(e); var n := |e.name| + 1;
      && r[0] as nat == n && r[1..n + 1] == e.name + [0]
      && ValueLE(r[n + 1..n + 5]) == e.fileSize && ValueLE(r[n + 5..n + 9]) == e.compSize
      && ValueLE(r[n + 9..n + 17]) == e.addTime
  {
    var r := Record(e);
    var n := |e.name| + 1;
    NatByte(n);
    assert r[1..n + 1] == e.name + [0];
    assert r[n + 1..n + 5] == LE(e.fileSize, 4);
    assert r[n + 5..n + 9] == LE(e.compSize, 4);
    assert r[n + 9..n + 17] == LE(e.addTime, 8);
    Pow256Values();
    ValueOfLE(e.fileSize, 4);
    ValueOfLE(e.compSize, 4);
    ValueOfLE(e.addTime, 8);
  }

  lemma {:induction false} Pow256Values()
    ensures Pow256(4) == U32_LIMIT && Pow256(8) == U64_LIMIT
  {
    assert Pow256(2) == 65536;
    assert Pow256(4) == 65536 * 65536;
    assert Pow256(6) == 65536 * 65536 * 65536;
  }

  /** read_header's loop: the first `n` records of `t`, with the bytes after
      them, which are a suffix of `t`. */
  function ParseRecords(t: seq<Byte>, n: nat): (r: Option<(seq<Entry>, seq<Byte>)>)
    ensures r.Some? ==> |r.value.0| == n && AllValid(r.value.0)
    ensures r.Some? ==> |r.value.1| <= |t| && r.value.1 == t[|t| - |r.value.1|..]
    ensures r.Some? ==> SkipBytes(t, n) == |t| - |r.value.1|
  {
    if n == 0 then Some(([], t))
    else
      var prev := ParseRecords(t, n - 1);
      if prev.None? then None
      else
        var next := ParseRecord(prev.value.1);
        if next.None? then None
        else
          RecordsGrow(t, n, prev.value.0, prev.value.1, next.value.0, next.value.1);
          Some((prev.value.0 + [next.value.0], next.value.1))
  }

  /** Once read_header's loop has failed it stays failed. */
  lemma {:induction false} RecordsFail(t: seq<Byte>, i: nat, n: nat)
    requires i <= n && ParseRecords(t, i).None?
    ensures ParseRecords(t, n).None?
    decreases n - i
  {
    if i < n {
      RecordsFailStep(t, i);
      RecordsFail(t, i + 1, n);
    }
  }

  /** One more record read after `i` of them. */
  lemma {:induction false} ReadOneMore(t: seq<Byte>, i: nat, es: seq<Entry>, u: seq<Byte>)
    requires ParseRecords(t, i) == Some((es, u))
    ensures ParseRecord(u).None? ==> ParseRecords(t, i + 1).None?
    ensures ParseRecord(u).Some? ==>
      ParseRecords(t, i + 1) == Some((es + [ParseRecord(u).value.0], ParseRecord(u).value.1))
  {
  }

  lemma {:induction false} RecordsFailStep(t: seq<Byte>, m: nat)
    requires ParseRecords(t, m).None?
    ensures ParseRecords(t, m + 1).None?
  {
  }

  /** One record read from the suffix `u` of `t` that follows `n - 1`
      records leaves a shorter suffix `v`, at the offset `n` records take. */
  lemma {:induction false} RecordsGrow(t: seq<Byte>, n: nat, es: seq<Entry>, u: seq<Byte>, e: Entry, v: seq<Byte>)
    requires n > 0 && |es| == n - 1 && AllValid(es) && ValidEntry(e)
    requires |u| <= |t| && u == t[|t| - |u|..] && SkipBytes(t, n - 1) == |t| - |u|
    requires SkipLen(u) <= |u| && v == u[SkipLen(u)..]
    ensures |es + [e]| == n && AllValid(es + [e])
    ensures |v| <= |t| && v == t[|t| - |v|..]
    ensures SkipBytes(t, n) == |t| - |v|
  {
    assert Tail(t, |t| - |u|) == u;
  }

  /** The records of `es`, written one after the other, read back as `es`,
      leaving exactly the bytes that follow them. */
  lemma {:induction false} RecordsAt(es: seq<Entry>, rest: seq<Byte>)
    requires AllValid(es)
    ensures ParseRecords(Records(es) + rest, |es|) == Some((es, rest))
    decreases |es|
  {
    if es == [] {
      assert Records(es) + rest == rest;
    } else {
      var front := es[..|es| - 1];
      var last := es[|es| - 1];
      RecordsSnoc(es);
      assert Records(es) + rest == Records(front) + (Record(last) + rest);
      RecordsAt(front, Record(last) + rest);
      RecordAt(last, rest);
      RecordsStep(Records(es) + rest, es, Record(last) + rest, rest);
    }
  }

  /** One more iteration of read_header's loop. */
  lemma {:induction false} RecordsStep(t: seq<Byte>, es: seq<Entry>, u: seq<Byte>, v: seq<Byte>)
    requires es != [] && ParseRecords(t, |es| - 1) == Some((es[..|es| - 1], u))
    requires ParseRecord(u) == Some((es[|es| - 1], v))
    ensures ParseRecords(t, |es|) == Some((es, v))
  {
    EntriesSnoc(es);
  }

  /** The records of a sequence are those of all but its last entry, then
      the last one's. */
  lemma {:induction false} RecordsSnoc(es: seq<Entry>)
    requires AllValid(es) && es != []
    ensures AllValid(es[..|es| - 1])
    ensures Records(es) == Records(es[..|es| - 1]) + Record(es[|es| - 1])
  {
  }

  /** A nonempty sequence is its front and then its last element (kept
      apart from facts about bytes, which it slows down). */
  lemma {:induction false} EntriesSnoc(es: seq<Entry>)
    requires es != []
    ensures es[..|es| - 1] + [es[|es| - 1]] == es
  {
  }

  /** How far skip_header's loop moves a file whose remaining bytes are
      `t` once skip_file_info has run `n` times. */
  function SkipBytes(t: seq<Byte>, n: nat): nat {
    if n == 0 then 0
    else
      var k := SkipBytes(t, n - 1);
      k + SkipLen(Tail(t, k))
  }

  /** What read_header delivers: the stored checksum, the records and the
      offset where the data blocks begin. */
  datatype Header = Header(checksum: nat, entries: seq<Entry>, dataStart: nat)

  /** read_header on the archive bytes: the checksum at CHECKSUM_POS, the
      count at FILE_NUM_POS, both zero-filled where the file ends first,
      then that many records from FILE_INFO_POS; None when the file is too
      short for them. A file that ends before FILE_INFO_POS with a count of
      0 has an empty header, its data starting at its end. */
  function ParseHeader(s: seq<Byte>): (h: Option<Header>)
    ensures h.Some? ==> AllValid(h.value.entries) && Min(FILE_INFO_POS, |s|) <= h.value.dataStart <= |s|
    ensures h.Some? ==> |h.value.entries| == ReadField(s, FILE_NUM_POS, INT_SIZE)
    ensures h.Some? ==> h.value.dataStart
                        == Min(FILE_INFO_POS, |s|) + SkipBytes(Tail(s, FILE_INFO_POS), ReadField(s, FILE_NUM_POS, INT_SIZE))
    ensures |s| < FILE_INFO_POS ==> (h.Some? <==> ReadField(s, FILE_NUM_POS, INT_SIZE) == 0)
  {
    if |s| < FILE_INFO_POS then
      if ReadField(s, FILE_NUM_POS, INT_SIZE) == 0
      then Some(Header(ReadField(s, CHECKSUM_POS, INT_SIZE), [], |s|))
      else None
    else match ParseRecords(s[FILE_INFO_POS..], ReadField(s, FILE_NUM_POS, INT_SIZE))
      case None => None
      case Some((es, rest)) => Some(Header(ReadField(s, CHECKSUM_POS, INT_SIZE), es, |s| - |rest|))
  }

  /** An archive laid out as the fixed fields, the records of `es` with
      their number in the count field, then any data, reads back as `es`,
      with the data starting right after the records. */
  lemma {:induction false} HeaderAt(s: seq<Byte>, es: seq<Entry>, data: seq<Byte>)
    requires AllValid(es) && |s| >= FILE_INFO_POS && s[FILE_INFO_POS..] == Records(es) + data
    requires ReadField(s, FILE_NUM_POS, INT_SIZE) == |es|
    ensures ParseHeader(s).Some?
    ensures ParseHeader(s).value.entries == es
    ensures ParseHeader(s).value.dataStart == FILE_INFO_POS + |Records(es)|
  {
    RecordsAt(es, data);
    HeaderOf(s, es, data);
    assert |s[FILE_INFO_POS..]| == |Records(es)| + |data|;
  }

  /** read_header fails when its loop does. */
  lemma {:induction false} HeaderFails(s: seq<Byte>)
    requires |s| >= FILE_INFO_POS
    requires ParseRecords(s[FILE_INFO_POS..], ReadField(s, FILE_NUM_POS, INT_SIZE)).None?
    ensures ParseHeader(s).None?
  {
  }

  /** read_header's result once its loop has read `es`, leaving `rest`. */
  lemma {:induction false} HeaderOf(s: seq<Byte>, es: seq<Entry>, rest: seq<Byte>)
    requires |s| >= FILE_INFO_POS
    requires ParseRecords(s[FILE_INFO_POS..], ReadField(s, FILE_NUM_POS, INT_SIZE)) == Some((es, rest))
    ensures ParseHeader(s) == Some(Header(ReadField(s, CHECKSUM_POS, INT_SIZE), es, |s| - |rest|))
  {
    var c := ReadField(s, CHECKSUM_POS, INT_SIZE);
    assert ParseHeader(s) == Some(Header(c, es, |s| - |rest|));
  }

  /** The checksum check_archive_checksum and refresh_checksum compute: the
      CRC of everything from the count field to the end of the file. */
  function Crc(s: seq<Byte>): (c: nat)
    ensures c < U32_LIMIT
  {
    Fold(Table(), 0, Tail(s, FILE_NUM_POS)) as nat
  }

  /** check_magic_num: the file starts with the signature. */
  predicate HasMagic(s: seq<Byte>) {
    |s| >= |MAGIC| && s[..|MAGIC|] == MAGIC
  }

  /** check_archive_checksum: the stored checksum is the recomputed one. */
  predicate ChecksumOk(s: seq<Byte>) {
    ReadField(s, CHECKSUM_POS, INT_SIZE) == Crc(s)
  }

  /** The archive an operation leaves once it has written the count and the
      body after it and refreshed the checksum. */
  function Sealed(body: seq<Byte>): (s: seq<Byte>) {
    var crc := Fold(Table(), 0, body) as nat;
    MAGIC + LE(crc, INT_SIZE) + body
  }

  /** Whatever body an operation writes, the result passes both checks
      choice_menu makes before it runs an operation. */
  lemma {:induction false} SealedChecks(body: seq<Byte>)
    ensures HasMagic(Sealed(body)) && ChecksumOk(Sealed(body))
    ensures Tail(Sealed(body), FILE_NUM_POS) == body
  {
    var s := Sealed(body);
    var crc := Fold(Table(), 0, body) as nat;
    assert s[..12] == MAGIC;
    assert Take(Tail(s, 12), 4) == LE(crc, 4);
    assert Tail(s, 16) == body;
    ValueOfLE(crc, 4);
  }

  /** The count field of a sealed body is the number the body starts
      with. */
  /** A count followed by two parts, sealed: the signature and the checksum
      check, and the count reads back. */
  lemma {:induction false} SealedHead(x: nat, a: seq<Byte>, b: seq<Byte>)
    requires x < U32_LIMIT
    ensures var r := Sealed(LE(x, INT_SIZE) + a + b);
      HasMagic(r) && ChecksumOk(r) && ReadField(r, FILE_NUM_POS, INT_SIZE) == x
  {
    assert LE(x, INT_SIZE) + a + b == LE(x, INT_SIZE) + (a + b);
    SealedChecks(LE(x, INT_SIZE) + (a + b));
    SealedCount(x, a + b);
  }

  lemma {:induction false} SealedCount(x: nat, rest: seq<Byte>)
    requires x < U32_LIMIT
    ensures ReadField(Sealed(LE(x, INT_SIZE) + rest), FILE_NUM_POS, INT_SIZE) == x
  {
    var body := LE(x, INT_SIZE) + rest;
    SealedChecks(body);
    assert Take(body, INT_SIZE) == LE(x, INT_SIZE);
    Pow256Values();
    ValueOfLE(x, INT_SIZE);
  }

  /** The archive create_archive writes: signature, checksum, count 0; it
      passes both checks of choice_menu. */
  function Created(): (s: seq<Byte>)
    ensures |s| == FILE_INFO_POS && HasMagic(s) && ChecksumOk(s)
    ensures ReadField(s, FILE_NUM_POS, INT_SIZE) == 0
  {
    SealedChecks(LE(0, INT_SIZE));
    SealedCount(0, []);
    assert LE(0, INT_SIZE) + [] == LE(0, INT_SIZE);
    Sealed(LE(0, INT_SIZE))
  }

  /** The sum of the compressed sizes of `es`. */
  function CompTotal(es: seq<Entry>): nat {
    if es == [] then 0 else CompTotal(es[..|es| - 1]) + es[|es| - 1].compSize
  }

  /** Where entry i's data block starts: past the header and every earlier
      block, whether or not those were selected. */
  function BlockStart(h: Header, i: nat): nat
    requires i <= |h.entries|
  {
    h.dataStart + CompTotal(h.entries[..i])
  }

  /** The bytes file_copy_block copies for entry i: its compressed size from
      its start, fewer where the file ends. */
  function Block(s: seq<Byte>, h: Header, i: nat): seq<Byte>
    requires i < |h.entries|
  {
    Take(Tail(s, BlockStart(h, i)), h.entries[i].compSize)
  }

  /** Each block starts where the one before ends. */
  lemma {:induction false} BlockStartStep(h: Header, i: nat)
    requires i < |h.entries|
    ensures BlockStart(h, i + 1) == BlockStart(h, i) + h.entries[i].compSize
  {
    assert h.entries[..i + 1][..i] == h.entries[..i];
  }
}
