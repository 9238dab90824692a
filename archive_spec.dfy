/** The archive as archiver.c builds it: the stored files' records and
    their compressed blocks, and the bytes they are laid out as. The
    operations of archiver.c are stated here on bytes (what a sequence of
    positioned writes leaves in the file) and then related to the abstract
    archive: on an archive the program wrote, append adds records and
    blocks at the end, remove filters them, and each block decodes to the
    file it was made from. */
module ArchiveSpec {
  import opened Bytes
  import opened Checksum
  import opened BinaryBuffer
  import opened HuffmanTypes
  import opened CodingSpec
  import opened HuffmanCoding
  import opened ArchiveFormat

  // ---------------------------------------------------------------------
  // Positioned writes
  // ---------------------------------------------------------------------

  /** The file after fwrite of `c` at position `p`: `c` replaces the bytes
      there, the file grows when `c` reaches past its end, and a gap
      between the old end and `p` reads as zeros; writing nothing leaves
      the file as it is. */
  function Patch(s: seq<Byte>, p: nat, c: seq<Byte>): (r: seq<Byte>)
    ensures |r| == if |c| == 0 || p + |c| <= |s| then |s| else p + |c|
    ensures forall i :: 0 <= i < |c| ==> r[p + i] == c[i]
    ensures forall i :: 0 <= i < |r| && !(p <= i < p + |c|) ==> r[i] == (if i < |s| then s[i] else 0)
  {
    var n := if |c| == 0 || p + |c| <= |s| then |s| else p + |c|;
    seq(n, i requires 0 <= i < n => if p <= i < p + |c| then c[i - p] else if i < |s| then s[i] else 0)
  }

  /** Writing at the end of a file appends. */
  lemma {:induction false} PatchEnd(s: seq<Byte>, c: seq<Byte>)
    ensures Patch(s, |s|, c) == s + c
  {
    var r := Patch(s, |s|, c);
    assert forall i :: 0 <= i < |r| ==> r[i] == (s + c)[i];
  }

  /** Two writes back to back are one write of both chunks. */
  lemma {:induction false} PatchThen(s: seq<Byte>, p: nat, a: seq<Byte>, b: seq<Byte>)
    ensures Patch(Patch(s, p, a), p + |a|, b) == Patch(s, p, a + b)
  {
    var r := Patch(Patch(s, p, a), p + |a|, b);
    var q := Patch(s, p, a + b);
    assert |r| == |q|;
    forall i | 0 <= i < |r|
      ensures r[i] == q[i]
    {
      if p <= i < p + |a| {
        assert q[i] == (a + b)[i - p];
      } else if p + |a| <= i < p + |a| + |b| {
        assert q[i] == (a + b)[i - p];
      }
    }
  }

  /** A write over a field of a file laid out as `pre + x + rest`, with a
      chunk as long as the field, replaces just that field. */
  lemma {:induction false} PatchField(pre: seq<Byte>, x: seq<Byte>, rest: seq<Byte>, c: seq<Byte>)
    requires |c| == |x|
    ensures Patch(pre + x + rest, |pre|, c) == pre + c + rest
  {
    var r := Patch(pre + x + rest, |pre|, c);
    assert forall i :: 0 <= i < |r| ==> r[i] == (pre + c + rest)[i];
  }

  /** refresh_checksum: the CRC of the bytes from FILE_NUM_POS on, written
      at CHECKSUM_POS. On a file holding the checksum field, everything
      else stays and the checksum then checks. */
  function Refreshed(s: seq<Byte>): (r: seq<Byte>)
    ensures |s| >= FILE_NUM_POS ==>
      && |r| == |s| && r[..CHECKSUM_POS] == s[..CHECKSUM_POS]
      && Tail(r, FILE_NUM_POS) == Tail(s, FILE_NUM_POS) && ChecksumOk(r)
  {
    var r := Patch(s, CHECKSUM_POS, LE(Crc(s), INT_SIZE));
    RefreshedFields(s, r);
    r
  }

  lemma {:induction false} RefreshedFields(s: seq<Byte>, r: seq<Byte>)
    requires r == Patch(s, CHECKSUM_POS, LE(Crc(s), INT_SIZE))
    ensures |s| >= FILE_NUM_POS ==>
      && |r| == |s| && r[..CHECKSUM_POS] == s[..CHECKSUM_POS]
      && Tail(r, FILE_NUM_POS) == Tail(s, FILE_NUM_POS) && ChecksumOk(r)
  {
    if |s| >= FILE_NUM_POS {
      assert r[..CHECKSUM_POS] == s[..CHECKSUM_POS];
      assert Tail(r, FILE_NUM_POS) == Tail(s, FILE_NUM_POS);
      assert Take(Tail(r, CHECKSUM_POS), INT_SIZE) == LE(Crc(s), INT_SIZE);
      Pow256Values();
      ValueOfLE(Crc(s), INT_SIZE);
    }
  }

  /** write_num_of_files: the count, as an `unsigned`, at FILE_NUM_POS. On
      a file holding the fields before it, the count reads back mod 2^32
      and every other byte stays. */
  function WithCount(s: seq<Byte>, n: nat): (r: seq<Byte>)
    ensures |s| >= FILE_NUM_POS ==>
      && |r| >= |s| && r[..FILE_NUM_POS] == s[..FILE_NUM_POS]
      && ReadField(r, FILE_NUM_POS, INT_SIZE) == n % U32_LIMIT
      && Tail(r, FILE_INFO_POS) == Tail(s, FILE_INFO_POS)
  {
    var r := Patch(s, FILE_NUM_POS, LE(n % U32_LIMIT, INT_SIZE));
    CountFields(s, n, r);
    r
  }

  lemma {:induction false} CountFields(s: seq<Byte>, n: nat, r: seq<Byte>)
    requires r == Patch(s, FILE_NUM_POS, LE(n % U32_LIMIT, INT_SIZE))
    ensures |s| >= FILE_NUM_POS ==>
      && |r| >= |s| && r[..FILE_NUM_POS] == s[..FILE_NUM_POS]
      && ReadField(r, FILE_NUM_POS, INT_SIZE) == n % U32_LIMIT
      && Tail(r, FILE_INFO_POS) == Tail(s, FILE_INFO_POS)
  {
    if |s| >= FILE_NUM_POS {
      assert r[..FILE_NUM_POS] == s[..FILE_NUM_POS];
      assert Tail(r, FILE_INFO_POS) == Tail(s, FILE_INFO_POS);
      assert Take(Tail(r, FILE_NUM_POS), INT_SIZE) == LE(n % U32_LIMIT, INT_SIZE);
      Pow256Values();
      ValueOfLE(n % U32_LIMIT, INT_SIZE);
    }
  }

  /** Refreshing the checksum of a file that starts with the signature and
      four bytes seals the rest. */
  lemma {:induction false} RefreshSeals(s: seq<Byte>, x: seq<Byte>, body: seq<Byte>)
    requires |x| == INT_SIZE && s == MAGIC + x + body
    ensures Refreshed(s) == Sealed(body)
  {
    assert Tail(s, FILE_NUM_POS) == body;
    PatchField(MAGIC, x, body, LE(Crc(s), INT_SIZE));
  }

  /** Setting the count of a file laid out as signature, checksum, count
      and body. */
  lemma {:induction false} CountField(s: seq<Byte>, c: seq<Byte>, x: seq<Byte>, body: seq<Byte>, n: nat)
    requires |c| == INT_SIZE && |x| == INT_SIZE && s == MAGIC + c + (x + body)
    ensures WithCount(s, n) == MAGIC + c + (LE(n % U32_LIMIT, INT_SIZE) + body)
  {
    var y, pre := LE(n % U32_LIMIT, INT_SIZE), MAGIC + c;
    assert s == pre + x + body && |pre| == FILE_NUM_POS;
    PatchField(pre, x, body, y);
    assert WithCount(s, n) == Patch(s, FILE_NUM_POS, y);
    assert pre + (y + body) == pre + y + body;
  }

  /** A write from `|pre|` that covers the rest of a file `pre + prev`
      replaces it. */
  lemma {:induction false} PatchOver(pre: seq<Byte>, prev: seq<Byte>, c: seq<Byte>)
    requires |prev| <= |c|
    ensures Patch(pre + prev, |pre|, c) == pre + c
  {
    var r := Patch(pre + prev, |pre|, c);
    assert forall i :: 0 <= i < |r| ==> r[i] == (pre + c)[i];
  }

  // ---------------------------------------------------------------------
  // The archive and its image
  // ---------------------------------------------------------------------

  /** The stored files: one record and one compressed block each, in
      order. */
  datatype Archive = Archive(entries: seq<Entry>, blocks: seq<seq<Byte>>)

  /** Every record fits its fields, the count fits its field, and each block
      is as long as its record says. */
  predicate Consistent(a: Archive) {
    && AllValid(a.entries) && |a.entries| < U32_LIMIT && |a.blocks| == |a.entries|
    && forall i :: 0 <= i < |a.blocks| ==> |a.blocks[i]| == a.entries[i].compSize
  }

  /** The blocks one after the other. */
  function Data(bs: seq<seq<Byte>>): seq<Byte> {
    if bs == [] then [] else Data(bs[..|bs| - 1]) + bs[|bs| - 1]
  }

  /** The bytes of an archive: signature, checksum, count, records, then
      the blocks. */
  function Image(a: Archive): (s: seq<Byte>)
    requires Consistent(a)
  {
    Sealed(Body(a))
  }

  /** The blocks of `xs + ys` are those of `xs`, then those of `ys`. */
  lemma {:induction false} DataAppend(xs: seq<seq<Byte>>, ys: seq<seq<Byte>>)
    ensures Data(xs + ys) == Data(xs) + Data(ys)
    decreases |ys|
  {
    if ys == [] {
      assert xs + ys == xs;
    } else {
      var front := ys[..|ys| - 1];
      assert (xs + ys)[..|xs + ys| - 1] == xs + front;
      DataAppend(xs, front);
    }
  }

  /** The records of `xs + ys` are those of `xs`, then those of `ys`. */
  lemma {:induction false} RecordsAppend(xs: seq<Entry>, ys: seq<Entry>)
    requires AllValid(xs) && AllValid(ys)
    ensures AllValid(xs + ys) && Records(xs + ys) == Records(xs) + Records(ys)
    decreases |ys|
  {
    if ys == [] {
      assert xs + ys == xs;
    } else {
      var front := ys[..|ys| - 1];
      var last := ys[|ys| - 1];
      SnocOfAppend(xs, ys);
      RecordsAppend(xs, front);
      RecordsSnoc(ys);
      RecordsSnoc(xs + ys);
      Assoc(Records(xs), Records(front), Record(last));
    }
  }

  /** The front and last element of `xs + ys`, for a nonempty `ys`. */
  lemma {:induction false} SnocOfAppend(xs: seq<Entry>, ys: seq<Entry>)
    requires ys != [] && AllValid(xs) && AllValid(ys)
    ensures AllValid(xs + ys) && AllValid(ys[..|ys| - 1])
    ensures (xs + ys)[..|xs + ys| - 1] == xs + ys[..|ys| - 1]
    ensures (xs + ys)[|xs + ys| - 1] == ys[|ys| - 1]
  {
  }

  /** The blocks of the first `i` entries take up their compressed sizes. */
  lemma {:induction false} DataLength(a: Archive, i: nat)
    requires Consistent(a) && i <= |a.entries|
    ensures |Data(a.blocks[..i])| == CompTotal(a.entries[..i])
  {
    if i > 0 {
      DataLength(a, i - 1);
      assert a.blocks[..i][..i - 1] == a.blocks[..i - 1];
      assert a.entries[..i][..i - 1] == a.entries[..i - 1];
    }
  }

  /** An archive the program wrote passes both checks choice_menu makes,
      read_header reads back its records, and its data runs to the end of
      the file. */
  lemma {:induction false} ImageHeader(a: Archive)
    requires Consistent(a)
    ensures var s := Image(a); var h := ParseHeader(s);
      && HasMagic(s) && ChecksumOk(s) && h.Some? && h.value.entries == a.entries
      && h.value.dataStart == FILE_INFO_POS + |Records(a.entries)|
      && h.value.dataStart + CompTotal(a.entries) == |s|
  {
    var s := Image(a);
    var body := Body(a);
    SealedChecks(body);
    ImageBytes(a);
    CountOf(s, body, |a.entries|);
    HeaderAt(s, a.entries, Data(a.blocks));
    DataTotal(a);
  }

  /** What follows the checksum in an archive's image. */
  function Body(a: Archive): seq<Byte>
    requires Consistent(a)
  {
    LE(|a.entries|, INT_SIZE) + Records(a.entries) + Data(a.blocks)
  }

  lemma {:induction false} ImageBytes(a: Archive)
    requires Consistent(a)
    ensures var s := Image(a);
      && |s| == FILE_INFO_POS + |Records(a.entries)| + |Data(a.blocks)|
      && Tail(s, FILE_NUM_POS) == Body(a) && Body(a)[..INT_SIZE] == LE(|a.entries|, INT_SIZE)
      && s[FILE_INFO_POS..] == Records(a.entries) + Data(a.blocks)
  {
    var crc := LE(Fold(Table(), 0, Body(a)) as nat, INT_SIZE);
    Layout(MAGIC, crc, LE(|a.entries|, INT_SIZE), Records(a.entries), Data(a.blocks));
  }

  /** Where the parts of signature, checksum, count, records and data
      sit. */
  lemma {:induction false} Layout(m: seq<Byte>, c: seq<Byte>, x: seq<Byte>, r: seq<Byte>, d: seq<Byte>)
    requires |m| == |MAGIC| && |c| == INT_SIZE && |x| == INT_SIZE
    ensures var s := m + c + (x + r + d);
      && |s| == FILE_INFO_POS + |r| + |d| && Tail(s, FILE_NUM_POS) == x + r + d
      && (x + r + d)[..INT_SIZE] == x && s[FILE_INFO_POS..] == r + d && Tail(s, FILE_INFO_POS + |r|) == d
  {
    var s := m + c + (x + r + d);
    assert s[FILE_NUM_POS..] == x + r + d;
  }

  /** The blocks take up the compressed sizes of all records. */
  lemma {:induction false} DataTotal(a: Archive)
    requires Consistent(a)
    ensures |Data(a.blocks)| == CompTotal(a.entries)
  {
    DataLength(a, |a.entries|);
    assert a.blocks[..|a.entries|] == a.blocks;
    assert a.entries[..|a.entries|] == a.entries;
  }

  /** The count field of a sealed body that starts with the count. */
  lemma {:induction false} CountOf(s: seq<Byte>, body: seq<Byte>, n: nat)
    requires n < U32_LIMIT && |body| >= INT_SIZE && body[..INT_SIZE] == LE(n, INT_SIZE)
    requires |s| >= FILE_NUM_POS && Tail(s, FILE_NUM_POS) == body
    ensures ReadField(s, FILE_NUM_POS, INT_SIZE) == n
  {
    Pow256Values();
    ValueOfLE(n, INT_SIZE);
  }

  /** Block i of an archive the program wrote is where the running sum of
      the earlier compressed sizes puts it, and holds exactly the i-th
      block. */
  lemma {:induction false} ImageBlock(a: Archive, i: nat)
    requires Consistent(a) && i < |a.entries|
    ensures ParseHeader(Image(a)).Some? && ParseHeader(Image(a)).value.entries == a.entries
    ensures var s := Image(a); var p := BlockStart(ParseHeader(s).value, i);
      p + |a.blocks[i]| <= |s|
    ensures Block(Image(a), ParseHeader(Image(a)).value, i) == a.blocks[i]
  {
    var s := Image(a);
    ImageHeader(a);
    ImageBytes(a);
    var h := ParseHeader(s).value;
    SplitAt(s, FILE_INFO_POS, Records(a.entries), Data(a.blocks));
    DataSplit(a.blocks, i);
    DataLength(a, i);
    var p := BlockStart(h, i);
    assert p == h.dataStart + |Data(a.blocks[..i])|;
    BlockAt(s, h.dataStart, Data(a.blocks), Data(a.blocks[..i]), a.blocks[i], Data(a.blocks[i + 1..]), p);
    assert h.entries[i].compSize == |a.blocks[i]|;
  }

  /** A block inside the data of a file. */
  lemma {:induction false} BlockAt(s: seq<Byte>, ds: nat, d: seq<Byte>, before: seq<Byte>, blk: seq<Byte>, after: seq<Byte>, p: nat)
    requires ds <= |s| && s == s[..ds] + d && d == before + blk + after && p == ds + |before|
    ensures p + |blk| <= |s| && Take(Tail(s, p), |blk|) == blk
  {
    Middle(s[..ds] + before, blk, after);
  }

  /** A file whose bytes from `k` are `r + d` is its bytes up to the end
      of `r`, then `d`. */
  lemma {:induction false} SplitAt(s: seq<Byte>, k: nat, r: seq<Byte>, d: seq<Byte>)
    requires k <= |s| && s[k..] == r + d
    ensures k + |r| <= |s| && s == s[..k + |r|] + d
  {
    assert s == s[..k] + s[k..];
  }

  /** The blocks split around block i. */
  lemma {:induction false} DataSplit(bs: seq<seq<Byte>>, i: nat)
    requires i < |bs|
    ensures Data(bs) == Data(bs[..i]) + bs[i] + Data(bs[i + 1..])
  {
    PrefixSplit(bs, i + 1);
    DataAppend(bs[..i + 1], bs[i + 1..]);
    DataSnoc(bs, i);
  }

  lemma {:induction false} PrefixSplit(bs: seq<seq<Byte>>, k: nat)
    requires k <= |bs|
    ensures bs[..k] + bs[k..] == bs
  {
  }

  /** The blocks up to and including block k. */
  lemma {:induction false} DataSnoc(bs: seq<seq<Byte>>, k: nat)
    requires k < |bs|
    ensures Data(bs[..k + 1]) == Data(bs[..k]) + bs[k]
  {
    assert bs[..k + 1][..k] == bs[..k];
  }

  /** The middle part of a file laid out as three parts. */
  lemma {:induction false} Middle(pre: seq<Byte>, mid: seq<Byte>, rest: seq<Byte>)
    ensures var s := pre + mid + rest;
      s[|pre|..|pre| + |mid|] == mid && Take(Tail(s, |pre|), |mid|) == mid
  {
    var s := pre + mid + rest;
    assert Tail(s, |pre|) == mid + rest;
  }

  // ---------------------------------------------------------------------
  // Append
  // ---------------------------------------------------------------------

  /** Where skip_header leaves the archive: past the count field's number
      of records. */
  function HeaderEnd(s: seq<Byte>): (e: nat)
    ensures e >= FILE_INFO_POS
    ensures |s| >= FILE_INFO_POS && ParseHeader(s).Some? ==> e == ParseHeader(s).value.dataStart
  {
    FILE_INFO_POS + SkipBytes(Tail(s, FILE_INFO_POS), ReadField(s, FILE_NUM_POS, INT_SIZE))
  }

  /** What append_to_archive leaves in the archive `s` when it writes the
      records `recs` of `cnt` new files and their compressed blocks
      `newData`: the records go where the header ends, followed by the copy
      of the old data and the new blocks; then the count read back from the
      file is raised by `cnt`, as an `unsigned`, and the checksum
      refreshed. */
  function AppendedBytes(s: seq<Byte>, recs: seq<Byte>, cnt: nat, newData: seq<Byte>): (r: seq<Byte>)
    ensures |s| >= FILE_INFO_POS && HasMagic(s) ==>
      && HasMagic(r) && ChecksumOk(r)
      && ReadField(r, FILE_NUM_POS, INT_SIZE) == (ReadField(s, FILE_NUM_POS, INT_SIZE) + cnt) % U32_LIMIT
  {
    AppendedFields(s, recs, cnt, newData);
    Recounted(Grown(s, recs, newData), cnt)
  }

  lemma {:induction false} AppendedFields(s: seq<Byte>, recs: seq<Byte>, cnt: nat, newData: seq<Byte>)
    ensures |s| >= FILE_INFO_POS && HasMagic(s) ==>
      var r := Recounted(Grown(s, recs, newData), cnt);
      && HasMagic(r) && ChecksumOk(r)
      && ReadField(r, FILE_NUM_POS, INT_SIZE) == (ReadField(s, FILE_NUM_POS, INT_SIZE) + cnt) % U32_LIMIT
  {
    if |s| >= FILE_INFO_POS && HasMagic(s) {
      GrownHead(s, recs, newData);
      RecountedKeeps(s, Grown(s, recs, newData), cnt);
    }
  }

  /** Recounting a file that starts like `s` keeps the signature. */
  lemma {:induction false} RecountedKeeps(s: seq<Byte>, g: seq<Byte>, cnt: nat)
    requires |s| >= FILE_INFO_POS && HasMagic(s)
    requires |g| >= |s| && g[..FILE_NUM_POS] == s[..FILE_NUM_POS]
    requires ReadField(g, FILE_NUM_POS, INT_SIZE) == ReadField(s, FILE_NUM_POS, INT_SIZE)
    ensures HasMagic(Recounted(g, cnt)) && ChecksumOk(Recounted(g, cnt))
    ensures ReadField(Recounted(g, cnt), FILE_NUM_POS, INT_SIZE) == (ReadField(s, FILE_NUM_POS, INT_SIZE) + cnt) % U32_LIMIT
  {
    RecountedHead(g, cnt, ReadField(s, FILE_NUM_POS, INT_SIZE));
    ShorterPrefix(g, s, CHECKSUM_POS, FILE_NUM_POS);
  }

  /** Two sequences that agree on their first `m` elements agree on any
      shorter prefix. */
  lemma {:induction false} ShorterPrefix(a: seq<Byte>, b: seq<Byte>, n: nat, m: nat)
    requires n <= m <= |a| && m <= |b| && a[..m] == b[..m]
    ensures a[..n] == b[..n]
  {
    assert a[..n] == a[..m][..n];
    assert b[..n] == b[..m][..n];
  }

  /** Raising the count and refreshing the checksum keeps the bytes before
      the checksum field. */
  lemma {:induction false} RecountedHead(g: seq<Byte>, cnt: nat, x: nat)
    requires |g| >= FILE_NUM_POS && x == ReadField(g, FILE_NUM_POS, INT_SIZE)
    ensures var r := Recounted(g, cnt);
      && |r| >= FILE_NUM_POS && r[..CHECKSUM_POS] == g[..CHECKSUM_POS] && ChecksumOk(r)
      && ReadField(r, FILE_NUM_POS, INT_SIZE) == (x + cnt) % U32_LIMIT
  {
    var w := WithCount(g, cnt + ReadField(g, FILE_NUM_POS, INT_SIZE));
    var r := Refreshed(w);
    assert w[..CHECKSUM_POS] == w[..FILE_NUM_POS][..CHECKSUM_POS];
    assert g[..CHECKSUM_POS] == g[..FILE_NUM_POS][..CHECKSUM_POS];
    assert Take(Tail(r, FILE_NUM_POS), INT_SIZE) == Take(Tail(w, FILE_NUM_POS), INT_SIZE);
  }

  /** Growing the file behind the header keeps the signature and the count. */
  lemma {:induction false} GrownHead(s: seq<Byte>, recs: seq<Byte>, newData: seq<Byte>)
    requires |s| >= FILE_INFO_POS
    ensures var g := Grown(s, recs, newData);
      && |g| >= |s| && g[..FILE_NUM_POS] == s[..FILE_NUM_POS]
      && ReadField(g, FILE_NUM_POS, INT_SIZE) == ReadField(s, FILE_NUM_POS, INT_SIZE)
  {
    var he := HeaderEnd(s);
    PatchKeepsHead(s, he, recs + Tail(s, he) + newData);
  }

  /** A write at or past FILE_INFO_POS keeps the signature, the checksum
      and the count. */
  lemma {:induction false} PatchKeepsHead(s: seq<Byte>, p: nat, c: seq<Byte>)
    requires |s| >= FILE_INFO_POS && p >= FILE_INFO_POS
    ensures var g := Patch(s, p, c);
      && |g| >= |s| && g[..FILE_NUM_POS] == s[..FILE_NUM_POS]
      && ReadField(g, FILE_NUM_POS, INT_SIZE) == ReadField(s, FILE_NUM_POS, INT_SIZE)
  {
    var g := Patch(s, p, c);
    assert forall i :: 0 <= i < FILE_INFO_POS ==> g[i] == s[i];
    assert g[..FILE_NUM_POS] == s[..FILE_NUM_POS];
    assert Take(Tail(g, FILE_NUM_POS), INT_SIZE) == Take(Tail(s, FILE_NUM_POS), INT_SIZE);
  }

  /** The archive after the new records and blocks are written behind the
      header. */
  function Grown(s: seq<Byte>, recs: seq<Byte>, newData: seq<Byte>): seq<Byte> {
    Patch(s, HeaderEnd(s), recs + Tail(s, HeaderEnd(s)) + newData)
  }

  /** The count read back from `g` raised by `cnt`, then the checksum
      refreshed. */
  function Recounted(g: seq<Byte>, cnt: nat): seq<Byte> {
    Refreshed(WithCount(g, cnt + ReadField(g, FILE_NUM_POS, INT_SIZE)))
  }

  /** Appending to an archive the program wrote keeps its records and
      blocks and adds the new ones after them. */
  lemma {:induction false} AppendImage(a: Archive, news: seq<Entry>, nb: seq<seq<Byte>>, cnt: nat)
    requires Consistent(a) && Consistent(Archive(news, nb)) && |a.entries| + |news| < U32_LIMIT
    requires cnt == |news|
    ensures Consistent(Archive(a.entries + news, a.blocks + nb))
    ensures AppendedBytes(Image(a), Records(news), cnt, Data(nb)) == Image(Archive(a.entries + news, a.blocks + nb))
  {
    var n := |a.entries|;
    AppendToImage(a, n, Records(news), cnt, Data(nb));
    AppendedBody(a, n, news, nb, cnt);
  }

  /** append_to_archive on an archive the program wrote. */
  lemma {:induction false} AppendToImage(a: Archive, n: nat, recs: seq<Byte>, cnt: nat, nd: seq<Byte>)
    requires Consistent(a) && n == |a.entries|
    ensures AppendedBytes(Image(a), recs, cnt, nd)
            == Sealed(LE((cnt + n) % U32_LIMIT, INT_SIZE) + (Records(a.entries) + (recs + Data(a.blocks) + nd)))
  {
    var crc := ImageParts(a);
    AppendBytes(Image(a), crc, n, Records(a.entries), Data(a.blocks), recs, cnt, nd);
  }

  /** The image of an archive split into its fixed fields, records and
      data, with skip_header stopping after the records. */
  lemma {:induction false} ImageParts(a: Archive) returns (crc: seq<Byte>)
    requires Consistent(a)
    ensures |crc| == INT_SIZE
    ensures Image(a) == MAGIC + crc + (LE(|a.entries|, INT_SIZE) + Records(a.entries) + Data(a.blocks))
    ensures HeaderEnd(Image(a)) == FILE_INFO_POS + |Records(a.entries)|
  {
    crc := LE(Fold(Table(), 0, Body(a)) as nat, INT_SIZE);
    ImageHeader(a);
  }

  /** The body of the archive with entries added: the new count, the old
      records, the new records, the old blocks and the new blocks. */
  lemma {:induction false} AppendedBody(a: Archive, n: nat, news: seq<Entry>, nb: seq<seq<Byte>>, cnt: nat)
    requires Consistent(a) && Consistent(Archive(news, nb)) && |a.entries| + |news| < U32_LIMIT
    requires n == |a.entries| && cnt == |news|
    ensures Consistent(Archive(a.entries + news, a.blocks + nb))
    ensures Image(Archive(a.entries + news, a.blocks + nb))
            == Sealed(LE((cnt + n) % U32_LIMIT, INT_SIZE)
                      + (Records(a.entries) + (Records(news) + Data(a.blocks) + Data(nb))))
  {
    BodyAppend(a, n, news, nb, cnt);
    SameSeal(Body(Archive(a.entries + news, a.blocks + nb)),
             LE((cnt + n) % U32_LIMIT, INT_SIZE) + (Records(a.entries) + (Records(news) + Data(a.blocks) + Data(nb))));
  }

  lemma {:induction false} BodyAppend(a: Archive, n: nat, news: seq<Entry>, nb: seq<seq<Byte>>, cnt: nat)
    requires Consistent(a) && Consistent(Archive(news, nb)) && |a.entries| + |news| < U32_LIMIT
    requires n == |a.entries| && cnt == |news|
    ensures Consistent(Archive(a.entries + news, a.blocks + nb))
    ensures Body(Archive(a.entries + news, a.blocks + nb))
            == LE((cnt + n) % U32_LIMIT, INT_SIZE) + (Records(a.entries) + (Records(news) + Data(a.blocks) + Data(nb)))
  {
    ConsistentAppend(a, news, nb);
    var a2 := Archive(a.entries + news, a.blocks + nb);
    RecordsAppend(a.entries, news);
    DataAppend(a.blocks, nb);
    assert |a2.entries| == cnt + n;
    Below(cnt + n);
    Regroup(Body(a2), LE(|a2.entries|, INT_SIZE), Records(a2.entries), Data(a2.blocks),
            Records(a.entries), Records(news), Data(a.blocks), Data(nb));
  }

  /** A count below 2^32 is its own `unsigned` value. */
  lemma {:induction false} Below(k: nat)
    requires k < U32_LIMIT
    ensures k % U32_LIMIT == k
  {
  }

  /** Equal bodies seal alike. */
  lemma {:induction false} SameSeal(b1: seq<Byte>, b2: seq<Byte>)
    requires b1 == b2
    ensures Sealed(b1) == Sealed(b2)
  {
  }

  /** Regrouping a count, two runs of records and two runs of data. */
  lemma {:induction false} Regroup(b: seq<Byte>, x: seq<Byte>, rs: seq<Byte>, ds: seq<Byte>,
                r1: seq<Byte>, r2: seq<Byte>, d1: seq<Byte>, d2: seq<Byte>)
    requires b == x + rs + ds && rs == r1 + r2 && ds == d1 + d2
    ensures b == x + (r1 + (r2 + d1 + d2))
  {
  }

  /** The archive with more entries added stays consistent. */
  lemma {:induction false} ConsistentAppend(a: Archive, news: seq<Entry>, nb: seq<seq<Byte>>)
    requires Consistent(a) && Consistent(Archive(news, nb)) && |a.entries| + |news| < U32_LIMIT
    ensures Consistent(Archive(a.entries + news, a.blocks + nb))
  {
    var es := a.entries + news;
    var bs := a.blocks + nb;
    forall i | 0 <= i < |bs|
      ensures |bs[i]| == es[i].compSize
    {
      if i >= |a.blocks| {
        assert bs[i] == nb[i - |a.blocks|] && es[i] == news[i - |a.entries|];
      }
    }
  }

  /** append_to_archive on the bytes of signature, checksum `c`, count `n`,
      records `r` and data `d`. */
  lemma {:induction false} AppendBytes(s: seq<Byte>, c: seq<Byte>, n: nat, r: seq<Byte>, d: seq<Byte>, recs: seq<Byte>, cnt: nat, nd: seq<Byte>)
    requires |c| == INT_SIZE && n < U32_LIMIT && s == MAGIC + c + (LE(n, INT_SIZE) + r + d)
    requires HeaderEnd(s) == FILE_INFO_POS + |r|
    ensures AppendedBytes(s, recs, cnt, nd) == Sealed(LE((cnt + n) % U32_LIMIT, INT_SIZE) + (r + (recs + d + nd)))
  {
    var g := GrownOf(s, c, n, r, d, recs, nd);
    SealedOf(g, c, n, r + (recs + d + nd), cnt);
    AppendedOf(s, recs, cnt, nd, g);
    Recount(g, cnt, n);
  }

  /** The archive after append_to_archive writes the new records and
      blocks, before the count and the checksum change. */
  lemma {:induction false} GrownOf(s: seq<Byte>, c: seq<Byte>, n: nat, r: seq<Byte>, d: seq<Byte>, recs: seq<Byte>, nd: seq<Byte>)
    returns (g: seq<Byte>)
    requires |c| == INT_SIZE && n < U32_LIMIT && s == MAGIC + c + (LE(n, INT_SIZE) + r + d)
    requires HeaderEnd(s) == FILE_INFO_POS + |r|
    ensures g == MAGIC + c + (LE(n, INT_SIZE) + (r + (recs + d + nd)))
    ensures Grown(s, recs, nd) == g && ReadField(g, FILE_NUM_POS, INT_SIZE) == n
  {
    g := MAGIC + c + (LE(n, INT_SIZE) + (r + (recs + d + nd)));
    GrowBytes(s, c, LE(n, INT_SIZE), r, d, recs, nd);
    CountAt(g, c, n, r + (recs + d + nd));
  }

  /** Raising the count of a grown archive and refreshing its checksum
      seals the new body. */
  lemma {:induction false} SealedOf(g: seq<Byte>, c: seq<Byte>, n: nat, body: seq<Byte>, cnt: nat)
    requires |c| == INT_SIZE && g == MAGIC + c + (LE(n, INT_SIZE) + body)
    ensures Refreshed(WithCount(g, cnt + n)) == Sealed(LE((cnt + n) % U32_LIMIT, INT_SIZE) + body)
  {
    CountField(g, c, LE(n, INT_SIZE), body, cnt + n);
    RefreshSeals(WithCount(g, cnt + n), c, LE((cnt + n) % U32_LIMIT, INT_SIZE) + body);
  }

  /** append_to_archive in two steps: the file grown to `g`, then the
      count read back from `g` raised and the checksum refreshed. */
  lemma {:induction false} AppendedOf(s: seq<Byte>, recs: seq<Byte>, cnt: nat, nd: seq<Byte>, g: seq<Byte>)
    requires g == Grown(s, recs, nd)
    ensures AppendedBytes(s, recs, cnt, nd) == Recounted(g, cnt)
  {
  }

  /** The count field of a file laid out as signature, checksum `c`, the
      count `n` and `body`. */
  lemma {:induction false} CountAt(s: seq<Byte>, c: seq<Byte>, n: nat, body: seq<Byte>)
    requires |c| == INT_SIZE && n < U32_LIMIT && s == MAGIC + c + (LE(n, INT_SIZE) + body)
    ensures ReadField(s, FILE_NUM_POS, INT_SIZE) == n
  {
    var x := LE(n, INT_SIZE);
    assert Tail(s, FILE_NUM_POS) == x + body;
    assert (x + body)[..INT_SIZE] == x;
    CountOf(s, x + body, n);
  }

  /** The count field of `g` holds `n`, so the new count is `cnt + n`. */
  lemma {:induction false} Recount(g: seq<Byte>, cnt: nat, n: nat)
    requires ReadField(g, FILE_NUM_POS, INT_SIZE) == n
    ensures Recounted(g, cnt) == Refreshed(WithCount(g, cnt + n))
  {
    assert WithCount(g, cnt + ReadField(g, FILE_NUM_POS, INT_SIZE)) == WithCount(g, cnt + n);
  }

  /** The bytes after the header of signature, checksum `c`, count `x`,
      records `r` and data `d` are replaced by `more`, `d` and `nd`. */
  lemma {:induction false} GrowBytes(s: seq<Byte>, c: seq<Byte>, x: seq<Byte>, r: seq<Byte>, d: seq<Byte>, more: seq<Byte>, nd: seq<Byte>)
    requires |c| == INT_SIZE && |x| == INT_SIZE && s == MAGIC + c + (x + r + d)
    requires HeaderEnd(s) == FILE_INFO_POS + |r|
    ensures Grown(s, more, nd) == MAGIC + c + (x + (r + (more + d + nd)))
  {
    Layout(MAGIC, c, x, r, d);
    Flat(MAGIC, c, x, r, d);
    Flat(MAGIC, c, x, r, more + d + nd);
    PatchOver(MAGIC + c + x + r, d, more + d + nd);
  }

  /** Regrouping the parts of a file. */
  lemma {:induction false} Flat(m: seq<Byte>, c: seq<Byte>, x: seq<Byte>, r: seq<Byte>, d: seq<Byte>)
    ensures m + c + (x + r + d) == m + c + x + r + d
    ensures m + c + (x + (r + d)) == m + c + x + r + d
  {
  }
}
