/** Which stored files extract_from_archive and remove_from_archive select,
    what remove_from_archive leaves in the archive and what extract_files
    writes out, stated on the archive bytes and related to the archive those
    bytes are the image of. */
module ArchiveEdit {
  import opened Bytes
  import opened Checksum
  import opened HuffmanTypes
  import opened CodingSpec
  import opened HuffmanCoding
  import opened ArchiveFormat
  import opened ArchiveSpec

  // ---------------------------------------------------------------------
  // Selection
  // ---------------------------------------------------------------------

  /** Where the inner search loop stops for `name`: the first entry that
      has that name, or |es| when none has. */
  function FirstNamed(es: seq<Entry>, name: seq<Byte>): (j: nat)
    ensures j <= |es|
    ensures j < |es| ==> es[j].name == name
    ensures forall k :: 0 <= k < j ==> es[k].name != name
  {
    if es == [] then 0
    else if es[0].name == name then 0
    else 1 + FirstNamed(es[1..], name)
  }

  /** `m` with entry `j` selected, when there is such an entry. */
  function Mark(m: seq<bool>, j: nat): (r: seq<bool>)
    ensures |r| == |m|
  {
    if j < |m| then m[j := true] else m
  }

  /** The selection the search loops leave for the requested `names`:
      nothing at first, then for each name in turn the first entry of that
      name. */
  function Marks(es: seq<Entry>, names: seq<seq<Byte>>): (m: seq<bool>)
    ensures |m| == |es|
  {
    if names == [] then seq(|es|, _ => false)
    else Mark(Marks(es, names[..|names| - 1]), FirstNamed(es, names[|names| - 1]))
  }

  /** An entry is selected exactly when it is the first entry named by one
      of the requested names: a name that is absent selects nothing, and a
      later entry with a repeated name is never selected. */
  lemma {:induction false} MarksIff(es: seq<Entry>, names: seq<seq<Byte>>, j: nat)
    requires j < |es|
    ensures Marks(es, names)[j] <==> exists i :: 0 <= i < |names| && FirstNamed(es, names[i]) == j
  {
    if names != [] {
      var front := names[..|names| - 1];
      var last := names[|names| - 1];
      MarksIff(es, front, j);
      if Marks(es, names)[j] {
        if !Marks(es, front)[j] {
          assert FirstNamed(es, names[|names| - 1]) == j;
        } else {
          var i :| 0 <= i < |front| && FirstNamed(es, front[i]) == j;
          assert names[i] == front[i];
        }
      } else {
        forall i | 0 <= i < |names|
          ensures FirstNamed(es, names[i]) != j
        {
          if i < |front| {
            assert names[i] == front[i];
          }
        }
      }
    }
  }

  /** Selecting every entry, as extract_all does. */
  function All(n: nat): (m: seq<bool>)
    ensures |m| == n && forall i :: 0 <= i < n ==> m[i]
  {
    seq(n, _ => true)
  }

  // ---------------------------------------------------------------------
  // Removal
  // ---------------------------------------------------------------------

  /** How many of the first `k` entries are selected. */
  function Marked(marks: seq<bool>, k: nat): (c: nat)
    requires k <= |marks|
    ensures c <= k
  {
    if k == 0 then 0 else Marked(marks, k - 1) + (if marks[k - 1] then 1 else 0)
  }

  /** The first `k` items, less the selected ones, in order. */
  function Keep<T>(xs: seq<T>, marks: seq<bool>, k: nat): (r: seq<T>)
    requires k <= |xs| && k <= |marks|
    ensures |r| + Marked(marks, k) == k
  {
    if k == 0 then [] else Keep(xs, marks, k - 1) + (if marks[k - 1] then [] else [xs[k - 1]])
  }

  /** An item is kept exactly when some unselected position holds it. */
  lemma {:induction false} KeepMembers<T>(xs: seq<T>, marks: seq<bool>, k: nat, y: T)
    requires k <= |xs| && k <= |marks|
    ensures y in Keep(xs, marks, k) <==> exists i :: 0 <= i < k && !marks[i] && xs[i] == y
  {
    if k > 0 {
      KeepMembers(xs, marks, k - 1, y);
      if y in Keep(xs, marks, k) && y !in Keep(xs, marks, k - 1) {
        assert !marks[k - 1] && xs[k - 1] == y;
      }
    }
  }

  /** Kept records are records write_file_info can write. */
  lemma {:induction false} KeptValid(es: seq<Entry>, marks: seq<bool>, k: nat)
    requires k <= |es| && k <= |marks| && AllValid(es)
    ensures AllValid(Keep(es, marks, k))
  {
    if k > 0 {
      KeptValid(es, marks, k - 1);
    }
  }

  /** The blocks delete_files copies from the first `k` entries: those of
      the unselected ones, each from where the running sum of compressed
      sizes puts it. */
  function KeptData(s: seq<Byte>, h: Header, marks: seq<bool>, k: nat): seq<Byte>
    requires k <= |h.entries| && |marks| == |h.entries|
  {
    if k == 0 then []
    else KeptData(s, h, marks, k - 1) + (if marks[k - 1] then [] else Block(s, h, k - 1))
  }

  /** The records of the unselected entries, as delete_files writes
      them. */
  function KeptRecords(h: Header, marks: seq<bool>): seq<Byte>
    requires AllValid(h.entries) && |marks| == |h.entries|
  {
    KeptValid(h.entries, marks, |marks|);
    Records(Keep(h.entries, marks, |marks|))
  }

  /** The archive remove_from_archive leaves: the count of the unselected
      entries, their records and their blocks, sealed. */
  function Removed(s: seq<Byte>, h: Header, marks: seq<bool>): (r: seq<Byte>)
    requires AllValid(h.entries) && |marks| == |h.entries|
    ensures HasMagic(r) && ChecksumOk(r)
    ensures ReadField(r, FILE_NUM_POS, INT_SIZE) == (|h.entries| - Marked(marks, |marks|)) % U32_LIMIT
  {
    var x := (|h.entries| - Marked(marks, |marks|)) % U32_LIMIT;
    SealedHead(x, KeptRecords(h, marks), KeptData(s, h, marks, |marks|));
    Sealed(LE(x, INT_SIZE) + KeptRecords(h, marks) + KeptData(s, h, marks, |marks|))
  }

  /** A file holding only the signature passes both checks of choice_menu
      and reads back as an empty header; removing from it writes the empty
      archive create_archive writes. */
  lemma {:induction false} BareSignatureRemoved()
    ensures HasMagic(MAGIC) && ChecksumOk(MAGIC)
    ensures ParseHeader(MAGIC) == Some(Header(0, [], |MAGIC|))
    ensures Removed(MAGIC, Header(0, [], |MAGIC|), []) == Created()
  {
    BareSignatureFields();
    BareSignatureChecks();
    NothingRemoved(MAGIC, Header(0, [], |MAGIC|));
  }

  /** The signature alone: both fields after it read as zero and nothing
      follows the count. */
  lemma {:induction false} BareSignatureFields()
    ensures HasMagic(MAGIC) && Tail(MAGIC, FILE_NUM_POS) == []
    ensures ReadField(MAGIC, CHECKSUM_POS, INT_SIZE) == 0 && ReadField(MAGIC, FILE_NUM_POS, INT_SIZE) == 0
  {
    assert MAGIC[..|MAGIC|] == MAGIC;
    assert Take(Tail(MAGIC, CHECKSUM_POS), INT_SIZE) == [];
    assert Take(Tail(MAGIC, FILE_NUM_POS), INT_SIZE) == [];
  }

  /** The CRC of nothing is the zero the missing checksum field reads as. */
  lemma {:induction false} BareSignatureChecks()
    ensures ChecksumOk(MAGIC)
  {
    BareSignatureFields();
    assert Fold(Table(), 0, []) == 0;
  }

  /** Removing nothing from an archive with no entries writes the empty
      archive. */
  lemma {:induction false} NothingRemoved(s: seq<Byte>, h: Header)
    requires h.entries == []
    ensures Removed(s, h, []) == Created()
  {
    assert KeptRecords(h, []) == [] by {
      assert Keep(h.entries, [], 0) == [];
    }
    assert LE(0, INT_SIZE) + [] + [] == LE(0, INT_SIZE);
  }

  /** The archive left once the selected entries and their blocks are
      gone. */
  function Kept(a: Archive, marks: seq<bool>): Archive
    requires |a.blocks| == |a.entries| == |marks|
  {
    Archive(Keep(a.entries, marks, |marks|), Keep(a.blocks, marks, |marks|))
  }

  /** Removing from an archive the program wrote leaves exactly the image
      of the archive without the selected files, which is again
      consistent. */
  lemma {:induction false} RemoveImage(a: Archive, marks: seq<bool>) returns (h: Header)
    requires Consistent(a) && |marks| == |a.entries|
    ensures Consistent(Kept(a, marks))
    ensures ParseHeader(Image(a)) == Some(h) && h.entries == a.entries
    ensures Removed(Image(a), h, marks) == Image(Kept(a, marks))
  {
    var s := Image(a);
    ImageHeader(a);
    h := ParseHeader(s).value;
    var n := |marks|;
    forall i | 0 <= i < n
      ensures Block(s, h, i) == a.blocks[i]
    {
      ImageBlock(a, i);
    }
    KeptBlocks(s, h, a.blocks, marks, n);
    KeptConsistent(a.entries, a.blocks, marks, n);
    RemovedBody(s, h, marks, Kept(a, marks));
  }

  /** The body remove_from_archive seals is that of the kept archive. */
  lemma {:induction false} RemovedBody(s: seq<Byte>, h: Header, marks: seq<bool>, b: Archive)
    requires AllValid(h.entries) && |marks| == |h.entries| && Consistent(b)
    requires b.entries == Keep(h.entries, marks, |marks|)
    requires KeptData(s, h, marks, |marks|) == Data(b.blocks)
    ensures Removed(s, h, marks) == Image(b)
  {
    var n := |marks|;
    assert |b.entries| + Marked(marks, n) == n;
    Below(|b.entries|);
    var x := LE((|h.entries| - Marked(marks, n)) % U32_LIMIT, INT_SIZE);
    assert x == LE(|b.entries|, INT_SIZE);
    assert KeptRecords(h, marks) == Records(b.entries);
    SameSeal(x + KeptRecords(h, marks) + KeptData(s, h, marks, n), Body(b));
  }

  /** The first `k` entries less the selected ones, with their blocks, are
      consistent. */
  lemma {:induction false} KeptConsistent(es: seq<Entry>, bs: seq<seq<Byte>>, marks: seq<bool>, k: nat)
    requires Consistent(Archive(es, bs)) && |marks| == |es| && k <= |marks|
    ensures Consistent(Archive(Keep(es, marks, k), Keep(bs, marks, k)))
  {
    if k > 0 {
      KeptConsistent(es, bs, marks, k - 1);
      if !marks[k - 1] {
        KeptStep(Keep(es, marks, k - 1), Keep(bs, marks, k - 1), es[k - 1], bs[k - 1]);
      }
    }
  }

  /** delete_files copies exactly the unselected blocks, when each block
      sits where the running sum of compressed sizes puts it. */
  lemma {:induction false} KeptBlocks(s: seq<Byte>, h: Header, bs: seq<seq<Byte>>, marks: seq<bool>, k: nat)
    requires |marks| == |h.entries| == |bs| && k <= |marks|
    requires forall i :: 0 <= i < k ==> Block(s, h, i) == bs[i]
    ensures KeptData(s, h, marks, k) == Data(Keep(bs, marks, k))
  {
    if k > 0 {
      KeptBlocks(s, h, bs, marks, k - 1);
      if !marks[k - 1] {
        var front := Keep(bs, marks, k - 1);
        var b := bs[k - 1];
        assert Keep(bs, marks, k) == front + [b];
        assert (front + [b])[..|front + [b]| - 1] == front;
        assert Data(front + [b]) == Data(front) + b;
        assert KeptData(s, h, marks, k) == KeptData(s, h, marks, k - 1) + b;
        assert KeptData(s, h, marks, k - 1) == Data(front);
        assert Data(Keep(bs, marks, k)) == Data(front + [b]);
      } else {
        assert Keep(bs, marks, k) == Keep(bs, marks, k - 1);
        assert KeptData(s, h, marks, k) == KeptData(s, h, marks, k - 1);
      }
    }
  }

  /** One more entry with a block as long as it says keeps an archive
      consistent. */
  lemma {:induction false} KeptStep(es: seq<Entry>, bs: seq<seq<Byte>>, e: Entry, b: seq<Byte>)
    requires Consistent(Archive(es, bs)) && ValidEntry(e) && |b| == e.compSize
    requires |es| + 1 < U32_LIMIT
    ensures Consistent(Archive(es + [e], bs + [b]))
  {
    var a2 := Archive(es + [e], bs + [b]);
    forall i | 0 <= i < |a2.blocks|
      ensures |a2.blocks[i]| == a2.entries[i].compSize
    {
      if i < |bs| {
        assert a2.blocks[i] == bs[i] && a2.entries[i] == es[i];
      }
    }
  }

  // ---------------------------------------------------------------------
  // Extraction
  // ---------------------------------------------------------------------

  /** What decode_file writes for entry i: decoding starts where the running
      sum of compressed sizes puts the entry's block, and stops after its
      file size. */
  function ExtractedAt(s: seq<Byte>, h: Header, i: nat, limit: nat): (content: seq<Byte>)
    requires i < |h.entries|
    requires h.entries[i].fileSize == 0 || ParseAt(BytesToBits(s), 8 * BlockStart(h, i), limit).Parsed?
    ensures |content| == h.entries[i].fileSize
  {
    Unpacked(BytesToBits(s), 8 * BlockStart(h, i), h.entries[i].fileSize, limit)
  }

  /** Every picked nonempty entry starts with a code tree that is complete
      before bit `limit`; read_tree does not stop on one that is not. */
  predicate Decodable(s: seq<Byte>, h: Header, picks: seq<bool>, limit: nat)
    requires |picks| == |h.entries|
  {
    forall i :: 0 <= i < |picks| && picks[i] && h.entries[i].fileSize > 0 ==>
      ParseAt(BytesToBits(s), 8 * BlockStart(h, i), limit).Parsed?
  }

  /** read_tree from a position at or past the end of the stream reads
      only zero bits, so never completes a tree. */
  lemma {:induction false} ParsePastEnd(s: seq<bool>, pos: nat, limit: nat)
    requires |s| <= pos
    ensures ParseAt(s, pos, limit).NoTree?
    decreases limit - pos
  {
    if pos < limit {
      ParsePastEnd(s, pos + 1, limit);
    }
  }

  /** A file written out: its name and its bytes. */
  datatype Written = Written(name: seq<Byte>, content: seq<Byte>)

  /** The entries extract_files writes out: those selected whose output
      file opened. */
  function Picks(marks: seq<bool>, opens: seq<bool>): (p: seq<bool>)
    requires |opens| == |marks|
    ensures |p| == |marks| && forall i :: 0 <= i < |p| ==> (p[i] <==> marks[i] && opens[i])
  {
    seq(|marks|, i requires 0 <= i < |marks| => marks[i] && opens[i])
  }

  /** The files extract_files writes from the first `k` entries, in
      order. */
  function Extracted(s: seq<Byte>, h: Header, picks: seq<bool>, k: nat, limit: nat): (w: seq<Written>)
    requires |picks| == |h.entries| && k <= |picks| && Decodable(s, h, picks, limit)
    ensures |w| <= k
  {
    if k == 0 then []
    else
      Extracted(s, h, picks, k - 1, limit)
        + (if picks[k - 1] then [Written(h.entries[k - 1].name, ExtractedAt(s, h, k - 1, limit))] else [])
  }

  /** The picked files of the first `k` entries, named as their records
      say, with the given contents. */
  function Chosen(es: seq<Entry>, contents: seq<seq<Byte>>, picks: seq<bool>, k: nat): seq<Written>
    requires |contents| == |es| == |picks| && k <= |picks|
  {
    if k == 0 then []
    else Chosen(es, contents, picks, k - 1) + (if picks[k - 1] then [Written(es[k - 1].name, contents[k - 1])] else [])
  }

  // ---------------------------------------------------------------------
  // Adding
  // ---------------------------------------------------------------------

  /** The requested files fopen could not open for reading: `inputs[i]` is
      what opening the i-th requested name gave, the bytes of the file or
      nothing. */
  function Unopened(inputs: seq<Option<seq<Byte>>>): (m: seq<bool>)
    ensures |m| == |inputs| && forall i :: 0 <= i < |inputs| ==> (m[i] <==> inputs[i].None?)
  {
    seq(|inputs|, i requires 0 <= i < |inputs| => inputs[i].None?)
  }

  /** The entries compress_files writes for the names `opens` that opened,
      whose files held `files`, in order: each holds the name, the length
      of the file, the length of its block modulo 2^32 and the time read for
      it. */
  predicate Listed(opens: seq<seq<Byte>>, files: seq<Option<seq<Byte>>>, clock: seq<nat>,
                   news: seq<Entry>, blocks: seq<seq<Byte>>, contents: seq<seq<Byte>>)
  {
    && |news| == |opens| && |files| == |news| && |blocks| == |news| && |contents| == |news|
    && |news| <= |clock|
    && forall j :: 0 <= j < |news| ==>
         && files[j] == Some(contents[j])
         && news[j] == Entry(opens[j], |contents[j]|, |blocks[j]| % U32_LIMIT, clock[j])
  }

  /** What compress_files adds for the first `k` requested names: the
      entries of the names that open, with blocks that encode the files. */
  predicate AddedUpTo(names: seq<seq<Byte>>, inputs: seq<Option<seq<Byte>>>, clock: seq<nat>, k: nat,
                      news: seq<Entry>, blocks: seq<seq<Byte>>, contents: seq<seq<Byte>>, roots: seq<Option<Tree>>)
    requires k <= |names| == |inputs|
  {
    var u := Unopened(inputs);
    && Listed(Keep(names, u, k), Keep(inputs, u, k), clock, news, blocks, contents)
    && Compresses(Archive(news, blocks), contents, roots)
  }

  /** Partway through compress_files: the archive `a` holds the records of
      `news` written from position `p0` of what it held, `a0`, and the
      temporary file `t` the blocks from position `q0` of what it held, `t0`;
      both positions are past what was written. */
  predicate Compressing(a: seq<Byte>, ap: nat, t: seq<Byte>, tp: nat, a0: seq<Byte>, p0: nat, t0: seq<Byte>, q0: nat,
                        news: seq<Entry>, blocks: seq<seq<Byte>>)
  {
    && AllValid(news)
    && a == Patch(a0, p0, Records(news)) && ap == p0 + |Records(news)|
    && t == Patch(t0, q0, Data(blocks)) && tp == q0 + |Data(blocks)|
  }

  /** One more opened file lists one more entry. */
  lemma {:induction false} ListedSnoc(opens: seq<seq<Byte>>, files: seq<Option<seq<Byte>>>, clock: seq<nat>,
                   news: seq<Entry>, blocks: seq<seq<Byte>>, contents: seq<seq<Byte>>,
                   name: seq<Byte>, e: Entry, b: seq<Byte>, c: seq<Byte>)
    requires Listed(opens, files, clock, news, blocks, contents) && |news| < |clock|
    requires e == Entry(name, |c|, |b| % U32_LIMIT, clock[|news|])
    ensures Listed(opens + [name], files + [Some(c)], clock, news + [e], blocks + [b], contents + [c])
  {
    var files', news', blocks', contents' := files + [Some(c)], news + [e], blocks + [b], contents + [c];
    forall j | 0 <= j < |news'|
      ensures files'[j] == Some(contents'[j])
      ensures news'[j] == Entry((opens + [name])[j], |contents'[j]|, |blocks'[j]| % U32_LIMIT, clock[j])
    {
    }
  }

  /** A requested name that does not open adds nothing. */
  lemma {:induction false} AddedSkip(names: seq<seq<Byte>>, inputs: seq<Option<seq<Byte>>>, clock: seq<nat>, k: nat,
                  news: seq<Entry>, blocks: seq<seq<Byte>>, contents: seq<seq<Byte>>, roots: seq<Option<Tree>>)
    requires k < |names| == |inputs| && inputs[k].None?
    requires AddedUpTo(names, inputs, clock, k, news, blocks, contents, roots)
    ensures AddedUpTo(names, inputs, clock, k + 1, news, blocks, contents, roots)
  {
    var u := Unopened(inputs);
    assert Keep(names, u, k + 1) == Keep(names, u, k);
    assert Keep(inputs, u, k + 1) == Keep(inputs, u, k);
  }

  /** A requested name that opens adds its entry, its block, its content and
      its tree at the end. */
  lemma {:induction false} AddedOne(names: seq<seq<Byte>>, inputs: seq<Option<seq<Byte>>>, clock: seq<nat>, k: nat,
                 news: seq<Entry>, blocks: seq<seq<Byte>>, contents: seq<seq<Byte>>, roots: seq<Option<Tree>>,
                 e: Entry, b: seq<Byte>, c: seq<Byte>, r: Option<Tree>)
    requires k < |names| == |inputs| && inputs[k] == Some(c)
    requires AddedUpTo(names, inputs, clock, k, news, blocks, contents, roots) && |news| < |clock|
    requires e == Entry(names[k], |c|, |b| % U32_LIMIT, clock[|news|]) && Encodes(e, b, c, r)
    ensures AddedUpTo(names, inputs, clock, k + 1, news + [e], blocks + [b], contents + [c], roots + [r])
  {
    var u := Unopened(inputs);
    assert Keep(names, u, k + 1) == Keep(names, u, k) + [names[k]];
    assert Keep(inputs, u, k + 1) == Keep(inputs, u, k) + [Some(c)];
    ListedSnoc(Keep(names, u, k), Keep(inputs, u, k), clock, news, blocks, contents, names[k], e, b, c);
    AppendCompresses(Archive(news, blocks), contents, roots, Archive([e], [b]), [c], [r]);
  }

  /** Block `b` of entry `e` is encode_file's output for the content `c`
      with the code tree `r`. */
  predicate Encodes(e: Entry, b: seq<Byte>, c: seq<Byte>, r: Option<Tree>) {
    && b == Pack(Encoded(r, c)) && e.fileSize == |c|
    && (r.None? <==> c == [])
    && (r.Some? ==> forall x :: x in c ==> x in Syms(r.value))
  }

  /** Every block of `a` encodes the corresponding content. */
  predicate Compresses(a: Archive, contents: seq<seq<Byte>>, roots: seq<Option<Tree>>) {
    && |contents| == |a.entries| && |roots| == |a.entries| && |a.blocks| == |a.entries|
    && forall i :: 0 <= i < |a.entries| ==> Encodes(a.entries[i], a.blocks[i], contents[i], roots[i])
  }

  /** decode_file on the block of entry i of an archive the program wrote
      gives back the content it compressed. */
  lemma {:induction false} ExtractImage(a: Archive, contents: seq<seq<Byte>>, roots: seq<Option<Tree>>, i: nat) returns (h: Header)
    requires Consistent(a) && Compresses(a, contents, roots) && i < |a.entries|
    ensures ParseHeader(Image(a)) == Some(h) && h.entries == a.entries
    ensures h.entries[i].fileSize == 0 || ParseAt(BytesToBits(Image(a)), 8 * BlockStart(h, i), 8 * |Image(a)|).Parsed?
    ensures ExtractedAt(Image(a), h, i, 8 * |Image(a)|) == contents[i]
  {
    var s := Image(a);
    ImageBlock(a, i);
    h := ParseHeader(s).value;
    var p := BlockStart(h, i);
    var blk := a.blocks[i];
    BlockIn(s, p, blk);
    var e := Encoded(roots[i], contents[i]);
    assert |e| <= 8 * |blk|;
    RoundTrip(s, s[..p], contents[i], s[p + |blk|..], roots[i], 8 * |s|);
  }

  /** A block read from inside a file: the file is what precedes it, the
      block and what follows it. */
  lemma {:induction false} BlockIn(s: seq<Byte>, p: nat, blk: seq<Byte>)
    requires p + |blk| <= |s| && Take(Tail(s, p), |blk|) == blk
    ensures s == s[..p] + blk + s[p + |blk|..] && |s[..p]| == p
  {
    assert s[p..p + |blk|] == blk;
  }

  /** extract_files on an archive the program wrote writes each picked file
      with the content it compressed. */
  lemma {:induction false} ExtractAllImage(a: Archive, contents: seq<seq<Byte>>, roots: seq<Option<Tree>>, picks: seq<bool>)
    returns (h: Header)
    requires Consistent(a) && Compresses(a, contents, roots) && |picks| == |a.entries|
    ensures ParseHeader(Image(a)) == Some(h) && h.entries == a.entries
    ensures Decodable(Image(a), h, picks, 8 * |Image(a)|)
    ensures Extracted(Image(a), h, picks, |picks|, 8 * |Image(a)|) == Chosen(a.entries, contents, picks, |picks|)
  {
    var s := Image(a);
    var limit := 8 * |s|;
    ImageHeader(a);
    h := ParseHeader(s).value;
    forall i | 0 <= i < |picks|
      ensures h.entries[i].fileSize == 0 || ParseAt(BytesToBits(s), 8 * BlockStart(h, i), limit).Parsed?
      ensures ExtractedAt(s, h, i, limit) == contents[i]
    {
      var _ := ExtractImage(a, contents, roots, i);
    }
    ExtractedPrefix(s, h, picks, |picks|, limit, contents);
  }

  /** The files written from the first `k` entries, when each picked entry
      decodes to its content. */
  lemma {:induction false} ExtractedPrefix(s: seq<Byte>, h: Header, picks: seq<bool>, k: nat, limit: nat,
                                           contents: seq<seq<Byte>>)
    requires |picks| == |h.entries| == |contents| && k <= |picks| && Decodable(s, h, picks, limit)
    requires forall i :: 0 <= i < k && picks[i] ==> ExtractedAt(s, h, i, limit) == contents[i]
    ensures Extracted(s, h, picks, k, limit) == Chosen(h.entries, contents, picks, k)
  {
    if k > 0 {
      ExtractedPrefix(s, h, picks, k - 1, limit, contents);
    }
  }

  /** Appending keeps every block encoding its content. */
  lemma {:induction false} AppendCompresses(a: Archive, contents: seq<seq<Byte>>, roots: seq<Option<Tree>>,
                         b: Archive, more: seq<seq<Byte>>, moreRoots: seq<Option<Tree>>)
    requires Compresses(a, contents, roots) && Compresses(b, more, moreRoots)
    ensures Compresses(Archive(a.entries + b.entries, a.blocks + b.blocks), contents + more, roots + moreRoots)
  {
    var n := |a.entries|;
    var c := Archive(a.entries + b.entries, a.blocks + b.blocks);
    forall i | 0 <= i < |c.entries|
      ensures Encodes(c.entries[i], c.blocks[i], (contents + more)[i], (roots + moreRoots)[i])
    {
      if i >= n {
        assert Encodes(b.entries[i - n], b.blocks[i - n], more[i - n], moreRoots[i - n]);
      }
    }
  }

  /** Removing keeps every remaining block encoding its content. */
  lemma {:induction false} RemoveCompresses(a: Archive, contents: seq<seq<Byte>>, roots: seq<Option<Tree>>, marks: seq<bool>)
    requires Compresses(a, contents, roots) && |marks| == |a.entries|
    ensures Compresses(Kept(a, marks), Keep(contents, marks, |marks|), Keep(roots, marks, |marks|))
  {
    KeptCompresses(a, contents, roots, marks, |marks|);
  }

  lemma {:induction false} KeptCompresses(a: Archive, contents: seq<seq<Byte>>, roots: seq<Option<Tree>>,
                                          marks: seq<bool>, k: nat)
    requires Compresses(a, contents, roots) && |marks| == |a.entries| && k <= |marks|
    ensures Compresses(Archive(Keep(a.entries, marks, k), Keep(a.blocks, marks, k)),
                       Keep(contents, marks, k), Keep(roots, marks, k))
  {
    if k > 0 {
      KeptCompresses(a, contents, roots, marks, k - 1);
      if !marks[k - 1] {
        var i := k - 1;
        assert Encodes(a.entries[i], a.blocks[i], contents[i], roots[i]);
        var b := Archive([a.entries[i]], [a.blocks[i]]);
        assert Compresses(b, [contents[i]], [roots[i]]);
        AppendCompresses(Archive(Keep(a.entries, marks, i), Keep(a.blocks, marks, i)),
                         Keep(contents, marks, i), Keep(roots, marks, i), b, [contents[i]], [roots[i]]);
        assert Keep(a.entries, marks, k) == Keep(a.entries, marks, i) + b.entries;
        assert Keep(a.blocks, marks, k) == Keep(a.blocks, marks, i) + b.blocks;
        assert Keep(contents, marks, k) == Keep(contents, marks, i) + [contents[i]];
        assert Keep(roots, marks, k) == Keep(roots, marks, i) + [roots[i]];
      } else {
        assert Keep(a.entries, marks, k) == Keep(a.entries, marks, k - 1);
        assert Keep(a.blocks, marks, k) == Keep(a.blocks, marks, k - 1);
        assert Keep(contents, marks, k) == Keep(contents, marks, k - 1);
        assert Keep(roots, marks, k) == Keep(roots, marks, k - 1);
      }
    }
  }

  /** The archive create_archive writes is the image of the empty
      archive. */
  lemma {:induction false} CreatedImage()
    ensures Consistent(Archive([], [])) && Created() == Image(Archive([], []))
    ensures Compresses(Archive([], []), [], [])
  {
    assert Body(Archive([], [])) == LE(0, INT_SIZE);
  }
}
