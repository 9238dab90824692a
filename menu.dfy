/** choice_menu (archiver.c) with the MenuOption enumeration of archiver.h:
    the archive is created when it does not exist, opened, checked for the
    signature and the checksum, and the chosen operation run on it. What
    the file system and the clock give the program is passed in. */
module Menu {
  import opened Bytes
  import opened HuffmanTypes
  import opened ArchiveFormat
  import opened ArchiveSpec
  import opened ArchiveEdit
  import Archiver

  datatype MenuOption =
    | AddToArchive
    | ExtractFromArchive
    | ExtractAll
    | RemoveFromArchive
    | RemoveAll
    | CheckIntegrity
    | PrintInfo
    | InvalidOption

  /** What choice_menu reports: a failure before the operation runs, or
      the operation's result. */
  datatype Outcome =
    | CreateFailed
    | OpenFailed
    | NotArchive
    | Corrupted
    | FilesAdded(added: nat)
    | FilesExtracted(extracted: nat, files: seq<Written>)
    | FilesRemoved(removed: nat)
    | ArchiveOk
    | ArchiveInfo(header: Option<Header>)
    | InvalidChoice

  /** What the program runs on: the existing file, or the one
      create_archive writes. */
  function Opened(present: bool, s: seq<Byte>): seq<Byte> {
    if present then s else Created()
  }

  /** The files extract_from_archive picks in `s` decode. */
  predicate ExtractReady(s: seq<Byte>, names: seq<seq<Byte>>, unwritable: set<seq<Byte>>, limit: nat) {
    var h := ParseHeader(s);
    h.Some? ==> var es := h.value.entries;
      Decodable(s, h.value, Picks(Marks(es, names), Archiver.Opens(es, unwritable)), limit)
  }

  /** The files extract_all picks in `s` decode. */
  predicate AllReady(s: seq<Byte>, unwritable: set<seq<Byte>>, limit: nat) {
    var h := ParseHeader(s);
    h.Some? ==> var es := h.value.entries;
      Decodable(s, h.value, Picks(All(|es|), Archiver.Opens(es, unwritable)), limit)
  }

  /** The chosen operation run on the archive `s`, leaving `r` and reporting
      `out`; `news`, `blocks`, `contents` and `roots` are the entries added,
      their blocks, the files they hold and their code trees. */
  ghost predicate Did(opt: MenuOption, s: seq<Byte>, r: seq<Byte>, out: Outcome,
                      names: seq<seq<Byte>>, inputs: seq<Option<seq<Byte>>>, clock: seq<nat>,
                      unwritable: set<seq<Byte>>, tmpOk: bool, reopenOk: bool, limit: nat,
                      news: seq<Entry>, blocks: seq<seq<Byte>>, contents: seq<seq<Byte>>, roots: seq<Option<Tree>>)
  {
    match opt
    case AddToArchive =>
      && |inputs| == |names|
      && (!tmpOk ==> out == FilesAdded(0) && r == s)
      && (tmpOk ==>
            && AddedUpTo(names, inputs, clock, |names|, news, blocks, contents, roots) && AllValid(news)
            && out == FilesAdded(|news|) && r == AppendedBytes(s, Records(news), |news|, Data(blocks)))
    case ExtractFromArchive =>
      var h := ParseHeader(s);
      && r == s
      && (h.None? ==> out == FilesExtracted(0, []))
      && (h.Some? ==> var es := h.value.entries; var picks := Picks(Marks(es, names), Archiver.Opens(es, unwritable));
            && Decodable(s, h.value, picks, limit)
            && var w := Extracted(s, h.value, picks, |es|, limit);
            out == FilesExtracted(|w|, w))
    case ExtractAll =>
      var h := ParseHeader(s);
      && r == s
      && (h.None? ==> out == FilesExtracted(0, []))
      && (h.Some? ==> var es := h.value.entries; var picks := Picks(All(|es|), Archiver.Opens(es, unwritable));
            && Decodable(s, h.value, picks, limit)
            && var w := Extracted(s, h.value, picks, |es|, limit);
            out == FilesExtracted(|w|, w))
    case RemoveFromArchive =>
      var h := ParseHeader(s);
      && (h.None? || !tmpOk ==> out == FilesRemoved(0) && r == s)
      && (h.Some? && tmpOk ==> var m := Marks(h.value.entries, names);
            && out == FilesRemoved(Marked(m, |m|))
            && r == if reopenOk then Removed(s, h.value, m) else s)
    case CheckIntegrity => out == ArchiveOk && r == s
    case PrintInfo => out == ArchiveInfo(ParseHeader(s)) && r == s
    case RemoveAll => out == InvalidChoice && r == s
    case InvalidOption => out == InvalidChoice && r == s
  }

  /** The switch of choice_menu on an archive that passed both checks. */
  method Dispatch(arch: Archiver.Stream, opt: MenuOption, names: seq<seq<Byte>>, inputs: seq<Option<seq<Byte>>>,
                  clock: seq<nat>, unwritable: set<seq<Byte>>, tmpOk: bool, reopenOk: bool,
                  st: Archiver.Statics, ghost limit: nat)
    returns (out: Outcome, ghost news: seq<Entry>, ghost blocks: seq<seq<Byte>>,
             ghost contents: seq<seq<Byte>>, ghost roots: seq<Option<Tree>>)
    requires st.Valid()
    requires opt == AddToArchive ==> Archiver.Addable(names, inputs, clock)
    requires opt == ExtractFromArchive ==> ExtractReady(arch.bytes, names, unwritable, limit)
    requires opt == ExtractAll ==> AllReady(arch.bytes, unwritable, limit)
    modifies arch, st.inbuf, st.inbuf.data, st.outbuf, st.outbuf.data, st.freq, st.table, st.crc.table
    ensures st.Valid()
    ensures Did(opt, old(arch.bytes), arch.bytes, out, names, inputs, clock, unwritable, tmpOk, reopenOk, limit,
                news, blocks, contents, roots)
  {
    news, blocks, contents, roots := [], [], [], [];
    match opt {
      case AddToArchive =>
        var cnt;
        cnt, news, blocks, contents, roots := Archiver.AppendToArchive(arch, names, inputs, clock, tmpOk, st);
        out := FilesAdded(cnt);
      case ExtractFromArchive =>
        var cnt, written := Archiver.ExtractFromArchive(arch, names, unwritable, st, limit);
        out := FilesExtracted(cnt, written);
      case ExtractAll =>
        var cnt, written := Archiver.ExtractAll(arch, unwritable, st, limit);
        out := FilesExtracted(cnt, written);
      case RemoveFromArchive =>
        var cnt := Archiver.RemoveFromArchive(arch, names, tmpOk, reopenOk, st);
        out := FilesRemoved(cnt);
      case CheckIntegrity =>
        out := ArchiveOk;
      case PrintInfo =>
        var h := Archiver.ReadHeader(arch);
        out := ArchiveInfo(h);
      case RemoveAll =>
        out := InvalidChoice;
      case InvalidOption =>
        out := InvalidChoice;
    }
  }

  /** choice_menu. `present` is whether the archive file is there to read,
      `createOk` and `openOk` whether create_archive's and choice_menu's own
      fopen succeed. */
  method ChoiceMenu(arch: Archiver.Stream, present: bool, createOk: bool, openOk: bool, opt: MenuOption,
                    names: seq<seq<Byte>>, inputs: seq<Option<seq<Byte>>>, clock: seq<nat>,
                    unwritable: set<seq<Byte>>, tmpOk: bool, reopenOk: bool,
                    st: Archiver.Statics, ghost limit: nat)
    returns (out: Outcome, ghost news: seq<Entry>, ghost blocks: seq<seq<Byte>>,
             ghost contents: seq<seq<Byte>>, ghost roots: seq<Option<Tree>>)
    requires st.Valid()
    requires opt == AddToArchive ==> Archiver.Addable(names, inputs, clock)
    requires opt == ExtractFromArchive ==> ExtractReady(Opened(present, arch.bytes), names, unwritable, limit)
    requires opt == ExtractAll ==> AllReady(Opened(present, arch.bytes), unwritable, limit)
    modifies arch, st.inbuf, st.inbuf.data, st.outbuf, st.outbuf.data, st.freq, st.table, st.crc.table
    ensures st.Valid()
    ensures !present && !createOk ==> out == CreateFailed && arch.bytes == old(arch.bytes)
    ensures present || createOk ==>
      Ran(Opened(present, old(arch.bytes)), arch.bytes, out, openOk, opt, names, inputs, clock, unwritable,
          tmpOk, reopenOk, limit, news, blocks, contents, roots)
  {
    if !present {
      var code := Archiver.CreateArchive(arch, createOk, st);
      if code != 0 {
        return CreateFailed, [], [], [], [];
      }
    }
    out, news, blocks, contents, roots :=
      OpenAndRun(arch, openOk, opt, names, inputs, clock, unwritable, tmpOk, reopenOk, st, limit);
  }

  /** What choice_menu does with the file `s` it opens, leaving `r`: a
      failure to open, a file without the signature or with a wrong
      checksum is reported and left as it is; otherwise the chosen operation
      runs. */
  ghost predicate Ran(s: seq<Byte>, r: seq<Byte>, out: Outcome, openOk: bool, opt: MenuOption,
                      names: seq<seq<Byte>>, inputs: seq<Option<seq<Byte>>>, clock: seq<nat>,
                      unwritable: set<seq<Byte>>, tmpOk: bool, reopenOk: bool, limit: nat,
                      news: seq<Entry>, blocks: seq<seq<Byte>>, contents: seq<seq<Byte>>, roots: seq<Option<Tree>>)
  {
    && (!openOk ==> out == OpenFailed && r == s)
    && (openOk && !HasMagic(s) ==> out == NotArchive && r == s)
    && (openOk && HasMagic(s) && !ChecksumOk(s) ==> out == Corrupted && r == s)
    && (openOk && HasMagic(s) && ChecksumOk(s) ==>
          Did(opt, s, r, out, names, inputs, clock, unwritable, tmpOk, reopenOk, limit, news, blocks, contents, roots))
  }

  /** choice_menu from its fopen on: the checks, then the switch. */
  method OpenAndRun(arch: Archiver.Stream, openOk: bool, opt: MenuOption,
                    names: seq<seq<Byte>>, inputs: seq<Option<seq<Byte>>>, clock: seq<nat>,
                    unwritable: set<seq<Byte>>, tmpOk: bool, reopenOk: bool,
                    st: Archiver.Statics, ghost limit: nat)
    returns (out: Outcome, ghost news: seq<Entry>, ghost blocks: seq<seq<Byte>>,
             ghost contents: seq<seq<Byte>>, ghost roots: seq<Option<Tree>>)
    requires st.Valid()
    requires opt == AddToArchive ==> Archiver.Addable(names, inputs, clock)
    requires opt == ExtractFromArchive ==> ExtractReady(arch.bytes, names, unwritable, limit)
    requires opt == ExtractAll ==> AllReady(arch.bytes, unwritable, limit)
    modifies arch, st.inbuf, st.inbuf.data, st.outbuf, st.outbuf.data, st.freq, st.table, st.crc.table
    ensures st.Valid()
    ensures Ran(old(arch.bytes), arch.bytes, out, openOk, opt, names, inputs, clock, unwritable,
                tmpOk, reopenOk, limit, news, blocks, contents, roots)
  {
    news, blocks, contents, roots := [], [], [], [];
    if !openOk {
      return OpenFailed, [], [], [], [];
    }
    var ok := Archiver.CheckMagicNum(arch);
    if !ok {
      return NotArchive, [], [], [], [];
    }
    ok := Archiver.CheckArchiveChecksum(arch, st);
    if !ok {
      return Corrupted, [], [], [], [];
    }
    arch.Seek(0);
    out, news, blocks, contents, roots :=
      Dispatch(arch, opt, names, inputs, clock, unwritable, tmpOk, reopenOk, st, limit);
  }
}
