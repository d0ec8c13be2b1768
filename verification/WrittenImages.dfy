/** Whole slices, written as bytes: what they load as, and slices that load and yet reach the failures. */
module WrittenImages {
  import opened Words
  import opened MachO
  import opened BindOpcodes
  import opened BindSections
  import opened BindTable
  import opened LoadCommands
  import opened CommandLayout
  import opened AddressMap

  // ------------------------------------------------------------- whole slices

  predicate WritableImage(cmds: seq<Command>) {
    AllWritable(cmds) && |cmds| < U32
  }

  /** `struct mach_header` of a 32-bit dynamic library, followed by its load commands. */
  function WriteImage(cmds: seq<Command>): (b: seq<byte>)
    requires WritableImage(cmds)
    ensures |b| >= HEADER_SIZE
  {
    WriteWords([0xFEED_FACE, 7, 3, 6, |cmds|, 0, 0]) + WriteCommands(cmds)
  }

  /** Which headers are accepted: those of 32-bit x86 libraries and executables. */
  lemma HeaderWords(m: seq<byte>, ws: seq<uint32>)
    requires |ws| == 7 && At(m, 0, WriteWords(ws))
    ensures HeaderOk(m) <==> ws[0] == 0xFEED_FACE && ws[1] == 7 && ws[2] == 3 && (ws[3] == 6 || ws[3] == 2)
    ensures HeaderOk(m) ==> CommandCount(m) == ws[4]
  {
    hide WriteWords, U32At, At;
    Fits(m, 0, ws);
    WordsRead(m, 0, ws, 0);
    WordsRead(m, 0, ws, 1);
    WordsRead(m, 0, ws, 2);
    WordsRead(m, 0, ws, 3);
    WordsRead(m, 0, ws, 4);
  }

  lemma HeaderWritten(m: seq<byte>, cmds: seq<Command>)
    requires WritableImage(cmds) && At(m, 0, WriteImage(cmds))
    ensures HeaderOk(m) && CommandCount(m) == |cmds| && At(m, HEADER_SIZE, WriteCommands(cmds))
  {
    hide WriteWords, U32At, WriteCommands, At, HeaderOk, CommandCount, AllWritable;
    var ws := [0xFEED_FACE, 7, 3, 6, |cmds|, 0, 0];
    AtSplit(m, 0, WriteWords(ws), WriteCommands(cmds));
    HeaderWords(m, ws);
  }

  /** The commands of a slice whose header is accepted, when they can be read. */
  function CommandsOf(m: seq<byte>): Option<seq<Command>>
    requires HeaderOk(m)
  {
    Commands(m, CommandCount(m), HEADER_SIZE)
  }

  /** The segments and the library fields that a slice loads. */
  function SegmentsOf(m: seq<byte>): seq<Segment>
    requires HeaderOk(m) && CommandsOf(m).Some?
  {
    Segments(CommandsOf(m).value)
  }

  function TablesOf(m: seq<byte>): Tables
    requires HeaderOk(m) && CommandsOf(m).Some?
  {
    ApplyAll(CommandsOf(m).value, NO_TABLES)
  }

  /** Whatever follows the written commands, the slice has just these commands. */
  lemma ImageRead(m: seq<byte>, cmds: seq<Command>)
    requires WritableImage(cmds) && At(m, 0, WriteImage(cmds)) && |m| < U32
    ensures HeaderOk(m) && CommandsOf(m) == Some(AllPlaced(cmds, HEADER_SIZE))
  {
    hide WriteImage, HeaderOk, CommandCount;
    HeaderWritten(m, cmds);
    CommandsRoundTrip(m, cmds, HEADER_SIZE);
  }

  /** Exactly which written slices load: those whose segments are accepted and whose bind stream, if
      they have one, C defines. */
  lemma ImageLoads(m: seq<byte>, base: uint32, size: nat, t: Tables, cmds: seq<Command>)
    requires WritableImage(cmds) && At(m, 0, WriteImage(cmds)) && |m| < U32
    ensures var placed := AllPlaced(cmds, HEADER_SIZE);
      Loads(m, base, size, t) <==>
      Accepted(Segments(placed), size) &&
      (ApplyAll(placed, t).hasDyldInfo ==>
         BindRunOf(m, base, Segments(placed), ApplyAll(placed, t)).outcome != Undefined)
  {
    hide WriteImage, HeaderOk, Accepted, BindRunOf, AllPlaced, Segments, ApplyAll;
    ImageRead(m, cmds);
  }

  /** From a table to a file and back: a slice written with the encoding of any table loads exactly
      when its segments are accepted, and then its bind records are the table. */
  lemma TableLoads(m: seq<byte>, base: uint32, size: nat, cmds: seq<Command>, rows: seq<Row>)
    requires WritableImage(cmds) && At(m, 0, WriteImage(cmds)) && base + |m| < U32 && NulFree(rows)
    requires var t := ApplyAll(AllPlaced(cmds, HEADER_SIZE), NO_TABLES);
      t.hasDyldInfo && t.bindSize == |EncodeTable(rows, 4)| && At(m, t.bindOff, EncodeTable(rows, 4))
    ensures var segs := Segments(AllPlaced(cmds, HEADER_SIZE));
      (Loads(m, base, size, NO_TABLES) <==> Accepted(segs, size)) &&
      HeaderOk(m) && CommandsOf(m).Some? && SegmentsOf(m) == segs &&
      BindRunOf(m, base, segs, TablesOf(m)).recs == RowRecords(Env(Segs32(segs), []), rows)
  {
    hide WriteImage, HeaderOk, Accepted, AllPlaced, Segments, ApplyAll, BindRunOf, Run, EncodeTable;
    var placed := AllPlaced(cmds, HEADER_SIZE);
    var t, segs := ApplyAll(placed, NO_TABLES), Segments(placed);
    ImageRead(m, cmds);
    ImageLoads(m, base, size, NO_TABLES, cmds);
    BindStreamMapped(m, base, segs, t);
    TableRoundTrip(Env(Segs32(segs), []), rows, m[t.bindOff + t.bindSize..]);
  }

  // ------------------------------------------------ one segment, placed and read

  /** The segment stands where the first command of a slice stands. */
  predicate FirstPlaced(seg: Segment) {
    WritableSegment(seg) && Placed(SegmentCmd(seg), HEADER_SIZE) == SegmentCmd(seg)
  }

  lemma OnlySegment(seg: Segment)
    requires FirstPlaced(seg)
    ensures AllPlaced([SegmentCmd(seg)], HEADER_SIZE) == [SegmentCmd(seg)]
    ensures WritableImage([SegmentCmd(seg)])
    ensures Segments([SegmentCmd(seg)]) == [seg] && ApplyAll([SegmentCmd(seg)], NO_TABLES) == NO_TABLES
  {
    var cmds := [SegmentCmd(seg)];
    assert cmds[1..] == [] && cmds[..0] == [];
    assert AllPlaced(cmds[1..], HEADER_SIZE + Size(cmds[0])) == [];
    assert Segments(cmds[..0]) == [] && ApplyAll(cmds[..0], NO_TABLES) == NO_TABLES;
  }

  /** A slice of one segment command. */
  lemma SegmentImage(m: seq<byte>, base: uint32, seg: Segment)
    requires FirstPlaced(seg) && At(m, 0, WriteImage([SegmentCmd(seg)])) && |m| < U32 && Accepted([seg], |m|)
    ensures Loads(m, base, |m|, NO_TABLES) && SegmentsOf(m) == [seg]
  {
    hide WriteImage, HeaderOk, Accepted, AllPlaced, Segments, ApplyAll, BindRunOf, FirstPlaced;
    OnlySegment(seg);
    ImageRead(m, [SegmentCmd(seg)]);
    ImageLoads(m, base, |m|, NO_TABLES, [SegmentCmd(seg)]);
  }

  /** A slice of a segment and a bind command. */
  function BoundCommands(seg: Segment, off: uint32, size: uint32): seq<Command> {
    [SegmentCmd(seg), DyldInfoCmd(off, size)]
  }

  lemma BoundPlaced(seg: Segment, off: uint32, size: uint32)
    requires FirstPlaced(seg)
    ensures WritableImage(BoundCommands(seg, off, size))
    ensures AllPlaced(BoundCommands(seg, off, size), HEADER_SIZE) == BoundCommands(seg, off, size)
    ensures Segments(BoundCommands(seg, off, size)) == [seg]
    ensures ApplyAll(BoundCommands(seg, off, size), NO_TABLES) ==
      NO_TABLES.(hasDyldInfo := true, bindOff := off, bindSize := size)
  {
    var cmds := BoundCommands(seg, off, size);
    var last := DyldInfoCmd(off, size);
    OnlySegment(seg);
    assert cmds[1..] == [last] && cmds[..1] == [SegmentCmd(seg)];
    assert AllPlaced([last], HEADER_SIZE + Size(cmds[0])) == [last] by {
      assert [last][1..] == [];
    }
  }

  /** The slice goes on with the bind stream right after the commands. */
  predicate BoundImage(m: seq<byte>, seg: Segment, stream: seq<byte>, rest: seq<byte>) {
    && FirstPlaced(seg) && |m| < U32
    && var off := |m| - |stream| - |rest|;
       0 <= off && WritableImage(BoundCommands(seg, off, |stream|)) &&
       m == WriteImage(BoundCommands(seg, off, |stream|)) + (stream + rest)
  }

  lemma BoundImageLong(m: seq<byte>, seg: Segment, stream: seq<byte>, rest: seq<byte>)
    requires BoundImage(m, seg, stream, rest)
    ensures |m| >= HEADER_SIZE
  {}

  lemma BoundImageLoads(m: seq<byte>, base: uint32, seg: Segment, stream: seq<byte>, rest: seq<byte>)
    requires BoundImage(m, seg, stream, rest) && base + |m| < U32 && Accepted([seg], |m|)
    requires Run(Env(Segs32([seg]), []), stream, rest, INIT_REGS).outcome != Undefined
    ensures Loads(m, base, |m|, NO_TABLES) && SegmentsOf(m) == [seg]
    ensures BindRunOf(m, base, [seg], TablesOf(m)) == Run(Env(Segs32([seg]), []), stream, rest, INIT_REGS)
  {
    hide WriteImage, HeaderOk, Accepted, AllPlaced, Segments, ApplyAll, BindRunOf, Run, FirstPlaced, BoundCommands;
    var off := |m| - |stream| - |rest|;
    var cmds := BoundCommands(seg, off, |stream|);
    BoundPlaced(seg, off, |stream|);
    assert m[..off] == WriteImage(cmds);
    assert m[off..off + |stream|] == stream && m[off + |stream|..] == rest;
    ImageRead(m, cmds);
    ImageLoads(m, base, |m|, NO_TABLES, cmds);
    BindStreamMapped(m, base, [seg], ApplyAll(cmds, NO_TABLES));
  }

  // ----------------------------------------------- slices that reach the failures

  /** A segment of one section, as it stands in a file. */
  function OneSection(segname: seq<byte>, sectname: seq<byte>, vmaddr: uint32, vmsize: uint32,
                      filesize: uint32, addr: uint32, size: uint32, offset: uint32): Segment
  {
    Segment(HEADER_SIZE, segname, vmaddr, vmsize, 0, filesize,
            [Section(HEADER_SIZE + SEGMENT_SIZE, sectname, addr, size, offset, 0)])
  }

  lemma OneSectionPlaced(seg: Segment)
    requires WritableSegment(seg) && seg.at == HEADER_SIZE
    requires |seg.sections| == 1 && seg.sections[0].at == HEADER_SIZE + SEGMENT_SIZE
    ensures FirstPlaced(seg)
  {
    assert Placed(SegmentCmd(seg), HEADER_SIZE).seg.sections == seg.sections;
  }

  lemma OneRange(seg: Segment, fileSize: nat)
    requires |seg.sections| == 1 && SegmentChecks(seg, fileSize)
    ensures Ranges([seg]) == [MakeRange(0, 0, seg, seg.sections[0])] && Accepted([seg], fileSize)
  {
    assert [seg][..0] == [];
    assert Ranges([seg][..0]) == [];
  }

  /** A slice of one page that loads and answers a read of four gigabytes less a byte. */
  lemma HugeReadAnswered(m: seq<byte>, base: uint32, seg: Segment, segname: seq<byte>, sectname: seq<byte>)
    requires |segname| == 16 && |sectname| == 16
    requires seg == OneSection(segname, sectname, 0x1000, 0x1000, 0x1000, 0x1000, 0x1000, 0)
    requires |m| == 0x1000 && At(m, 0, WriteImage([SegmentCmd(seg)]))
    ensures Loads(m, base, |m|, NO_TABLES)
    ensures Translate(Ranges(SegmentsOf(m)), 0x1000, 0xFFFF_FFFF) == Some(0)
  {
    hide WriteImage, Translate;
    OneSectionPlaced(seg);
    OneRange(seg, 0x1000);
    SegmentImage(m, base, seg);
    OwnedTranslation([seg], 0, 0, 0x1000, 0xFFFF_FFFF);
  }

  /** A slice of two pages that loads and has a mapped section whose file range wraps.  It answers a
      read of four bytes soundly, and an unwrapped read of the whole section from the same place. */
  lemma SectionBeyondFile(m: seq<byte>, base: uint32, seg: Segment, segname: seq<byte>, sectname: seq<byte>)
    requires |segname| == 16 && |sectname| == 16
    requires seg == OneSection(segname, sectname, 0, 0xFFFF_F000, 0x2000, 0, 0xFFFF_F000, 0x1800)
    requires |m| == 0x2000 && At(m, 0, WriteImage([SegmentCmd(seg)]))
    ensures Loads(m, base, |m|, NO_TABLES) && SegmentsOf(m) == [seg]
    ensures Translate(Ranges([seg]), 0, 4) == Some(0x1800) && BytesInside(seg, seg.sections[0], |m|, 0x1800, 4)
    ensures Translate(Ranges([seg]), 0, 0xFFFF_F000) == Some(0x1800) && !SectionSafe([seg], 0, 0)
  {
    hide WriteImage, Translate, SectionSafe;
    OneSectionPlaced(seg);
    OneRange(seg, 0x2000);
    SegmentImage(m, base, seg);
    OwnedTranslation([seg], 0, 0, 0, 4);
    OwnedTranslation([seg], 0, 0, 0, 0xFFFF_F000);
    SectionSoundExactly([seg], 0x2000, 0, 0);
  }

  /** A slice that loads and in which a bind record in section `b` carries the name of section `a`. */
  lemma RecordMisnamed(m: seq<byte>, base: uint32, seg: Segment, stream: seq<byte>, rest: seq<byte>,
                       segname: seq<byte>, a: seq<byte>, b: seq<byte>)
    requires |segname| == 16 && |a| == 16 && |b| == 16
    requires seg == Segment(HEADER_SIZE, segname, 0, 8, 0, 8,
      [Section(HEADER_SIZE + SEGMENT_SIZE, a, 0, 4, 0, 0),
       Section(HEADER_SIZE + SEGMENT_SIZE + SECTION_SIZE, b, 4, 4, 4, 0)])
    requires stream == [0x70, 0x00, 0xC0, 0x02, 0x00]
    requires BoundImage(m, seg, stream, rest) && base + |m| < U32
    ensures Loads(m, base, |m|, NO_TABLES)
    ensures var segs, recs := SegmentsOf(m), BindRunOf(m, base, SegmentsOf(m), TablesOf(m)).recs;
      |recs| == 2 && recs[1].address == 4 && recs[1].sectname == Some(a) && RangeSectionName(segs, 0, 4) == Some(b)
  {
    hide BoundImage, BindRunOf, Run, RangeSectionName, SectionName;
    BoundImageLong(m, seg, stream, rest);
    TwoRanges(seg, |m|);
    RunLeavesSection(Env(Segs32([seg]), []), stream, rest);
    BoundImageLoads(m, base, seg, stream, rest);
    TwoLookupsAgree([seg], 0, 4);
  }

  lemma TwoRanges(seg: Segment, fileSize: nat)
    requires |seg.sections| == 2 && SegmentChecks(seg, fileSize)
    requires Separated(MakeRange(0, 1, seg, seg.sections[1]), MakeRange(0, 0, seg, seg.sections[0]))
    ensures Accepted([seg], fileSize)
  {
    var first, second := MakeRange(0, 0, seg, seg.sections[0]), MakeRange(0, 1, seg, seg.sections[1]);
    assert [seg][..0] == [];
    assert Ranges([seg][..0]) == [];
    assert Ranges([seg]) == [first] + [second];
    SeparatedAppend([first], second);
  }

  /** A slice that loads and in which a bind record in the only section carries no name. */
  lemma RecordUnnamed(m: seq<byte>, base: uint32, seg: Segment, stream: seq<byte>, rest: seq<byte>,
                      segname: seq<byte>, sectname: seq<byte>)
    requires |segname| == 16 && |sectname| == 16
    requires seg == OneSection(segname, sectname, 0, 8, 8, 4, 4, 4)
    requires stream == [0x70, 0x00, 0xC0, 0x02, 0x00]
    requires BoundImage(m, seg, stream, rest) && base + |m| < U32
    ensures Loads(m, base, |m|, NO_TABLES)
    ensures var segs, recs := SegmentsOf(m), BindRunOf(m, base, SegmentsOf(m), TablesOf(m)).recs;
      |recs| == 2 && recs[1].address == 4 && recs[1].sectname == None &&
      RangeSectionName(segs, 0, 4) == Some(sectname)
  {
    hide BoundImage, BindRunOf, Run, RangeSectionName, SectionName;
    BoundImageLong(m, seg, stream, rest);
    OneRange(seg, |m|);
    RunEntersSection(Env(Segs32([seg]), []), stream, rest);
    BoundImageLoads(m, base, seg, stream, rest);
    TwoLookupsAgree([seg], 0, 4);
  }
}
