/** A reference writer for load commands, in the layout of the C structures, and its round trip
    through the reader. */
module CommandLayout {
  import opened Words
  import opened MachO
  import opened LoadCommands

  function Bytes32(v: uint32): (b: seq<byte>)
    ensures |b| == 4
  {
    [v % 0x100, v / 0x100 % 0x100, v / 0x100 / 0x100 % 0x100, v / 0x100 / 0x100 / 0x100]
  }

  /** Consecutive 32-bit fields. */
  function WriteWords(ws: seq<uint32>): (b: seq<byte>)
    ensures |b| == 4 * |ws|
  {
    if ws == [] then [] else Bytes32(ws[0]) + WriteWords(ws[1..])
  }

  lemma WordRead(m: seq<byte>, off: nat, v: uint32)
    requires off + 4 <= |m| && m[off..off + 4] == Bytes32(v)
    ensures U32At(m, off) == v
  {
    assert m[off] == m[off..off + 4][0] && m[off + 1] == m[off..off + 4][1];
    assert m[off + 2] == m[off..off + 4][2] && m[off + 3] == m[off..off + 4][3];
  }

  /** `part` stands at `off`. */
  predicate At(m: seq<byte>, off: nat, part: seq<byte>) {
    off + |part| <= |m| && m[off..off + |part|] == part
  }

  lemma AtSplit(m: seq<byte>, off: nat, a: seq<byte>, b: seq<byte>)
    requires At(m, off, a + b)
    ensures At(m, off, a) && At(m, off + |a|, b)
  {
    assert (a + b)[..|a|] == a && (a + b)[|a|..] == b;
    assert m[off..off + |a + b|][..|a|] == m[off..off + |a|];
    assert m[off..off + |a + b|][|a|..] == m[off + |a|..off + |a| + |b|];
  }

  lemma {:induction false} WordsRead(m: seq<byte>, off: nat, ws: seq<uint32>, i: nat)
    requires At(m, off, WriteWords(ws)) && i < |ws|
    ensures U32At(m, off + 4 * i) == ws[i]
    decreases i
  {
    AtSplit(m, off, Bytes32(ws[0]), WriteWords(ws[1..]));
    if i == 0 {
      WordRead(m, off, ws[0]);
    } else {
      WordsRead(m, off + 4, ws[1..], i - 1);
    }
  }

  // ----------------------------------------------------------- command words

  /** The commands by their words.  The top bit of the command word, LC_REQ_DYLD, makes no difference. */
  lemma CommandByWord(m: seq<byte>, off: nat)
    requires off + 8 <= |m|
    ensures var w, c := U32At(m, off), ReadCommand(m, off);
      && (w == 0x1 || w == 0x8000_0001 ==>
            c == if off + 56 <= |m| && off + 56 + 68 * U32At(m, off + 48) <= |m|
                 then Some(SegmentCmd(SegmentAt(m, off, U32At(m, off + 48)))) else None)
      && (w == 0x2 || w == 0x8000_0002 ==>
            c == if off + 24 <= |m|
                 then Some(SymtabCmd(U32At(m, off + 8), U32At(m, off + 12), U32At(m, off + 16))) else None)
      && (w == 0xB || w == 0x8000_000B ==>
            c == if off + 80 <= |m| then Some(DysymtabCmd(U32At(m, off + 64), U32At(m, off + 68))) else None)
      && (w == 0x22 || w == 0x8000_0022 ==>
            c == if off + 48 <= |m| then Some(DyldInfoCmd(U32At(m, off + 16), U32At(m, off + 20))) else None)
      && (w % 0x8000_0000 !in {0x1, 0x2, 0xB, 0x22} ==> c == Some(OtherCmd))
  {
    hide U32At, SegmentAt;
  }

  /** The same, seen from the bytes: setting the top bit of the command word changes nothing. */
  lemma TopBitIgnored(m: seq<byte>, m': seq<byte>, off: nat)
    requires off + 8 <= |m| && m[off + 3] < 0x80 && m' == m[off + 3 := m[off + 3] + 0x80]
    ensures ReadCommand(m', off) == ReadCommand(m, off) && NextCommand(m', off) == NextCommand(m, off)
  {
    assert forall o :: o > off + 3 && o + 4 <= |m| ==> U32At(m', o) == U32At(m, o);
    assert U32At(m', off) == U32At(m, off) + 0x8000_0000;
    if SegmentReadable(m, off) {
      SegmentUntouched(m, m', off, SectionCount(m, off));
    }
  }

  lemma SegmentUntouched(m: seq<byte>, m': seq<byte>, off: nat, n: nat)
    requires |m'| == |m| && off + SEGMENT_SIZE + SECTION_SIZE * n <= |m|
    requires forall k :: off + 4 <= k < |m| ==> m'[k] == m[k]
    ensures SegmentAt(m', off, n) == SegmentAt(m, off, n)
  {
    var a, b := SegmentAt(m, off, n), SegmentAt(m', off, n);
    assert m'[off + 8..off + 24] == m[off + 8..off + 24];
    forall j | 0 <= j < n
      ensures a.sections[j] == b.sections[j]
    {
      var o := off + SEGMENT_SIZE + SECTION_SIZE * j;
      assert m'[o..o + 16] == m[o..o + 16];
    }
  }

  // ------------------------------------------------------------------ writer

  predicate WritableSection(s: Section) {
    |s.sectname| == 16 && s.addr < U32 && s.size < U32
  }

  /** `struct section`, with zeroes in the fields that are not modelled. */
  function WriteSection(s: Section, segname: seq<byte>): (b: seq<byte>)
    requires WritableSection(s) && |segname| == 16
    ensures |b| == SECTION_SIZE
  {
    s.sectname + (segname + WriteWords([s.addr, s.size, s.offset, 0, 0, 0, s.flags, 0, 0]))
  }

  predicate WritableSegment(seg: Segment) {
    && |seg.segname| == 16 && seg.vmaddr < U32 && seg.vmsize < U32 && seg.fileoff < U32 && seg.filesize < U32
    && SEGMENT_SIZE + SECTION_SIZE * |seg.sections| < U32
    && forall j :: 0 <= j < |seg.sections| ==> WritableSection(seg.sections[j])
  }

  function WriteSections(sections: seq<Section>, segname: seq<byte>): (b: seq<byte>)
    requires |segname| == 16 && forall j :: 0 <= j < |sections| ==> WritableSection(sections[j])
    ensures |b| == SECTION_SIZE * |sections|
  {
    if sections == [] then [] else WriteSection(sections[0], segname) + WriteSections(sections[1..], segname)
  }

  predicate Writable(c: Command) {
    c.SegmentCmd? ==> WritableSegment(c.seg)
  }

  /** The size that the command declares. */
  function Size(c: Command): nat {
    match c
    case SegmentCmd(seg) => SEGMENT_SIZE + SECTION_SIZE * |seg.sections|
    case SymtabCmd(_, _, _) => 24
    case DysymtabCmd(_, _) => 80
    case DyldInfoCmd(_, _) => 48
    case OtherCmd => 8
  }

  function WriteSegmentHeader(seg: Segment): (b: seq<byte>)
    requires WritableSegment(seg)
    ensures |b| == SEGMENT_SIZE
  {
    WriteWords([0x1, Size(SegmentCmd(seg))]) + (seg.segname +
    WriteWords([seg.vmaddr, seg.vmsize, seg.fileoff, seg.filesize, 0, 0, |seg.sections|, 0]))
  }

  /** The structures of osx/mach-o/loader.h, LC_DYLD_INFO_ONLY among them; other commands are written
      as a bare LC_UUID header. */
  function WriteCommand(c: Command): (b: seq<byte>)
    requires Writable(c)
    ensures |b| == Size(c)
  {
    match c
    case SegmentCmd(seg) => WriteSegmentHeader(seg) + WriteSections(seg.sections, seg.segname)
    case SymtabCmd(symOff, symCount, strOff) => WriteWords([0x2, 24, symOff, symCount, strOff, 0])
    case DysymtabCmd(off, count) =>
      WriteWords([0xB, 80, 0, 0, 0, 0, 0, 0, 0, 0, 0, 0, 0, 0, 0, 0, off, count, 0, 0])
    case DyldInfoCmd(off, size) => WriteWords([0x8000_0022, 48, 0, 0, off, size, 0, 0, 0, 0, 0, 0])
    case OtherCmd => WriteWords([0x1B, 8])
  }

  predicate AllWritable(cmds: seq<Command>) {
    forall k :: 0 <= k < |cmds| ==> Writable(cmds[k])
  }

  function WriteCommands(cmds: seq<Command>): seq<byte>
    requires AllWritable(cmds)
  {
    if cmds == [] then [] else WriteCommand(cmds[0]) + WriteCommands(cmds[1..])
  }

  /** The command with the positions that it gets when it stands at `off`. */
  function Placed(c: Command, off: nat): Command {
    match c
    case SegmentCmd(seg) =>
      SegmentCmd(seg.(at := off, sections := seq(|seg.sections|, j requires 0 <= j < |seg.sections| =>
        seg.sections[j].(at := off + SEGMENT_SIZE + SECTION_SIZE * j))))
    case _ => c
  }

  function AllPlaced(cmds: seq<Command>, off: nat): seq<Command> {
    if cmds == [] then [] else [Placed(cmds[0], off)] + AllPlaced(cmds[1..], off + Size(cmds[0]))
  }

  // -------------------------------------------------------------- round trip

  lemma SectionRead(m: seq<byte>, off: nat, s: Section, segname: seq<byte>)
    requires WritableSection(s) && |segname| == 16 && At(m, off, WriteSection(s, segname))
    ensures SectionAt(m, off) == s.(at := off)
  {
    var ws := [s.addr, s.size, s.offset, 0, 0, 0, s.flags, 0, 0];
    AtSplit(m, off, s.sectname, segname + WriteWords(ws));
    AtSplit(m, off + 16, segname, WriteWords(ws));
    WordsRead(m, off + 32, ws, 0);
    WordsRead(m, off + 32, ws, 1);
    WordsRead(m, off + 32, ws, 2);
    WordsRead(m, off + 32, ws, 6);
  }

  lemma {:induction false} SectionsRead(m: seq<byte>, off: nat, sections: seq<Section>, segname: seq<byte>, j: nat)
    requires |segname| == 16 && j < |sections|
    requires forall k :: 0 <= k < |sections| ==> WritableSection(sections[k])
    requires At(m, off, WriteSections(sections, segname))
    ensures off + SECTION_SIZE * j + SECTION_SIZE <= |m|
    ensures SectionAt(m, off + SECTION_SIZE * j) == sections[j].(at := off + SECTION_SIZE * j)
    decreases j
  {
    AtSplit(m, off, WriteSection(sections[0], segname), WriteSections(sections[1..], segname));
    if j == 0 {
      SectionRead(m, off, sections[0], segname);
    } else {
      SectionsRead(m, off + SECTION_SIZE, sections[1..], segname, j - 1);
    }
  }

  lemma Fits(m: seq<byte>, off: nat, ws: seq<uint32>)
    requires At(m, off, WriteWords(ws))
    ensures off + 4 * |ws| <= |m|
  {}

  lemma AtIs(m: seq<byte>, off: nat, part: seq<byte>)
    requires At(m, off, part)
    ensures off + |part| <= |m| && m[off..off + |part|] == part
  {}

  lemma HeaderRead(m: seq<byte>, off: nat, seg: Segment)
    requires WritableSegment(seg) && At(m, off, WriteSegmentHeader(seg))
    ensures CommandKind(m, off) == 0x1 && U32At(m, off + 4) == Size(SegmentCmd(seg))
    ensures SectionCount(m, off) == |seg.sections|
    ensures SegmentAt(m, off, 0) == seg.(at := off, sections := [])
  {
    var first := [0x1, Size(SegmentCmd(seg))];
    var ws := [seg.vmaddr, seg.vmsize, seg.fileoff, seg.filesize, 0, 0, |seg.sections|, 0];
    hide At, WriteWords, U32At;
    AtSplit(m, off, WriteWords(first), seg.segname + WriteWords(ws));
    AtSplit(m, off + 8, seg.segname, WriteWords(ws));
    AtIs(m, off + 8, seg.segname);
    Fits(m, off + 24, ws);
    WordsRead(m, off, first, 0);
    WordsRead(m, off, first, 1);
    WordsRead(m, off + 24, ws, 0);
    WordsRead(m, off + 24, ws, 1);
    WordsRead(m, off + 24, ws, 2);
    WordsRead(m, off + 24, ws, 3);
    WordsRead(m, off + 24, ws, 6);
  }

  lemma SegmentRead(m: seq<byte>, off: nat, seg: Segment)
    requires WritableSegment(seg) && At(m, off, WriteCommand(SegmentCmd(seg)))
    ensures ReadCommand(m, off) == Some(Placed(SegmentCmd(seg), off))
    ensures U32At(m, off + 4) == Size(SegmentCmd(seg))
  {
    AtSplit(m, off, WriteSegmentHeader(seg), WriteSections(seg.sections, seg.segname));
    HeaderRead(m, off, seg);
    SectionsPlaced(m, off, seg);
  }

  lemma SectionsPlaced(m: seq<byte>, off: nat, seg: Segment)
    requires WritableSegment(seg) && At(m, off + SEGMENT_SIZE, WriteSections(seg.sections, seg.segname))
    ensures SegmentAt(m, off, |seg.sections|).sections == Placed(SegmentCmd(seg), off).seg.sections
  {
    var whole, placed := SegmentAt(m, off, |seg.sections|).sections, Placed(SegmentCmd(seg), off).seg.sections;
    forall j | 0 <= j < |seg.sections|
      ensures whole[j] == placed[j]
    {
      SectionsRead(m, off + SEGMENT_SIZE, seg.sections, seg.segname, j);
    }
  }

  lemma SymtabRead(m: seq<byte>, off: nat, symOff: uint32, symCount: uint32, strOff: uint32)
    requires At(m, off, WriteWords([0x2, 24, symOff, symCount, strOff, 0]))
    ensures ReadCommand(m, off) == Some(SymtabCmd(symOff, symCount, strOff)) && U32At(m, off + 4) == 24
  {
    hide At, WriteWords, U32At;
    var ws := [0x2, 24, symOff, symCount, strOff, 0];
    Fits(m, off, ws);
    WordsRead(m, off, ws, 0);
    WordsRead(m, off, ws, 1);
    WordsRead(m, off, ws, 2);
    WordsRead(m, off, ws, 3);
    WordsRead(m, off, ws, 4);
  }

  lemma DysymtabRead(m: seq<byte>, off: nat, relOff: uint32, count: uint32)
    requires At(m, off, WriteWords([0xB, 80, 0, 0, 0, 0, 0, 0, 0, 0, 0, 0, 0, 0, 0, 0, relOff, count, 0, 0]))
    ensures ReadCommand(m, off) == Some(DysymtabCmd(relOff, count)) && U32At(m, off + 4) == 80
  {
    hide At, WriteWords, U32At;
    var ws := [0xB, 80, 0, 0, 0, 0, 0, 0, 0, 0, 0, 0, 0, 0, 0, 0, relOff, count, 0, 0];
    Fits(m, off, ws);
    WordsRead(m, off, ws, 0);
    WordsRead(m, off, ws, 1);
    WordsRead(m, off, ws, 16);
    WordsRead(m, off, ws, 17);
  }

  lemma DyldInfoRead(m: seq<byte>, off: nat, bindOff: uint32, size: uint32)
    requires At(m, off, WriteWords([0x8000_0022, 48, 0, 0, bindOff, size, 0, 0, 0, 0, 0, 0]))
    ensures ReadCommand(m, off) == Some(DyldInfoCmd(bindOff, size)) && U32At(m, off + 4) == 48
  {
    hide At, WriteWords, U32At;
    var ws := [0x8000_0022, 48, 0, 0, bindOff, size, 0, 0, 0, 0, 0, 0];
    Fits(m, off, ws);
    WordsRead(m, off, ws, 0);
    WordsRead(m, off, ws, 1);
    WordsRead(m, off, ws, 4);
    WordsRead(m, off, ws, 5);
  }

  lemma UuidRead(m: seq<byte>, off: nat)
    requires At(m, off, WriteWords([0x1B, 8]))
    ensures ReadCommand(m, off) == Some(OtherCmd) && U32At(m, off + 4) == 8
  {
    hide At, WriteWords, U32At;
    Fits(m, off, [0x1B, 8]);
    WordsRead(m, off, [0x1B, 8], 0);
    WordsRead(m, off, [0x1B, 8], 1);
  }

  lemma OtherRead(m: seq<byte>, off: nat, c: Command)
    requires !c.SegmentCmd? && At(m, off, WriteCommand(c))
    ensures ReadCommand(m, off) == Some(c)
    ensures U32At(m, off + 4) == Size(c)
  {
    hide At, WriteWords, U32At, ReadCommand;
    match c {
      case SymtabCmd(symOff, symCount, strOff) => SymtabRead(m, off, symOff, symCount, strOff);
      case DysymtabCmd(relOff, count) => DysymtabRead(m, off, relOff, count);
      case DyldInfoCmd(bindOff, size) => DyldInfoRead(m, off, bindOff, size);
      case OtherCmd => UuidRead(m, off);
    }
  }

  lemma CommandRead(m: seq<byte>, off: nat, c: Command)
    requires Writable(c) && At(m, off, WriteCommand(c)) && |m| < U32
    ensures ReadCommand(m, off) == Some(Placed(c, off)) && NextCommand(m, off) == off + Size(c)
  {
    if c.SegmentCmd? {
      SegmentRead(m, off, c.seg);
    } else {
      OtherRead(m, off, c);
    }
  }

  /** Command by command, what is read at each position is what was written there. */
  predicate ReadBack(m: seq<byte>, cmds: seq<Command>, off: nat) {
    cmds == [] ||
    (ReadCommand(m, off) == Some(Placed(cmds[0], off)) && NextCommand(m, off) == off + Size(cmds[0]) &&
     ReadBack(m, cmds[1..], off + Size(cmds[0])))
  }

  lemma WriteCons(cmds: seq<Command>)
    requires cmds != [] && AllWritable(cmds)
    ensures Writable(cmds[0]) && AllWritable(cmds[1..])
    ensures WriteCommands(cmds) == WriteCommand(cmds[0]) + WriteCommands(cmds[1..])
  {}

  lemma ReadBackNone(m: seq<byte>, off: nat)
    ensures ReadBack(m, [], off)
  {}

  lemma ReadBackCons(m: seq<byte>, cmds: seq<Command>, off: nat)
    requires cmds != [] && ReadCommand(m, off) == Some(Placed(cmds[0], off))
    requires NextCommand(m, off) == off + Size(cmds[0]) && ReadBack(m, cmds[1..], off + Size(cmds[0]))
    ensures ReadBack(m, cmds, off)
  {}

  lemma {:induction false} WrittenReadsBack(m: seq<byte>, cmds: seq<Command>, off: nat)
    requires AllWritable(cmds) && At(m, off, WriteCommands(cmds)) && |m| < U32
    ensures ReadBack(m, cmds, off)
  {
    hide At, WriteCommand, WriteCommands, AllWritable, Writable, ReadCommand, NextCommand, Placed, ReadBack, Size;
    if cmds == [] {
      ReadBackNone(m, off);
    } else {
      WriteCons(cmds);
      AtSplit(m, off, WriteCommand(cmds[0]), WriteCommands(cmds[1..]));
      CommandRead(m, off, cmds[0]);
      WrittenReadsBack(m, cmds[1..], off + Size(cmds[0]));
      ReadBackCons(m, cmds, off);
    }
  }

  lemma {:induction false} ReadBackCommands(m: seq<byte>, cmds: seq<Command>, off: nat)
    requires ReadBack(m, cmds, off)
    ensures Commands(m, |cmds|, off) == Some(AllPlaced(cmds, off))
  {
    hide ReadCommand, NextCommand, Placed, Size;
    if cmds != [] {
      ReadBackCommands(m, cmds[1..], off + Size(cmds[0]));
    }
  }

  /** Any list of load commands, written anywhere in a slice of 32-bit size, is read back: every
      field, section and position. */
  lemma CommandsRoundTrip(m: seq<byte>, cmds: seq<Command>, off: nat)
    requires AllWritable(cmds) && At(m, off, WriteCommands(cmds)) && |m| < U32
    ensures Commands(m, |cmds|, off) == Some(AllPlaced(cmds, off))
  {
    WrittenReadsBack(m, cmds, off);
    ReadBackCommands(m, cmds, off);
  }
}
