/** The walk over the load commands of a 32-bit Mach-O slice, from the bytes of the file to the
    table of VM ranges. */
module LoadCommands {
  import opened Words
  import opened MachO
  import opened BindOpcodes
  import opened BindPrograms
  import opened BindInterpreter

  // ------------------------------------------------------------- file layout

  const HEADER_SIZE: nat := 28
  const SEGMENT_SIZE: nat := 56
  const SECTION_SIZE: nat := 68
  const MAX_SEGS: nat := 16
  const MAX_RANGES: nat := 256

  /** A little-endian 32-bit field. */
  function U32At(m: seq<byte>, off: nat): uint32
    requires off + 4 <= |m|
  {
    var b0: int, b1: int, b2: int, b3: int := m[off], m[off + 1], m[off + 2], m[off + 3];
    b0 + 0x100 * b1 + 0x1_0000 * b2 + 0x100_0000 * b3
  }

  function Add32(a: nat, b: nat): uint32 {
    (a + b) % U32
  }

  function SectionAt(m: seq<byte>, off: nat): Section
    requires off + SECTION_SIZE <= |m|
  {
    Section(off, m[off..off + 16], U32At(m, off + 32), U32At(m, off + 36), U32At(m, off + 40), U32At(m, off + 56))
  }

  /** The segment command at `off` with the first `n` of its sections. */
  function SegmentAt(m: seq<byte>, off: nat, n: nat): Segment
    requires off + SEGMENT_SIZE + SECTION_SIZE * n <= |m|
  {
    Segment(off, m[off + 8..off + 24], U32At(m, off + 24), U32At(m, off + 28), U32At(m, off + 32), U32At(m, off + 36),
            seq(n, j requires 0 <= j < n => SectionAt(m, off + SEGMENT_SIZE + SECTION_SIZE * j)))
  }

  datatype Command =
    | SegmentCmd(seg: Segment)
    | SymtabCmd(symOff: uint32, symCount: uint32, strOff: uint32)
    | DysymtabCmd(extRelOff: uint32, extRelCount: uint32)
    | DyldInfoCmd(bindOff: uint32, bindSize: uint32)
    | OtherCmd

  /** The command number without the "required by dyld" bit. */
  function CommandKind(m: seq<byte>, off: nat): nat
    requires off + 4 <= |m|
  {
    U32At(m, off) % 0x8000_0000
  }

  function SectionCount(m: seq<byte>, off: nat): nat
    requires off + SEGMENT_SIZE <= |m|
  {
    U32At(m, off + 48)
  }

  predicate SegmentReadable(m: seq<byte>, off: nat) {
    off + SEGMENT_SIZE <= |m| && off + SEGMENT_SIZE + SECTION_SIZE * SectionCount(m, off) <= |m|
  }

  /** The command at `off`, or `None` when it does not lie in the mapping. */
  function ReadCommand(m: seq<byte>, off: nat): (r: Option<Command>)
    ensures r.Some? ==> off + 8 <= |m|
  {
    if off + 8 > |m| then None
    else
      var kind := CommandKind(m, off);
      if kind == 0x1 then
        if SegmentReadable(m, off) then Some(SegmentCmd(SegmentAt(m, off, SectionCount(m, off)))) else None
      else if kind == 0x2 then
        if off + 24 <= |m| then Some(SymtabCmd(U32At(m, off + 8), U32At(m, off + 12), U32At(m, off + 16))) else None
      else if kind == 0xB then
        if off + 80 <= |m| then Some(DysymtabCmd(U32At(m, off + 64), U32At(m, off + 68))) else None
      else if kind == 0x22 then
        if off + 48 <= |m| then Some(DyldInfoCmd(U32At(m, off + 16), U32At(m, off + 20))) else None
      else Some(OtherCmd)
  }

  /** Where the next command is looked for: the cursor is a 32-bit address. */
  function NextCommand(m: seq<byte>, off: nat): uint32
    requires off + 8 <= |m|
  {
    Add32(off, U32At(m, off + 4))
  }

  /** `n` commands from `off` on, when all of them lie in the mapping. */
  function Commands(m: seq<byte>, n: nat, off: nat): (r: Option<seq<Command>>)
    ensures r.Some? ==> |r.value| == n
  {
    if n == 0 then Some([])
    else
      match ReadCommand(m, off)
      case None => None
      case Some(c) =>
        match Commands(m, n - 1, NextCommand(m, off))
        case None => None
        case Some(rest) => Some([c] + rest)
  }

  /** The LC_SEGMENT commands, in file order. */
  function Segments(cmds: seq<Command>): seq<Segment> {
    if cmds == [] then []
    else
      var last := cmds[|cmds| - 1];
      Segments(cmds[..|cmds| - 1]) + if last.SegmentCmd? then [last.seg] else []
  }

  /** The library fields that the other commands set: the last command of a kind wins. */
  datatype Tables = Tables(
    symOff: uint32, symCount: uint32, strOff: uint32,
    extRelOff: uint32, extRelCount: uint32,
    hasDyldInfo: bool, bindOff: uint32, bindSize: uint32)

  /** A library record in static storage. */
  const NO_TABLES := Tables(0, 0, 0, 0, 0, false, 0, 0)

  function Apply(c: Command, t: Tables): Tables {
    match c
    case SymtabCmd(symOff, symCount, strOff) => t.(symOff := symOff, symCount := symCount, strOff := strOff)
    case DysymtabCmd(off, count) => t.(extRelOff := off, extRelCount := count)
    case DyldInfoCmd(off, size) => t.(hasDyldInfo := true, bindOff := off, bindSize := size)
    case _ => t
  }

  function ApplyAll(cmds: seq<Command>, t: Tables): Tables {
    if cmds == [] then t else Apply(cmds[|cmds| - 1], ApplyAll(cmds[..|cmds| - 1], t))
  }

  /** The fields of the library are those of the last command of each kind, or as they were. */
  lemma {:induction false} LastCommandWins(cmds: seq<Command>, t: Tables, k: nat)
    requires k < |cmds|
    ensures cmds[k].SymtabCmd? && (forall l :: k < l < |cmds| ==> !cmds[l].SymtabCmd?) ==>
      var t', c := ApplyAll(cmds, t), cmds[k];
      t'.symOff == c.symOff && t'.symCount == c.symCount && t'.strOff == c.strOff
    ensures cmds[k].DysymtabCmd? && (forall l :: k < l < |cmds| ==> !cmds[l].DysymtabCmd?) ==>
      var t', c := ApplyAll(cmds, t), cmds[k];
      t'.extRelOff == c.extRelOff && t'.extRelCount == c.extRelCount
    ensures cmds[k].DyldInfoCmd? && (forall l :: k < l < |cmds| ==> !cmds[l].DyldInfoCmd?) ==>
      var t', c := ApplyAll(cmds, t), cmds[k];
      t'.hasDyldInfo && t'.bindOff == c.bindOff && t'.bindSize == c.bindSize
    decreases |cmds|
  {
    var init := cmds[..|cmds| - 1];
    if k < |init| {
      assert forall l :: k < l < |init| ==> init[l] == cmds[l];
      LastCommandWins(init, t, k);
    }
  }

  lemma {:induction false} NoCommandNoChange(cmds: seq<Command>, t: Tables)
    ensures var t' := ApplyAll(cmds, t);
      && ((forall k :: 0 <= k < |cmds| ==> !cmds[k].SymtabCmd?) ==>
            t'.symOff == t.symOff && t'.symCount == t.symCount && t'.strOff == t.strOff)
      && ((forall k :: 0 <= k < |cmds| ==> !cmds[k].DysymtabCmd?) ==>
            t'.extRelOff == t.extRelOff && t'.extRelCount == t.extRelCount)
      && ((forall k :: 0 <= k < |cmds| ==> !cmds[k].DyldInfoCmd?) ==>
            t'.hasDyldInfo == t.hasDyldInfo && t'.bindOff == t.bindOff && t'.bindSize == t.bindSize)
    decreases |cmds|
  {
    if cmds != [] {
      NoCommandNoChange(cmds[..|cmds| - 1], t);
    }
  }

  // --------------------------------------------------------------- VM ranges

  datatype VmRange = VmRange(
    isMapped: bool,
    vmBegin: nat, vmEnd: nat,
    mapBegin: nat, mapEnd: nat,
    segment: nat, section: nat,
    segmentIdx: nat, sectionIdx: nat)

  predicate IsMapped(seg: Segment, s: Section) {
    seg.filesize != 0 && s.flags % 0x100 != 0x1
  }

  /** The range of section `j` of segment command `i`. */
  function MakeRange(i: nat, j: nat, seg: Segment, s: Section): VmRange {
    VmRange(IsMapped(seg, s), s.addr, Add32(s.addr, s.size), s.offset, Add32(s.offset, s.size), seg.at, s.at, i, j)
  }

  /** The source's assertions about a section, in 32-bit sums. */
  predicate SectionChecks(seg: Segment, s: Section) {
    && seg.vmaddr <= s.addr <= Add32(seg.vmaddr, seg.vmsize)
    && Add32(s.addr, s.size) <= Add32(seg.vmaddr, seg.vmsize)
    && (IsMapped(seg, s) ==>
          && seg.fileoff <= s.offset <= Add32(seg.fileoff, seg.filesize)
          && Add32(s.offset, s.size) <= Add32(seg.fileoff, seg.filesize))
  }

  predicate SegmentChecks(seg: Segment, size: nat) {
    && Add32(seg.fileoff, seg.filesize) <= size
    && forall j :: 0 <= j < |seg.sections| ==> SectionChecks(seg, seg.sections[j])
  }

  function SegmentRanges(i: nat, seg: Segment): seq<VmRange> {
    seq(|seg.sections|, j requires 0 <= j < |seg.sections| => MakeRange(i, j, seg, seg.sections[j]))
  }

  /** The table of all ranges. */
  function Ranges(segs: seq<Segment>): seq<VmRange> {
    if segs == [] then []
    else Ranges(segs[..|segs| - 1]) + SegmentRanges(|segs| - 1, segs[|segs| - 1])
  }

  predicate Separated(a: VmRange, b: VmRange) {
    a.vmEnd <= b.vmBegin || b.vmEnd <= a.vmBegin
  }

  predicate SeparatedAt(table: seq<VmRange>, k: nat, l: nat)
    requires k < |table| && l < |table|
  {
    Separated(table[l], table[k])
  }

  predicate AllSeparated(table: seq<VmRange>) {
    forall k: nat, l: nat :: k < l < |table| ==> SeparatedAt(table, k, l)
  }

  lemma SeparatedPrefix(a: seq<VmRange>, b: seq<VmRange>)
    requires a <= b && AllSeparated(b)
    ensures AllSeparated(a)
  {
    forall k: nat, l: nat | k < l < |a|
      ensures SeparatedAt(a, k, l)
    {
      assert SeparatedAt(b, k, l);
    }
  }

  /** The newest range against all older ones. */
  predicate SeparatedFromAll(table: seq<VmRange>, range: VmRange) {
    forall k :: 0 <= k < |table| ==> Separated(range, table[k])
  }

  lemma SeparatedAppend(table: seq<VmRange>, range: VmRange)
    ensures AllSeparated(table + [range]) <==> AllSeparated(table) && SeparatedFromAll(table, range)
  {
    var more := table + [range];
    if AllSeparated(more) {
      SeparatedPrefix(table, more);
      forall k: nat | k < |table|
        ensures Separated(range, table[k])
      {
        assert SeparatedAt(more, k, |table|);
      }
    }
    if AllSeparated(table) && SeparatedFromAll(table, range) {
      forall k: nat, l: nat | k < l < |more|
        ensures SeparatedAt(more, k, l)
      {
        assert l < |table| ==> SeparatedAt(table, k, l);
        assert l == |table| ==> Separated(range, table[k]);
      }
    }
  }

  /** A section that is not read from the file is taken wherever its file fields point. */
  lemma ZeroFillAccepted(seg: Segment, s: Section)
    requires seg.filesize == 0 || s.flags % 0x100 == 0x1
    ensures SectionChecks(seg, s) <==>
      seg.vmaddr <= s.addr <= (seg.vmaddr + seg.vmsize) % 0x1_0000_0000 &&
      (s.addr + s.size) % 0x1_0000_0000 <= (seg.vmaddr + seg.vmsize) % 0x1_0000_0000
  {}

  /** Of every other section, whatever its type, the three file checks are demanded as well. */
  lemma FileChecksDemanded(seg: Segment, s: Section)
    requires seg.filesize > 0 && s.flags % 0x100 != 0x1
    ensures SectionChecks(seg, s) <==>
      seg.vmaddr <= s.addr <= (seg.vmaddr + seg.vmsize) % 0x1_0000_0000 &&
      (s.addr + s.size) % 0x1_0000_0000 <= (seg.vmaddr + seg.vmsize) % 0x1_0000_0000 &&
      seg.fileoff <= s.offset <= (seg.fileoff + seg.filesize) % 0x1_0000_0000 &&
      (s.offset + s.size) % 0x1_0000_0000 <= (seg.fileoff + seg.filesize) % 0x1_0000_0000
  {}

  /** What the walk demands of the segments it has seen. */
  predicate Accepted(segs: seq<Segment>, size: nat) {
    && |segs| <= MAX_SEGS
    && |Ranges(segs)| <= MAX_RANGES
    && (forall i :: 0 <= i < |segs| ==> SegmentChecks(segs[i], size))
    && AllSeparated(Ranges(segs))
  }

  /** The limits of the source's arrays, and the order of checks, in numbers. */
  lemma AcceptedExactly(segs: seq<Segment>, size: nat)
    ensures Accepted(segs, size) <==>
      && |segs| <= 16 && |Ranges(segs)| <= 256
      && (forall i :: 0 <= i < |segs| ==> (segs[i].fileoff + segs[i].filesize) % 0x1_0000_0000 <= size)
      && (forall i, j :: 0 <= i < |segs| && 0 <= j < |segs[i].sections| ==> SectionChecks(segs[i], segs[i].sections[j]))
      && (forall k: nat, l: nat :: k < l < |Ranges(segs)| ==> Apart(Ranges(segs), k, l))
  {
    hide Ranges, SectionChecks;
    if AllSeparated(Ranges(segs)) {
      forall k: nat, l: nat | k < l < |Ranges(segs)|
        ensures Apart(Ranges(segs), k, l)
      {
        assert SeparatedAt(Ranges(segs), k, l);
      }
    }
    if forall k: nat, l: nat :: k < l < |Ranges(segs)| ==> Apart(Ranges(segs), k, l) {
      forall k: nat, l: nat | k < l < |Ranges(segs)|
        ensures SeparatedAt(Ranges(segs), k, l)
      {
        assert Apart(Ranges(segs), k, l);
      }
    }
  }

  /** One of two ranges ends before the other begins. */
  predicate Apart(table: seq<VmRange>, k: nat, l: nat)
    requires k < |table| && l < |table|
  {
    table[k].vmEnd <= table[l].vmBegin || table[l].vmEnd <= table[k].vmBegin
  }

  predicate HeaderOk(m: seq<byte>) {
    && HEADER_SIZE <= |m|
    && U32At(m, 0) == 0xFEED_FACE
    && U32At(m, 4) == 7
    && U32At(m, 8) == 3
    && (U32At(m, 12) == 6 || U32At(m, 12) == 2)
  }

  function CommandCount(m: seq<byte>): nat
    requires HeaderOk(m)
  {
    U32At(m, 16)
  }

  /** The position, relative to a mapping at `base`, of the 32-bit pointer `base + off`. */
  function Position(base: uint32, off: nat): int {
    Add32(base, off) - base
  }

  /** What the decoder makes of the bind stream of a slice mapped at `base`. */
  function BindRunOf(m: seq<byte>, base: uint32, segs: seq<Segment>, t: Tables): Result {
    RunAt(Env(Segs32(segs), []), m, Position(base, t.bindOff), Position(base, t.bindOff + t.bindSize), INIT_REGS)
  }

  lemma PositionInside(base: uint32, off: nat)
    requires base + off < U32
    ensures Position(base, off) == off
  {}

  lemma RunAtInside(env: Env, m: seq<byte>, start: nat, end: nat, r: Regs)
    requires start <= end <= |m|
    ensures RunAt(env, m, start, end, r) == Run(env, m[start..end], m[end..], r)
  {}

  /** Of a stream that lies in the mapping it makes what the bytes say. */
  lemma BindStreamMapped(m: seq<byte>, base: uint32, segs: seq<Segment>, t: Tables)
    requires base + |m| < U32 && t.bindOff + t.bindSize <= |m|
    ensures BindRunOf(m, base, segs, t) ==
      Run(Env(Segs32(segs), []), m[t.bindOff..t.bindOff + t.bindSize], m[t.bindOff + t.bindSize..], INIT_REGS)
  {
    hide BindOpcodes.RunAt, BindOpcodes.Run;
    PositionInside(base, t.bindOff);
    PositionInside(base, t.bindOff + t.bindSize);
    RunAtInside(Env(Segs32(segs), []), m, t.bindOff, t.bindOff + t.bindSize, INIT_REGS);
  }

  /** A stream whose end wraps 2^32 is empty. */
  lemma WrappedEnd(m: seq<byte>, base: uint32, segs: seq<Segment>, t: Tables)
    requires base + |m| < 0x1_0000_0000 && t.bindOff <= |m|
    requires base + t.bindOff + t.bindSize >= 0x1_0000_0000
    ensures BindRunOf(m, base, segs, t) == Result(Exhausted, INIT_REGS, [])
  {
    PositionInside(base, t.bindOff);
    assert Position(base, t.bindOff + t.bindSize) == t.bindOff + t.bindSize - U32;
  }

  /** A stream that goes on behind the mapping decodes like its part in the mapping if that halts, and
      is undefined otherwise. */
  lemma StreamPastMapping(m: seq<byte>, base: uint32, segs: seq<Segment>, t: Tables)
    requires base + t.bindOff + t.bindSize < 0x1_0000_0000 && t.bindOff <= |m| < t.bindOff + t.bindSize
    ensures var env, s := Env(Segs32(segs), []), m[t.bindOff..];
      if HaltEnd(s, []).Some? then BindRunOf(m, base, segs, t) == Run(env, s, [], INIT_REGS)
      else BindRunOf(m, base, segs, t).outcome == Undefined
  {
    hide Run, HaltEnd, Position;
    PositionInside(base, t.bindOff);
    PositionInside(base, t.bindOff + t.bindSize);
    HaltOutcomes(Env(Segs32(segs), []), m[t.bindOff..], [], INIT_REGS);
    if t.bindOff == |m| {
      NothingHalts();
    }
  }

  lemma NothingHalts()
    ensures forall tail :: HaltEnd([], tail) == None
  {}

  /** The outcome of decoding such a stream, by its bytes. */
  lemma MappedOutcome(m: seq<byte>, base: uint32, segs: seq<Segment>, t: Tables)
    requires base + |m| < U32 && t.bindOff + t.bindSize <= |m|
    ensures var s, tail := m[t.bindOff..t.bindOff + t.bindSize], m[t.bindOff + t.bindSize..];
      var run, halt := BindRunOf(m, base, segs, t), HaltEnd(s, tail);
      run == Run(Env(Segs32(segs), []), s, tail, INIT_REGS) &&
      (run.outcome == Undefined ||
       run.outcome == match halt
         case Some(k) => if s[k - 1] >= 0xD0 then BadOpcode else Finished
         case None => Exhausted)
  {
    hide Run, RunAt, BindRunOf, HaltEnd;
    BindStreamMapped(m, base, segs, t);
    HaltOutcomes(Env(Segs32(segs), []), m[t.bindOff..t.bindOff + t.bindSize], m[t.bindOff + t.bindSize..], INIT_REGS);
  }

  /** The slices that the walk gets through without a failed assertion or an undefined step. */
  predicate Loads(m: seq<byte>, base: uint32, size: nat, t: Tables) {
    && HeaderOk(m)
    && var cmds := Commands(m, CommandCount(m), HEADER_SIZE);
       cmds.Some? && Accepted(Segments(cmds.value), size) &&
       var t' := ApplyAll(cmds.value, t);
       t'.hasDyldInfo ==> BindRunOf(m, base, Segments(cmds.value), t').outcome != Undefined
  }

  // ---------------------------------------------------------------- the walk

  /** The Mach-O part of `library_info_t`: the slice, mapped at `base`, and what the walk finds in
      it. */
  class MachoLibrary {
    const image: seq<byte>
    const base: uint32
    const size: nat
    var tables: Tables
    const vmranges: array<VmRange>
    var vmrangeCount: nat
    const bind: BindInfo

    ghost predicate Valid()
      reads this
    {
      vmranges.Length == MAX_RANGES && vmrangeCount <= MAX_RANGES && base + |image| < U32
    }

    /** The ranges recorded so far. */
    ghost function Table(): seq<VmRange>
      requires Valid()
      reads this, vmranges
    {
      vmranges[..vmrangeCount]
    }

    /** A library record in static storage: all zero. */
    constructor (image: seq<byte>, base: uint32, size: nat)
      requires base + |image| < U32
      ensures this.image == image && this.base == base && this.size == size && Valid() && Table() == []
      ensures tables == NO_TABLES
      ensures fresh(vmranges) && fresh(bind) && bind.ndbi == 0
    {
      this.image, this.base, this.size := image, base, size;
      tables := NO_TABLES;
      vmranges := new VmRange[MAX_RANGES](_ => VmRange(false, 0, 0, 0, 0, 0, 0, 0, 0));
      vmrangeCount := 0;
      bind := new BindInfo();
    }

    /** The newest range against all older ones. */
    method NewestSeparated() returns (ok: bool)
      requires Valid() && vmrangeCount > 0
      ensures ok <==> forall k :: 0 <= k < vmrangeCount - 1 ==> Separated(vmranges[vmrangeCount - 1], vmranges[k])
    {
      var lo1 := vmranges[vmrangeCount - 1].vmBegin;
      var hi1 := vmranges[vmrangeCount - 1].vmEnd;
      for k := 0 to vmrangeCount - 1
        invariant forall l :: 0 <= l < k ==> Separated(vmranges[vmrangeCount - 1], vmranges[l])
      {
        var lo2, hi2 := vmranges[k].vmBegin, vmranges[k].vmEnd;
        if !(hi1 <= lo2 || hi2 <= lo1) {
          return false;
        }
      }
      ok := true;
    }

    /** Records one section; `ok` when the source's assertions hold. */
    method AddSection(nsegs: nat, j: nat, seg: Segment, s: Section) returns (ok: bool)
      requires Valid() && AllSeparated(Table())
      modifies this`vmrangeCount, vmranges
      ensures Valid()
      ensures ok <==> |old(Table())| < MAX_RANGES && SectionChecks(seg, s) &&
                      AllSeparated(old(Table()) + [MakeRange(nsegs, j, seg, s)])
      ensures ok ==> Table() == old(Table()) + [MakeRange(nsegs, j, seg, s)]
    {
      if vmrangeCount >= MAX_RANGES {
        return false;
      }
      var isMapped := seg.filesize != 0 && s.flags % 0x100 != 0x1;
      var vmEnd, mapEnd := Add32(s.addr, s.size), Add32(s.offset, s.size);
      var segEnd, fileEnd := Add32(seg.vmaddr, seg.vmsize), Add32(seg.fileoff, seg.filesize);
      if !(s.addr >= seg.vmaddr && s.addr <= segEnd && vmEnd <= segEnd) {
        return false;
      }
      if isMapped && !(s.offset >= seg.fileoff && s.offset <= fileEnd && mapEnd <= fileEnd) {
        return false;
      }
      ghost var before := Table();
      vmranges[vmrangeCount] := VmRange(isMapped, s.addr, vmEnd, s.offset, mapEnd, seg.at, s.at, nsegs, j);
      vmrangeCount := vmrangeCount + 1;
      assert Table() == before + [MakeRange(nsegs, j, seg, s)];
      SeparatedAppend(before, MakeRange(nsegs, j, seg, s));
      ok := NewestSeparated();
      assert forall k :: 0 <= k < |before| ==> vmranges[k] == before[k];
    }

    /** The LC_SEGMENT command at `off`, section by section. */
    method AddSegment(off: nat, nsegs: nat) returns (ok: bool)
      requires Valid() && AllSeparated(Table())
      modifies this`vmrangeCount, vmranges
      ensures Valid()
      ensures ok <==> SegmentReadable(image, off) &&
                      SegmentFits(image, off, SectionCount(image, off), size, old(Table()), nsegs)
      ensures ok ==>
        Table() == old(Table()) + SegmentRanges(nsegs, SegmentAt(image, off, SectionCount(image, off)))
    {
      if off + SEGMENT_SIZE > |image| {
        return false;
      }
      ghost var before := Table();
      var seg := SegmentAt(image, off, 0);
      if Add32(seg.fileoff, seg.filesize) > size {
        return false;
      }
      var nsects := SectionCount(image, off);
      var sectAddr := off + SEGMENT_SIZE;
      assert before + [] == before;
      for j := 0 to nsects
        invariant Valid() && sectAddr == off + SEGMENT_SIZE + SECTION_SIZE * j
        invariant SegmentFits(image, off, j, size, before, nsegs)
        invariant Table() == before + SegmentRanges(nsegs, SegmentAt(image, off, j))
      {
        if SegmentReadable(image, off) {
          FitsFewer(image, off, j + 1, nsects, size, before, nsegs);
        }
        if sectAddr + SECTION_SIZE > |image| {
          return false;
        }
        FitsNext(image, off, j, size, before, nsegs);
        ok := AddSection(nsegs, j, seg, SectionAt(image, sectAddr));
        if !ok {
          return;
        }
        sectAddr := sectAddr + SECTION_SIZE;
      }
      ok := true;
    }

    /** The LC_SEGMENT command at `off` joins the segments before it. */
    method WalkSegment(off: nat, segs: seq<Segment>) returns (ok: bool, segs': seq<Segment>)
      requires Valid() && Table() == Ranges(segs) && Accepted(segs, size)
      modifies this`vmrangeCount, vmranges
      ensures Valid()
      ensures ok <==> SegmentReadable(image, off) &&
                      Accepted(segs + [SegmentAt(image, off, SectionCount(image, off))], size)
      ensures ok ==> segs' == segs + [SegmentAt(image, off, SectionCount(image, off))] && Table() == Ranges(segs')
    {
      segs' := segs;
      ok := AddSegment(off, |segs|);
      if SegmentReadable(image, off) {
        var seg := SegmentAt(image, off, SectionCount(image, off));
        AcceptedAppend(segs, seg, size);
        ok := ok && |segs| < MAX_SEGS;
        segs' := segs + [seg];
      }
    }

    /** Any other command at `off` only sets fields. */
    method WalkOther(off: nat) returns (ok: bool)
      requires off + 8 <= |image| && CommandKind(image, off) != 0x1
      modifies this`tables
      ensures ok <==> ReadCommand(image, off).Some?
      ensures ok ==> var c := ReadCommand(image, off).value; !c.SegmentCmd? && tables == Apply(c, old(tables))
    {
      var kind := CommandKind(image, off);
      if kind == 0x2 {
        if off + 24 > |image| {
          return false;
        }
        tables := tables.(symOff := U32At(image, off + 8), symCount := U32At(image, off + 12),
                          strOff := U32At(image, off + 16));
      } else if kind == 0xB {
        if off + 80 > |image| {
          return false;
        }
        tables := tables.(extRelOff := U32At(image, off + 64), extRelCount := U32At(image, off + 68));
      } else if kind == 0x22 {
        if off + 48 > |image| {
          return false;
        }
        tables := tables.(hasDyldInfo := true, bindOff := U32At(image, off + 16), bindSize := U32At(image, off + 20));
      }
      ok := true;
    }

    /** The command at `off`, after the commands `done`. */
    method WalkCommand(off: nat, segs: seq<Segment>, ghost done: seq<Command>) returns (ok: bool, segs': seq<Segment>)
      requires Valid() && segs == Segments(done) && Table() == Ranges(segs) && Accepted(segs, size)
      modifies this`vmrangeCount, this`tables, vmranges
      ensures Valid()
      ensures ok <==> ReadCommand(image, off).Some? && Accepted(Segments(done + [ReadCommand(image, off).value]), size)
      ensures ok ==>
        var c := ReadCommand(image, off).value;
        segs' == Segments(done + [c]) && Table() == Ranges(segs') && tables == Apply(c, old(tables))
    {
      hide Accepted, Segments, Ranges, SegmentAt, U32At;
      if off + 8 > |image| {
        return false, segs;
      }
      if CommandKind(image, off) == 0x1 {
        ok, segs' := WalkSegment(off, segs);
        if SegmentReadable(image, off) {
          AppendSegment(done, SegmentAt(image, off, SectionCount(image, off)));
        }
      } else {
        segs' := segs;
        ok := WalkOther(off);
        if ok {
          AppendOther(done, ReadCommand(image, off).value);
        }
      }
    }

    /** All commands in turn; `segs` are the segment commands among them. */
    method WalkCommands(ncmds: nat) returns (ok: bool, segs: seq<Segment>)
      requires Valid()
      modifies this`vmrangeCount, this`tables, vmranges
      ensures Valid()
      ensures ok <==> Commands(image, ncmds, HEADER_SIZE).Some? &&
                      Accepted(Segments(Commands(image, ncmds, HEADER_SIZE).value), size)
      ensures ok ==>
        var cmds := Commands(image, ncmds, HEADER_SIZE).value;
        segs == Segments(cmds) && Table() == Ranges(segs) && tables == ApplyAll(cmds, old(tables))
    {
      segs := [];
      vmrangeCount := 0;
      var off: nat := HEADER_SIZE;
      ghost var done: seq<Command> := [];
      WalkStarts(image, ncmds, old(tables));
      for i := 0 to ncmds
        invariant Valid() && |done| == i
        invariant Walked(image, ncmds, old(tables), done, off, tables)
        invariant segs == Segments(done) && Table() == Ranges(segs) && Accepted(segs, size)
      {
        ghost var t := tables;
        ok, segs := WalkCommand(off, segs, done);
        if !ok {
          WalkStops(image, ncmds, size, old(tables), done, off, t);
          return;
        }
        WalkStep(image, ncmds, old(tables), done, off, t, ReadCommand(image, off).value);
        done := done + [ReadCommand(image, off).value];
        off := NextCommand(image, off);
      }
      WalkEnds(image, ncmds, old(tables), done, off, tables);
      ok := true;
    }

    /** Decodes the bind stream, when the image has one. */
    method DecodeBinds(segs: seq<Segment>) returns (ok: bool)
      modifies bind
      ensures ok <==> (tables.hasDyldInfo ==> BindRunOf(image, base, segs, tables).outcome != Undefined)
      ensures if tables.hasDyldInfo && BindRunOf(image, base, segs, tables).outcome in {Finished, Exhausted} then
                bind.ndbi == bind.dbi.Length && bind.dbi[..] == BindRunOf(image, base, segs, tables).recs
              else bind.ndbi == old(bind.ndbi) && bind.dbi == old(bind.dbi)
    {
      ok := true;
      if tables.hasDyldInfo {
        var start, end := Position(base, tables.bindOff), Position(base, tables.bindOff + tables.bindSize);
        var outcome, _ := GetDyldBindInfo(Env(Segs32(segs), []), image, start, end, bind);
        ok := outcome != Undefined;
      }
    }

    /** Everything the walk makes of a Mach-O slice.  It succeeds exactly on the slices that
        load, and then the fields hold what the commands of the file say. */
    method SymtabMachoInit() returns (ok: bool)
      requires Valid()
      modifies this`vmrangeCount, this`tables, vmranges, bind
      ensures Valid()
      ensures ok <==> Loads(image, base, size, old(tables))
      ensures ok ==>
        var cmds := Commands(image, CommandCount(image), HEADER_SIZE).value;
        Table() == Ranges(Segments(cmds)) && tables == ApplyAll(cmds, old(tables)) &&
        if tables.hasDyldInfo && BindRunOf(image, base, Segments(cmds), tables).outcome in {Finished, Exhausted} then
          bind.ndbi == bind.dbi.Length && bind.dbi[..] == BindRunOf(image, base, Segments(cmds), tables).recs
        else bind.ndbi == old(bind.ndbi) && bind.dbi == old(bind.dbi)
      ensures ok && tables.hasDyldInfo && tables.bindOff + tables.bindSize <= |image| ==>
        var end := tables.bindOff + tables.bindSize;
        var s, tail := image[tables.bindOff..end], image[end..];
        var segs, halt := Segments(Commands(image, CommandCount(image), HEADER_SIZE).value), HaltEnd(s, tail);
        if halt.Some? && s[halt.value - 1] >= 0xD0 then bind.ndbi == old(bind.ndbi) && bind.dbi == old(bind.dbi)
        else bind.ndbi == bind.dbi.Length && bind.dbi[..] == Run(Env(Segs32(segs), []), s, tail, INIT_REGS).recs
    {
      hide Accepted, Segments, Ranges, Commands, ApplyAll, Run, RunAt, BindRunOf, HaltEnd;
      if !HeaderOk(image) {
        return false;
      }
      var segs;
      ok, segs := WalkCommands(CommandCount(image));
      if ok {
        if tables.bindOff + tables.bindSize <= |image| {
          MappedOutcome(image, base, segs, tables);
        }
        ok := DecodeBinds(segs);
      }
    }
  }

  /** The first `n` sections of the segment command at `off` lie in the mapping, pass their checks
      and extend the table `before` without an overlap. */
  ghost predicate SegmentFits(m: seq<byte>, off: nat, n: nat, size: nat, before: seq<VmRange>, i: nat) {
    && off + SEGMENT_SIZE + SECTION_SIZE * n <= |m|
    && |before| + n <= MAX_RANGES
    && SegmentChecks(SegmentAt(m, off, n), size)
    && AllSeparated(before + SegmentRanges(i, SegmentAt(m, off, n)))
  }

  lemma FitsNext(m: seq<byte>, off: nat, j: nat, size: nat, before: seq<VmRange>, i: nat)
    requires SegmentFits(m, off, j, size, before, i)
    requires off + SEGMENT_SIZE + SECTION_SIZE * (j + 1) <= |m|
    ensures var s := SectionAt(m, off + SEGMENT_SIZE + SECTION_SIZE * j);
      var range := MakeRange(i, j, SegmentAt(m, off, 0), s);
      var table := before + SegmentRanges(i, SegmentAt(m, off, j));
      table + [range] == before + SegmentRanges(i, SegmentAt(m, off, j + 1)) &&
      (SegmentFits(m, off, j + 1, size, before, i) <==>
       |table| < MAX_RANGES && SectionChecks(SegmentAt(m, off, 0), s) && AllSeparated(table + [range]))
  {
    var part, next := SegmentAt(m, off, j), SegmentAt(m, off, j + 1);
    var s := next.sections[j];
    assert next.sections == part.sections + [s];
    assert SegmentRanges(i, next) == SegmentRanges(i, part) + [MakeRange(i, j, SegmentAt(m, off, 0), s)];
    var range := MakeRange(i, j, SegmentAt(m, off, 0), s);
    assert before + (SegmentRanges(i, part) + [range]) == (before + SegmentRanges(i, part)) + [range];
    assert SegmentChecks(next, size) <==> SectionChecks(next, s) by {
      assert forall k :: 0 <= k < j ==> next.sections[k] == part.sections[k];
    }
    assert SectionChecks(next, s) <==> SectionChecks(SegmentAt(m, off, 0), s);
  }

  lemma FitsFewer(m: seq<byte>, off: nat, j: nat, n: nat, size: nat, before: seq<VmRange>, i: nat)
    requires j <= n && off + SEGMENT_SIZE + SECTION_SIZE * n <= |m|
    ensures SegmentFits(m, off, n, size, before, i) ==> SegmentFits(m, off, j, size, before, i)
  {
    var part, whole := SegmentAt(m, off, j), SegmentAt(m, off, n);
    assert forall k :: 0 <= k < j ==> whole.sections[k] == part.sections[k];
    if SegmentFits(m, off, n, size, before, i) {
      SeparatedPrefix(before + SegmentRanges(i, part), before + SegmentRanges(i, whole));
    }
  }

  /** Commands already walked, before those still to come. */
  function Prepend(done: seq<Command>, rest: Option<seq<Command>>): Option<seq<Command>> {
    match rest
    case None => None
    case Some(r) => Some(done + r)
  }

  lemma PrependNothing(rest: Option<seq<Command>>)
    ensures Prepend([], rest) == rest
  {
    if rest.Some? {
      assert [] + rest.value == rest.value;
    }
  }

  lemma AppendSegment(done: seq<Command>, seg: Segment)
    ensures Segments(done + [SegmentCmd(seg)]) == Segments(done) + [seg]
  {}

  lemma AppendOther(done: seq<Command>, c: Command)
    requires !c.SegmentCmd?
    ensures Segments(done + [c]) == Segments(done)
  {}

  lemma RangesAppend(segs: seq<Segment>, seg: Segment)
    ensures Ranges(segs + [seg]) == Ranges(segs) + SegmentRanges(|segs|, seg)
  {}

  /** One more segment is accepted when it fits, passes its checks and overlaps nothing. */
  lemma AcceptedAppend(segs: seq<Segment>, seg: Segment, size: nat)
    ensures Accepted(segs + [seg], size) <==>
      Accepted(segs, size) && |segs| < MAX_SEGS && SegmentChecks(seg, size) &&
      |Ranges(segs)| + |seg.sections| <= MAX_RANGES && AllSeparated(Ranges(segs) + SegmentRanges(|segs|, seg))
    ensures Ranges(segs + [seg]) == Ranges(segs) + SegmentRanges(|segs|, seg)
  {
    var more := segs + [seg];
    RangesAppend(segs, seg);
    if AllSeparated(Ranges(more)) {
      SeparatedPrefix(Ranges(segs), Ranges(more));
    }
    assert more[|segs|] == seg;
    assert forall i :: 0 <= i < |segs| ==> more[i] == segs[i];
  }

  lemma ApplyAppend(done: seq<Command>, c: Command, t: Tables)
    ensures ApplyAll(done + [c], t) == Apply(c, ApplyAll(done, t))
  {}

  /** Dropping commands from the end keeps a walk accepted. */
  lemma {:induction false} AcceptedPrefix(done: seq<Command>, rest: seq<Command>, size: nat)
    requires Accepted(Segments(done + rest), size)
    ensures Accepted(Segments(done), size)
  {
    if rest == [] {
      assert done + rest == done;
    } else {
      var last, init := rest[|rest| - 1], rest[..|rest| - 1];
      assert done + rest == (done + init) + [last];
      if last.SegmentCmd? {
        AppendSegment(done + init, last.seg);
        AcceptedAppend(Segments(done + init), last.seg, size);
      } else {
        AppendOther(done + init, last);
      }
      AcceptedPrefix(done, init, size);
    }
  }

  /** The next command joins the ones done. */
  lemma JoinNext(m: seq<byte>, done: seq<Command>, n: nat, off: nat)
    requires n > 0
    ensures var c, all := ReadCommand(m, off), Prepend(done, Commands(m, n, off));
      if c.None? then all.None?
      else all == Prepend(done + [c.value], Commands(m, n - 1, NextCommand(m, off)))
  {
    var c := ReadCommand(m, off);
    if c.Some? && Commands(m, n - 1, NextCommand(m, off)).Some? {
      var rest := Commands(m, n - 1, NextCommand(m, off)).value;
      assert done + ([c.value] + rest) == (done + [c.value]) + rest;
    }
  }

  lemma NeverAccepted(done: seq<Command>, rest: Option<seq<Command>>, size: nat)
    requires !Accepted(Segments(done), size)
    ensures var all := Prepend(done, rest); all.None? || !Accepted(Segments(all.value), size)
  {
    if rest.Some? && Accepted(Segments(done + rest.value), size) {
      AcceptedPrefix(done, rest.value, size);
    }
  }

  /** After the commands `done` the walk stands at `off`, with these library fields. */
  ghost predicate Walked(m: seq<byte>, n: nat, t0: Tables, done: seq<Command>, off: nat, t: Tables) {
    && |done| <= n && t == ApplyAll(done, t0)
    && Commands(m, n, HEADER_SIZE) == Prepend(done, Commands(m, n - |done|, off))
  }

  lemma WalkStarts(m: seq<byte>, n: nat, t0: Tables)
    ensures Walked(m, n, t0, [], HEADER_SIZE, t0)
  {
    PrependNothing(Commands(m, n, HEADER_SIZE));
  }

  /** A command that can be read takes the walk one step further. */
  lemma WalkStep(m: seq<byte>, n: nat, t0: Tables, done: seq<Command>, off: nat, t: Tables, c: Command)
    requires Walked(m, n, t0, done, off, t) && |done| < n && ReadCommand(m, off) == Some(c)
    ensures Walked(m, n, t0, done + [c], NextCommand(m, off), Apply(c, t))
  {
    JoinNext(m, done, n - |done|, off);
    ApplyAppend(done, c, t0);
    assert |done + [c]| == |done| + 1;
  }

  /** When the next command cannot be read or is not accepted, no walk over all commands is. */
  lemma WalkStops(m: seq<byte>, n: nat, size: nat, t0: Tables, done: seq<Command>, off: nat, t: Tables)
    requires Walked(m, n, t0, done, off, t) && |done| < n
    requires var c := ReadCommand(m, off); c.Some? ==> !Accepted(Segments(done + [c.value]), size)
    ensures var all := Commands(m, n, HEADER_SIZE); all.None? || !Accepted(Segments(all.value), size)
  {
    hide Accepted, Segments, ReadCommand, NextCommand, Commands;
    JoinNext(m, done, n - |done|, off);
    var c := ReadCommand(m, off);
    if c.Some? {
      NeverAccepted(done + [c.value], Commands(m, n - |done| - 1, NextCommand(m, off)), size);
    }
  }

  lemma WalkEnds(m: seq<byte>, n: nat, t0: Tables, done: seq<Command>, off: nat, t: Tables)
    requires Walked(m, n, t0, done, off, t) && |done| == n
    ensures Commands(m, n, HEADER_SIZE) == Some(done)
  {
    assert done + [] == done;
  }
}
