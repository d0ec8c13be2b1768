/** What the parts give together for an image: sections of its bind records, and symbols of the
    addresses that its bind table names. */
module BoundImages {
  import opened Words
  import opened MachO
  import opened BindOpcodes
  import opened BindPrograms
  import opened BindTable
  import opened BindHistory
  import opened BindSections
  import opened LoadCommands
  import opened AddressMap
  import opened Relocations

  /** The segment register before instruction `k`. */
  function SegmentBefore(prog: seq<Instr>, k: nat): nibble
    requires k <= |prog|
  {
    match Latest(prog, BindHistory.PlaceColumn, k) case None => 0 case Some(j) => prog[j].seg
  }

  /** The bind stream of a slice at `base` lies in the mapping. */
  predicate StreamMapped(m: seq<byte>, base: uint32, t: Tables) {
    base + |m| < U32 && t.bindOff + t.bindSize <= |m|
  }

  function BindProgramOf(m: seq<byte>, t: Tables): seq<Instr>
    requires t.bindOff + t.bindSize <= |m|
  {
    Body(Program(m[t.bindOff..t.bindOff + t.bindSize], m[t.bindOff + t.bindSize..]))
  }

  /** The address of the first record of bind instruction `k`. */
  function FirstAddress(segs: seq<Segment>, body: seq<Instr>, k: nat): uint64
    requires k < |body|
  {
    AddressOf(Env(Segs32(segs), []), body, k, 0)
  }

  function StrideOf(segs: seq<Segment>, i: Instr): nat {
    Stride(Env(Segs32(segs), []), i)
  }

  lemma AddressStrides(env: Env, body: seq<Instr>, k: nat, u: nat)
    requires k < |body|
    ensures AddressOf(env, body, k, u) == Strides(AddressOf(env, body, k, 0), u, Stride(env, body[k]))
  {
    var base := AddressOf(env, body, k, 0);
    var place := Latest(body, BindHistory.PlaceColumn, k);
    var start := match place case None => 0 case Some(j) => SegStartAddress(env.segs, body[j].seg);
    assert 0 * Stride(env, body[k]) == 0;
    assert base == (start + OffsetBefore(env, body, k)) % U64;
    ModSum(start + OffsetBefore(env, body, k), u * Stride(env, body[k]));
  }

  lemma SlotFilled(m: seq<byte>, base: uint32, segs: seq<Segment>, t: Tables, k: nat, u: nat)
    requires StreamMapped(m, base, t)
    requires k < |BindProgramOf(m, t)| && u < Repeats(BindProgramOf(m, t)[k])
    ensures InSlot(Env(Segs32(segs), []), BindProgramOf(m, t), BindRunOf(m, base, segs, t).recs, k, u)
  {
    hide Program, Run, RunAt, Body, InSlot, Repeats;
    BindStreamMapped(m, base, segs, t);
    StickySemantics(Env(Segs32(segs), []), m[t.bindOff..t.bindOff + t.bindSize], m[t.bindOff + t.bindSize..]);
  }

  /** Where each record of an image lies and which section it is given: the records of one bind
      instruction stand in consecutive slots, a stride apart, and all carry the section that the VM
      ranges give the first of them, in the segment the place was last set in. */
  lemma RecordSection(m: seq<byte>, base: uint32, segs: seq<Segment>, t: Tables, k: nat, u: nat)
    requires AllSeparated(Ranges(segs)) && StreamMapped(m, base, t)
    requires k < |BindProgramOf(m, t)| && u < Repeats(BindProgramOf(m, t)[k])
    ensures var body, recs := BindProgramOf(m, t), BindRunOf(m, base, segs, t).recs;
      var slot, first := RecordsBefore(body, k) + u, FirstAddress(segs, body, k);
      slot < |recs| && recs[slot].address == Strides(first, u, StrideOf(segs, body[k])) &&
      recs[slot].sectname == RangeSectionName(segs, SegmentBefore(body, k), first)
  {
    var env, body := Env(Segs32(segs), []), BindProgramOf(m, t);
    SlotFilled(m, base, segs, t, k, u);
    AddressStrides(env, body, k, u);
    TwoLookupsAgree(segs, SegmentBefore(body, k), FirstAddress(segs, body, k));
  }

  /** Record `u` of bind instruction `k` lies in the VM range. */
  predicate LiesIn(recs: seq<Record>, body: seq<Instr>, k: nat, u: nat, range: VmRange)
    requires k < |body|
  {
    RecordsBefore(body, k) + u < |recs| && InRange(range, recs[RecordsBefore(body, k) + u].address)
  }

  /** Record `u` of bind instruction `k` carries the section of the VM range of its own address. */
  predicate NamedByRange(segs: seq<Segment>, recs: seq<Record>, body: seq<Instr>, k: nat, u: nat)
    requires k < |body|
  {
    && RecordsBefore(body, k) + u < |recs|
    && var rec := recs[RecordsBefore(body, k) + u];
       rec.sectname == RangeSectionName(segs, SegmentBefore(body, k), rec.address)
  }

  /** All records of bind instruction `k` do. */
  predicate NamedAll(segs: seq<Segment>, recs: seq<Record>, body: seq<Instr>, k: nat)
    requires k < |body|
  {
    forall u: nat :: u < Repeats(body[k]) ==> NamedByRange(segs, recs, body, k, u)
  }

  lemma FoundAgain(segs: seq<Segment>, first: nat, range: VmRange, addr: nat)
    requires AllSeparated(Ranges(segs)) && FindRange(Ranges(segs), first) == Some(range)
    ensures InRange(range, addr) <==> FindRange(Ranges(segs), addr) == Some(range)
    ensures range.vmEnd < U32
    ensures var i, j := range.segmentIdx, range.sectionIdx;
      Owns(segs, i, j, first) && range == MakeRange(i, j, segs[i], segs[i].sections[j])
  {
    RangeEnumeration(segs);
    var k := FindFrom(Ranges(segs), 0, first).value;
    assert RangeOf(segs, k, range.segmentIdx, range.sectionIdx);
    if InRange(range, addr) {
      AtMostOneRange(Ranges(segs), addr, k, FindFrom(Ranges(segs), 0, addr).value);
    }
  }

  /** The sections of the segment have different names. */
  predicate NamesDiffer(segs: seq<Segment>, seg: nat) {
    seg < |segs| && DistinctNames(segs[seg].sections)
  }

  /** Where the section names of a segment differ, an address has the name of a range of that segment
      exactly when it lies in the range. */
  lemma NameMeansRange(segs: seq<Segment>, first: uint64, range: VmRange, addr: uint64)
    requires AllSeparated(Ranges(segs)) && FindRange(Ranges(segs), first) == Some(range)
    ensures var seg := range.segmentIdx;
      var same := RangeSectionName(segs, seg, addr) == RangeSectionName(segs, seg, first);
      (InRange(range, addr) ==> same) && (NamesDiffer(segs, seg) && same ==> InRange(range, addr))
  {
    FoundAgain(segs, first, range, addr);
    var found := FindRange(Ranges(segs), addr);
    if found.Some? {
      FoundAgain(segs, addr, found.value, first);
    }
  }

  /** Only a repeated bind writes more than one record, and it spans less than 2^64. */
  lemma InstructionSpan(env: Env, i: Instr)
    requires Repeats(i) > 0
    ensures (Repeats(i) - 1) * Stride(env, i) < U64 && (Repeats(i) > 1 ==> Stride(env, i) < U32)
  {
    if i.DoBindTimes? {
      RunSpan(Repeats(i), Stride(env, i));
    }
  }

  /** A bind instruction whose first address lies in a VM range of its segment leaves all its records
      in that range if and only if the last address, as a plain sum, lies before the end of the range.
      Then every record carries the section of its own address; and where the names in the segment
      differ, only then. */
  lemma RunFromRange(m: seq<byte>, base: uint32, segs: seq<Segment>, t: Tables, k: nat, range: VmRange)
    requires AllSeparated(Ranges(segs)) && StreamMapped(m, base, t)
    requires k < |BindProgramOf(m, t)| && Repeats(BindProgramOf(m, t)[k]) > 0
    requires FindRange(Ranges(segs), FirstAddress(segs, BindProgramOf(m, t), k)) == Some(range)
    requires range.segmentIdx == SegmentBefore(BindProgramOf(m, t), k)
    ensures var body, recs := BindProgramOf(m, t), BindRunOf(m, base, segs, t).recs;
      var inside := forall u: nat :: u < Repeats(body[k]) ==> LiesIn(recs, body, k, u, range);
      (inside <==> FirstAddress(segs, body, k) + (Repeats(body[k]) - 1) * StrideOf(segs, body[k]) < range.vmEnd) &&
      (inside ==> NamedAll(segs, recs, body, k)) &&
      (NamesDiffer(segs, range.segmentIdx) ==> (NamedAll(segs, recs, body, k) ==> inside))
  {
    hide BindProgramOf, BindRunOf, RangeSectionName, Ranges, AllSeparated, Strides, Stride, Repeats, NamesDiffer;
    var body, recs := BindProgramOf(m, t), BindRunOf(m, base, segs, t).recs;
    var n, first, stride := Repeats(body[k]), FirstAddress(segs, body, k), StrideOf(segs, body[k]);
    InstructionSpan(Env(Segs32(segs), []), body[k]);
    FoundAgain(segs, first, range, first);
    StaysExactly(range.vmBegin, range.vmEnd, first, n, stride);
    forall u: nat | u < n
      ensures LiesIn(recs, body, k, u, range) <==> range.vmBegin <= Strides(first, u, stride) < range.vmEnd
      ensures LiesIn(recs, body, k, u, range) ==> NamedByRange(segs, recs, body, k, u)
      ensures NamesDiffer(segs, range.segmentIdx) ==>
        (NamedByRange(segs, recs, body, k, u) ==> LiesIn(recs, body, k, u, range))
    {
      RecordSection(m, base, segs, t, k, u);
      NameMeansRange(segs, first, range, Strides(first, u, stride));
    }
  }

  /** The run meets no VM range of the segment. */
  predicate MeetsNoRange(segs: seq<Segment>, seg: nat, a: uint64, n: nat, stride: nat) {
    forall k :: 0 <= k < |Ranges(segs)| && Ranges(segs)[k].segmentIdx == seg ==>
      !MeetsRange(Ranges(segs)[k], a, n, stride)
  }

  predicate MeetsRange(range: VmRange, a: uint64, n: nat, stride: nat) {
    Meets(range.vmBegin, range.vmEnd, a, n, stride)
  }

  lemma RangeMet(range: VmRange, a: uint64, n: nat, stride: nat)
    requires n > 0 && (n - 1) * stride < U64 && range.vmEnd < U32
    ensures MeetsRange(range, a, n, stride) <==> exists u: nat :: u < n && InRange(range, Strides(a, u, stride))
  {
    hide Meets, Strides;
    MeetsExactly(range.vmBegin, range.vmEnd, a, n, stride);
    if u: nat :| u < n && range.vmBegin <= Strides(a, u, stride) < range.vmEnd {
      assert InRange(range, Strides(a, u, stride));
    }
  }

  /** An address has no name in a segment exactly when no VM range of the segment holds it. */
  lemma NamelessMeansOutside(segs: seq<Segment>, seg: nat, addr: uint64)
    requires AllSeparated(Ranges(segs))
    ensures RangeSectionName(segs, seg, addr) == None <==>
      forall k :: 0 <= k < |Ranges(segs)| && Ranges(segs)[k].segmentIdx == seg ==> !InRange(Ranges(segs)[k], addr)
  {
    var f := FindFrom(Ranges(segs), 0, addr);
    if f.Some? {
      FoundAgain(segs, addr, Ranges(segs)[f.value], addr);
      forall k | 0 <= k < |Ranges(segs)| && InRange(Ranges(segs)[k], addr)
        ensures k == f.value
      {
        AtMostOneRange(Ranges(segs), addr, k, f.value);
      }
    }
  }

  lemma RangeEnds(segs: seq<Segment>, k: nat)
    requires k < |Ranges(segs)|
    ensures Ranges(segs)[k].vmEnd < U32
  {
    RangeEnumeration(segs);
    assert RangeOf(segs, k, Ranges(segs)[k].segmentIdx, Ranges(segs)[k].sectionIdx);
  }

  /** A run meets no range of the segment exactly when none of its addresses has a name in it. */
  lemma NamelessRun(segs: seq<Segment>, seg: nat, a: uint64, n: nat, stride: nat)
    requires AllSeparated(Ranges(segs)) && n > 0 && (n - 1) * stride < U64
    ensures MeetsNoRange(segs, seg, a, n, stride) <==>
      forall u: nat :: u < n ==> RangeSectionName(segs, seg, Strides(a, u, stride)) == None
  {
    hide MeetsRange, InRange, RangeSectionName, Strides, Ranges, AllSeparated;
    forall k: nat | k < |Ranges(segs)|
      ensures MeetsRange(Ranges(segs)[k], a, n, stride) <==>
        exists u: nat :: u < n && InRange(Ranges(segs)[k], Strides(a, u, stride))
    {
      RangeEnds(segs, k);
      RangeMet(Ranges(segs)[k], a, n, stride);
    }
    forall u: nat | u < n
      ensures RangeSectionName(segs, seg, Strides(a, u, stride)) == None <==>
        forall k :: 0 <= k < |Ranges(segs)| && Ranges(segs)[k].segmentIdx == seg ==>
          !InRange(Ranges(segs)[k], Strides(a, u, stride))
    {
      NamelessMeansOutside(segs, seg, Strides(a, u, stride));
    }
  }

  /** A bind instruction whose first address lies in no VM range of its segment writes records that
      all carry no section, and rightly so if and only if the run meets no range of the segment. */
  lemma RunFromNowhere(m: seq<byte>, base: uint32, segs: seq<Segment>, t: Tables, k: nat)
    requires AllSeparated(Ranges(segs)) && StreamMapped(m, base, t)
    requires k < |BindProgramOf(m, t)| && Repeats(BindProgramOf(m, t)[k]) > 0
    requires var body := BindProgramOf(m, t);
      RangeSectionName(segs, SegmentBefore(body, k), FirstAddress(segs, body, k)) == None
    ensures var body, recs := BindProgramOf(m, t), BindRunOf(m, base, segs, t).recs;
      NamedAll(segs, recs, body, k) <==>
      MeetsNoRange(segs, SegmentBefore(body, k), FirstAddress(segs, body, k), Repeats(body[k]), StrideOf(segs, body[k]))
  {
    hide MeetsNoRange, RangeSectionName, Strides, Stride, Ranges, AllSeparated, BindProgramOf, BindRunOf;
    var body, recs := BindProgramOf(m, t), BindRunOf(m, base, segs, t).recs;
    var seg, n, first, stride :=
      SegmentBefore(body, k), Repeats(body[k]), FirstAddress(segs, body, k), StrideOf(segs, body[k]);
    InstructionSpan(Env(Segs32(segs), []), body[k]);
    NamelessRun(segs, seg, first, n, stride);
    forall u: nat | u < n
      ensures NamedByRange(segs, recs, body, k, u) <==> RangeSectionName(segs, seg, Strides(first, u, stride)) == None
    {
      RecordSection(m, base, segs, t, k, u);
    }
  }

  /** What can be checked of a bind instruction before the run: one that starts in a VM range of its
      segment ends before the range does, and one that starts in none meets none. */
  predicate KeepsRange(segs: seq<Segment>, seg: nat, a: uint64, n: nat, stride: nat) {
    match FindRange(Ranges(segs), a)
    case Some(range) =>
      if range.segmentIdx == seg then a + (n - 1) * stride < range.vmEnd else MeetsNoRange(segs, seg, a, n, stride)
    case None => MeetsNoRange(segs, seg, a, n, stride)
  }

  /** When the section names of an image's bind records are right: wherever a bind instruction starts,
      all its records carry the sections of their own addresses if it keeps its range; and, where the
      section names of the segment differ or it starts in none, only then. */
  lemma RunSectionsExactly(m: seq<byte>, base: uint32, segs: seq<Segment>, t: Tables, k: nat)
    requires AllSeparated(Ranges(segs)) && StreamMapped(m, base, t)
    requires k < |BindProgramOf(m, t)| && Repeats(BindProgramOf(m, t)[k]) > 0
    ensures var body, recs := BindProgramOf(m, t), BindRunOf(m, base, segs, t).recs;
      var seg, first := SegmentBefore(body, k), FirstAddress(segs, body, k);
      var keeps := KeepsRange(segs, seg, first, Repeats(body[k]), StrideOf(segs, body[k]));
      (keeps ==> NamedAll(segs, recs, body, k)) &&
      (NamesDiffer(segs, seg) || RangeSectionName(segs, seg, first) == None ==>
         (NamedAll(segs, recs, body, k) ==> keeps))
  {
    hide MeetsNoRange, NamedAll, NamesDiffer, Stride, Ranges, AllSeparated, BindProgramOf, BindRunOf;
    var body := BindProgramOf(m, t);
    var seg, first := SegmentBefore(body, k), FirstAddress(segs, body, k);
    var start := FindRange(Ranges(segs), first);
    if start.Some? {
      FoundAgain(segs, first, start.value, first);
    }
    if start.Some? && start.value.segmentIdx == seg {
      RunFromRange(m, base, segs, t, k, start.value);
    } else {
      RunFromNowhere(m, base, segs, t, k);
    }
  }

  /** The address that a row binds. */
  function RowAddress(segs: seq<Segment>, row: Row): uint64 {
    (SegStartAddress(Segs32(segs), row.seg) + row.offset) % U64
  }

  /** The first row from `k` on that binds the address. */
  function FirstRow(segs: seq<Segment>, rows: seq<Row>, k: nat, addr: uint64): (r: Option<nat>)
    ensures r.Some? ==> k <= r.value < |rows| && RowAddress(segs, rows[r.value]) == addr
    ensures r.Some? ==> forall l :: k <= l < r.value ==> RowAddress(segs, rows[l]) != addr
    ensures r.None? ==> forall l :: k <= l < |rows| ==> RowAddress(segs, rows[l]) != addr
    decreases |rows| - k
  {
    if k >= |rows| then None
    else if RowAddress(segs, rows[k]) == addr then Some(k)
    else FirstRow(segs, rows, k + 1, addr)
  }

  lemma RowsMatch(segs: seq<Segment>, rows: seq<Row>, addr: uint64)
    ensures FirstBind(RowRecords(Env(Segs32(segs), []), rows), 0, addr) == FirstRow(segs, rows, 0, addr)
  {
    var recs := RowRecords(Env(Segs32(segs), []), rows);
    assert forall k :: 0 <= k < |rows| ==> recs[k].address == RowAddress(segs, rows[k]);
    var row, bind := FirstRow(segs, rows, 0, addr), FirstBind(recs, 0, addr);
    assert row.Some? ==> recs[row.value].address == addr;
    assert bind.Some? ==> RowAddress(segs, rows[bind.value]) == addr;
  }

  lemma RowAnswers(env: Env, row: Row, addr: uint32)
    requires RowRecord(env, row).address == addr
    ensures BindSymbol(RowRecord(env, row)) == Found(Symbol.Symbol((addr + row.addend) % U32, Strip(row.symbol)))
  {}

  /** From the compressed bytes in the file to the symbol of an address: an image whose bind stream
      encodes a table answers with the first row for the address, and with nothing when there is
      none. */
  lemma TableAnswers(m: seq<byte>, base: uint32, segs: seq<Segment>, t: Tables, rows: seq<Row>, addr: uint32)
    requires NulFree(rows) && t.hasDyldInfo && StreamMapped(m, base, t)
    requires m[t.bindOff..t.bindOff + t.bindSize] == EncodeTable(rows, 4)
    requires RelocsReadable(m, t, t.extRelCount) && forall i: nat :: !RelocFor(m, t, i, addr)
    ensures RelocSymForAddr(m, t, BindRunOf(m, base, segs, t).recs, addr) ==
      match FirstRow(segs, rows, 0, addr)
      case None => NotFound
      case Some(k) => Found(Symbol.Symbol((addr + rows[k].addend) % U32, Strip(rows[k].symbol)))
  {
    hide RunAt, BindRunOf, RelocReadable, RelocAt, Strip, Run;
    TableDecoded(m, base, segs, t, rows);
    NoRelocMatches(m, t, BindRunOf(m, base, segs, t).recs, addr);
    RowsMatch(segs, rows, addr);
    var row := FirstRow(segs, rows, 0, addr);
    if row.Some? {
      RowAnswers(Env(Segs32(segs), []), rows[row.value], addr);
    }
  }

  lemma TableDecoded(m: seq<byte>, base: uint32, segs: seq<Segment>, t: Tables, rows: seq<Row>)
    requires NulFree(rows) && StreamMapped(m, base, t)
    requires m[t.bindOff..t.bindOff + t.bindSize] == EncodeTable(rows, 4)
    ensures BindRunOf(m, base, segs, t).recs == RowRecords(Env(Segs32(segs), []), rows)
  {
    BindStreamMapped(m, base, segs, t);
    TableRoundTrip(Env(Segs32(segs), []), rows, m[t.bindOff + t.bindSize..]);
  }
}
