/** Section names of repeated binds: the name is looked up once, for the first record, and the run may
    leave the section. */
module BindSections {
  import opened Words
  import opened MachO
  import opened BindOpcodes
  import opened BindPrograms
  import opened BindDesugar

  /** The address `k` strides behind `a`. */
  function Strides(a: uint64, k: nat, stride: nat): uint64 {
    (a + k * stride) % U64
  }

  /** The first `n` addresses of a run lie between the bounds. */
  predicate StaysWithin(lo: nat, hi: nat, a: uint64, n: nat, stride: nat) {
    forall k :: 0 <= k < n ==> lo <= Strides(a, k, stride) < hi
  }

  lemma StridesGrow(k: nat, n: nat, stride: nat)
    requires k <= n
    ensures k * stride <= n * stride
  {}

  lemma NotWrapped(a: uint64, k: nat, stride: nat)
    requires a + k * stride < U64
    ensures Strides(a, k, stride) == a + k * stride
  {}

  /** A run that stays within the bounds has not wrapped around to them. */
  lemma {:induction false} StaysMeansBelow(lo: nat, hi: nat, a: uint64, n: nat, stride: nat)
    requires lo <= a < hi && hi + stride <= U64 && StaysWithin(lo, hi, a, n + 1, stride)
    ensures a + n * stride < hi
  {
    if n > 0 {
      StaysMeansBelow(lo, hi, a, n - 1, stride);
      assert n * stride == (n - 1) * stride + stride;
      NotWrapped(a, n, stride);
    }
  }

  lemma BelowMeansStays(lo: nat, hi: nat, a: uint64, n: nat, stride: nat)
    requires n > 0 && lo <= a && a + (n - 1) * stride < hi <= U64
    ensures StaysWithin(lo, hi, a, n, stride)
  {
    forall k: nat | k < n
      ensures lo <= Strides(a, k, stride) < hi
    {
      StridesGrow(k, n - 1, stride);
      NotWrapped(a, k, stride);
    }
  }

  /** A run that starts within the bounds stays there if and only if its last address, as a plain
      sum, is below the upper one. */
  lemma StaysExactly(lo: nat, hi: nat, a: uint64, n: nat, stride: nat)
    requires n > 0 && lo <= a < hi <= U64 && (n > 1 ==> hi + stride <= U64)
    ensures StaysWithin(lo, hi, a, n, stride) <==> a + (n - 1) * stride < hi
  {
    if n == 1 {
      assert Strides(a, 0, stride) == a;
    } else if StaysWithin(lo, hi, a, n, stride) {
      StaysMeansBelow(lo, hi, a, n - 1, stride);
    } else if a + (n - 1) * stride < hi {
      BelowMeansStays(lo, hi, a, n, stride);
    }
  }

  // ------------------------------------------------------- a run that meets an interval

  /** How many strides it takes from `a` to `lo`. */
  function StridesTo(lo: nat, a: nat, stride: nat): (k: nat)
    requires stride > 0
    ensures a + k * stride >= lo
    ensures k > 0 ==> a + (k - 1) * stride < lo
  {
    if a >= lo then 0
    else
      var k := (lo - a + stride - 1) / stride;
      RoundedUp(lo - a, stride);
      k
  }

  lemma RoundedUp(d: nat, stride: nat)
    requires d > 0 && stride > 0
    ensures var k := (d + stride - 1) / stride; k > 0 && k * stride >= d && (k - 1) * stride < d
  {
    var k := (d + stride - 1) / stride;
    assert d + stride - 1 == stride * k + (d + stride - 1) % stride;
    assert k * stride == stride * k && (k - 1) * stride == k * stride - stride;
  }

  /** Some of the first `n` addresses, as plain sums, lies in the interval. */
  predicate Reaches(lo: nat, hi: nat, a: nat, n: nat, stride: nat) {
    if stride == 0 then n > 0 && lo <= a < hi
    else
      var k := StridesTo(lo, a, stride);
      k < n && a + k * stride < hi
  }

  lemma ReachesExactly(lo: nat, hi: nat, a: nat, n: nat, stride: nat)
    ensures Reaches(lo, hi, a, n, stride) <==> exists k :: 0 <= k < n && lo <= a + k * stride < hi
  {
    if stride == 0 {
      if Reaches(lo, hi, a, n, stride) {
        assert lo <= a + 0 * stride < hi;
      }
    } else {
      var first := StridesTo(lo, a, stride);
      if k :| 0 <= k < n && lo <= a + k * stride < hi {
        if k < first {
          StridesGrow(k, first - 1, stride);
        }
        StridesGrow(first, k, stride);
      }
    }
  }

  /** Some of the first `n` addresses of the run, modulo 2^64, lies in the interval.  A run that spans
      less than 2^64 comes around once at most. */
  predicate Meets(lo: nat, hi: nat, a: uint64, n: nat, stride: nat) {
    Reaches(lo, hi, a, n, stride) || Reaches(lo + U64, hi + U64, a, n, stride)
  }

  lemma AroundOnce(a: uint64, k: nat, n: nat, stride: nat)
    requires k < n && (n - 1) * stride < U64
    ensures a + k * stride < 2 * U64
    ensures Strides(a, k, stride) == if a + k * stride < U64 then a + k * stride else a + k * stride - U64
  {
    StridesGrow(k, n - 1, stride);
  }

  lemma MeetsExactly(lo: nat, hi: nat, a: uint64, n: nat, stride: nat)
    requires hi <= U64 && (n > 0 ==> (n - 1) * stride < U64)
    ensures Meets(lo, hi, a, n, stride) <==> exists k :: 0 <= k < n && lo <= Strides(a, k, stride) < hi
  {
    ReachesExactly(lo, hi, a, n, stride);
    ReachesExactly(lo + U64, hi + U64, a, n, stride);
    if k :| 0 <= k < n && lo <= Strides(a, k, stride) < hi {
      AroundOnce(a, k, n, stride);
    }
    if k :| 0 <= k < n && lo <= a + k * stride < hi {
      AroundOnce(a, k, n, stride);
    }
    if k :| 0 <= k < n && lo + U64 <= a + k * stride < hi + U64 {
      AroundOnce(a, k, n, stride);
    }
  }

  // ------------------------------------------------------------- names of a run

  /** The sections of a segment share neither addresses, so that the scan finds each at all of its
      own, nor names. */
  ghost predicate Distinct(t: SegmentTable, seg: nat) {
    && seg < |t.segs|
    && DistinctNames(t.segs[seg].sections)
    && forall i, a: uint64 :: 0 <= i < |t.segs[seg].sections| && Covers(t, t.segs[seg].sections[i], a) ==>
         FindSection(t, seg, a) == Some(i)
  }

  predicate DistinctNames(sections: seq<Section>) {
    forall i, j :: 0 <= i < j < |sections| ==> sections[i].sectname != sections[j].sectname
  }

  /** An address has the name of a section exactly when the section covers it. */
  lemma NameMeansCover(t: SegmentTable, seg: nat, j: nat, a: uint64)
    requires Distinct(t, seg) && j < |t.segs[seg].sections|
    ensures SectionName(t, seg, a) == Some(t.segs[seg].sections[j].sectname) <==> Covers(t, t.segs[seg].sections[j], a)
  {}

  /** Every record of a run lies some strides behind the first and carries the first one's section. */
  lemma RunRecord(env: Env, r: Regs, n: nat, stride: nat, k: nat)
    requires k < n
    ensures var rec := BindRun(env, r, n, stride).recs[k];
      rec.address == Strides(Address(r), k, stride) && rec.sectname == CurrentSection(env, r)
  {
    hide BindRun, CurrentSection, Advance, Address;
    BindRunAt(env, r, n, stride);
    AddressMoved(r, k * stride);
  }

  /** A run that starts in section `j` names the sections of all its records if and only if its last
      address, as a plain sum, lies before the end of that section. */
  lemma RunFromSection(env: Env, r: Regs, j: nat, n: nat, stride: nat)
    requires n > 0 && Distinct(env.segs, r.segIndex) && FindSection(env.segs, r.segIndex, Address(r)) == Some(j)
    requires n > 1 ==> SectionEnd(env.segs, env.segs.segs[r.segIndex].sections[j]) + stride <= U64
    ensures NamesItsSections(env, r.segIndex, BindRun(env, r, n, stride).recs) <==>
      Address(r) + (n - 1) * stride < SectionEnd(env.segs, env.segs.segs[r.segIndex].sections[j])
  {
    var t, s := env.segs, env.segs.segs[r.segIndex].sections[j];
    var recs := BindRun(env, r, n, stride).recs;
    forall k | 0 <= k < n
      ensures recs[k].sectname == SectionName(t, r.segIndex, recs[k].address) <==>
        s.addr <= Strides(Address(r), k, stride) < SectionEnd(t, s)
    {
      RunRecord(env, r, n, stride, k);
      NameMeansCover(t, r.segIndex, j, Strides(Address(r), k, stride));
    }
    StaysExactly(s.addr, SectionEnd(t, s), Address(r), n, stride);
  }

  function SectionsOf(t: SegmentTable, seg: nat): seq<Section> {
    if seg < |t.segs| then t.segs[seg].sections else []
  }

  /** The run meets no section of the segment. */
  predicate MeetsNone(t: SegmentTable, seg: nat, a: uint64, n: nat, stride: nat) {
    forall j :: 0 <= j < |SectionsOf(t, seg)| ==> !MeetsSection(t, SectionsOf(t, seg)[j], a, n, stride)
  }

  predicate MeetsSection(t: SegmentTable, s: Section, a: uint64, n: nat, stride: nat) {
    Meets(s.addr, SectionEnd(t, s), a, n, stride)
  }

  /** An address has no name exactly when no section of the segment covers it. */
  lemma NamelessMeansUncovered(t: SegmentTable, seg: nat, a: uint64)
    ensures SectionName(t, seg, a) == None <==>
      forall j :: 0 <= j < |SectionsOf(t, seg)| ==> !Covers(t, SectionsOf(t, seg)[j], a)
  {
    var found := FindSection(t, seg, a);
    assert found.Some? ==> Covers(t, SectionsOf(t, seg)[found.value], a);
  }

  /** A run that starts in no section names the sections of all its records if and only if it meets
      none. */
  lemma RunFromGap(env: Env, r: Regs, n: nat, stride: nat)
    requires n > 0 && (n - 1) * stride < U64 && FindSection(env.segs, r.segIndex, Address(r)) == None
    ensures NamesItsSections(env, r.segIndex, BindRun(env, r, n, stride).recs) <==>
      MeetsNone(env.segs, r.segIndex, Address(r), n, stride)
  {
    hide BindRun, Meets, Covers, FindSection;
    var t, a, sections := env.segs, Address(r), SectionsOf(env.segs, r.segIndex);
    var recs := BindRun(env, r, n, stride).recs;
    GapName(env, r);
    forall k | 0 <= k < n
      ensures recs[k].address == Strides(a, k, stride) && recs[k].sectname == None
      ensures SectionName(t, r.segIndex, Strides(a, k, stride)) == None <==>
        forall j :: 0 <= j < |sections| ==> !Covers(t, sections[j], Strides(a, k, stride))
    {
      RunRecord(env, r, n, stride, k);
      NamelessMeansUncovered(t, r.segIndex, Strides(a, k, stride));
    }
    forall j | 0 <= j < |sections|
      ensures MeetsSection(t, sections[j], a, n, stride) <==>
        exists k :: 0 <= k < n && Covers(t, sections[j], Strides(a, k, stride))
    {
      SectionMet(t, sections[j], a, n, stride);
    }
  }

  lemma GapName(env: Env, r: Regs)
    requires FindSection(env.segs, r.segIndex, Address(r)) == None
    ensures CurrentSection(env, r) == None
  {}

  lemma SectionMet(t: SegmentTable, s: Section, a: uint64, n: nat, stride: nat)
    requires n > 0 && (n - 1) * stride < U64
    ensures MeetsSection(t, s, a, n, stride) <==> exists k :: 0 <= k < n && Covers(t, s, Strides(a, k, stride))
  {
    hide Meets, Strides;
    MeetsExactly(s.addr, SectionEnd(t, s), a, n, stride);
    if k :| 0 <= k < n && s.addr <= Strides(a, k, stride) < SectionEnd(t, s) {
      assert Covers(t, s, Strides(a, k, stride));
    }
  }

  /** What can be checked before a run: one that starts in a section ends before the section does, and
      one that starts in none meets none. */
  predicate KeepsSection(t: SegmentTable, seg: nat, a: uint64, n: nat, stride: nat) {
    match FindSection(t, seg, a)
    case Some(j) => n == 0 || a + (n - 1) * stride < SectionEnd(t, t.segs[seg].sections[j])
    case None => n == 0 || MeetsNone(t, seg, a, n, stride)
  }

  /** The sections of a segment that a run starts in do not get in the way of deciding its names: they
      are distinct, and a stride past the section does not wrap. */
  ghost predicate Decidable(t: SegmentTable, seg: nat, a: uint64, n: nat, stride: nat) {
    && (n > 0 ==> (n - 1) * stride < U64)
    && match FindSection(t, seg, a)
       case Some(j) => Distinct(t, seg) && (n > 1 ==> SectionEnd(t, t.segs[seg].sections[j]) + stride <= U64)
       case None => true
  }

  /** A repeated bind, wherever it starts, names the sections of all its records if and only if it
      keeps its section. */
  lemma RunNamedExactly(env: Env, r: Regs, n: nat, stride: nat)
    requires Decidable(env.segs, r.segIndex, Address(r), n, stride)
    ensures NamesItsSections(env, r.segIndex, BindRun(env, r, n, stride).recs) <==>
      KeepsSection(env.segs, r.segIndex, Address(r), n, stride)
  {
    if n > 0 {
      match FindSection(env.segs, r.segIndex, Address(r)) {
        case Some(j) => RunFromSection(env, r, j, n, stride);
        case None => RunFromGap(env, r, n, stride);
      }
    }
  }

  /** A repeated bind spans less than 2^64. */
  lemma RunSpan(n: nat, stride: nat)
    requires 0 < n < U32 && stride < U32
    ensures (n - 1) * stride < U64
  {
    StridesGrow(n - 1, U32, stride);
    StridesGrow(stride, U32, U32);
    assert U32 * stride == stride * U32;
  }

  /** In a 32-bit image the expansion of a repeated bind writes the same records, section names
      included, if and only if the run keeps its section. */
  lemma ExpansionNamesExactly(env: Env, count: uint64, skip: uint64, r: Regs)
    requires env.segs.Segs32?
    requires FindSection(env.segs, r.segIndex, Address(r)).Some? ==> Distinct(env.segs, r.segIndex)
    ensures var i := DoBindTimes(count, skip);
      RunProgram(env, Expand(env, i), r).recs == Exec(env, i, r).recs <==>
      KeepsSection(env.segs, r.segIndex, Address(r), count % U32, Stride(env, i))
  {
    hide RunProgram, Exec, BindRun, Distinct, KeepsSection;
    var i := DoBindTimes(count, skip);
    ExpandExec(env, i, r);
    TimesExec(env, count, skip, r);
    if count % U32 > 0 {
      RunSpan(count % U32, Stride(env, i));
    }
    RunNamedExactly(env, r, count % U32, Stride(env, i));
  }

  // -------------------------------------------------------- runs with a wrong name

  lemma FiveBytes(start: Instr, times: Instr)
    requires start == SetSegment(0, 0) && times == DoBindTimes(2, 0)
    ensures EncodeAll([start, times]) == [0x70, 0x00, 0xC0, 0x02, 0x00]
  {
    assert Encode(start) == [0x70, 0x00] && Encode(times) == [0xC0, 0x02, 0x00];
    assert [start, times][1..] == [times];
    assert EncodeAll([times]) == Encode(times) + EncodeAll([times][1..]);
  }

  lemma TwoRecords(env: Env, r: Regs)
    requires env.segs.Segs32? && Address(r) == 0
    ensures var st := Exec(env, DoBindTimes(2, 0), r);
      |st.recs| == 2 && st.recs[1].address == 4 && st.recs[1].sectname == CurrentSection(env, r)
  {
    hide BindRun, SectionName;
    RunRecord(env, r, 2, 4, 1);
  }

  lemma TwoInstructions(env: Env, a: Instr, b: Instr, r: Regs)
    requires !Halts(a) && Repeats(a) == 0 && !Halts(b)
    ensures var st := Exec(env, b, SetRegs(env, a, r));
      RunProgram(env, [a, b], r) == Result(Exhausted, st.regs, st.recs)
  {
    assert [a, b] == [a] + [b];
    RunConcat(env, [a], [b], r);
    RunOne(env, a, r);
    RunOne(env, b, SetRegs(env, a, r));
  }

  /** Five bytes that bind addresses 0 and 4 of the first segment, both under the name that address 0
      has. */
  lemma TwoBinds(env: Env, s: seq<byte>, tail: seq<byte>)
    requires env.segs.Segs32? && SegStartAddress(env.segs, 0) == 0
    requires s == [0x70, 0x00, 0xC0, 0x02, 0x00]
    ensures var run := Run(env, s, tail, INIT_REGS);
      run.outcome == Exhausted && |run.recs| == 2 &&
      run.recs[1].address == 4 && run.recs[1].sectname == SectionName(env.segs, 0, 0)
  {
    hide Run, RunProgram, Exec, SectionName, EncodeAll;
    var start, times := SetSegment(0, 0), DoBindTimes(2, 0);
    FiveBytes(start, times);
    RunEncodedProgram(env, [start, times], tail, INIT_REGS);
    TwoInstructions(env, start, times, INIT_REGS);
    TwoRecords(env, SetRegs(env, start, INIT_REGS));
  }

  /** A 32-bit segment at address 0. */
  predicate AtZero(env: Env) {
    env.segs.Segs32? && |env.segs.segs| > 0 && env.segs.segs[0].vmaddr == 0
  }

  /** Where two sections of four bytes follow each other, the second record lies in the second and
      carries the name of the first. */
  lemma RunLeavesSection(env: Env, s: seq<byte>, tail: seq<byte>)
    requires AtZero(env) && |env.segs.segs[0].sections| == 2 && s == [0x70, 0x00, 0xC0, 0x02, 0x00]
    requires env.segs.segs[0].sections[0].addr == 0 && env.segs.segs[0].sections[0].size == 4
    requires env.segs.segs[0].sections[1].addr == 4 && env.segs.segs[0].sections[1].size == 4
    ensures var run, sections := Run(env, s, tail, INIT_REGS), env.segs.segs[0].sections;
      run.outcome == Exhausted && |run.recs| == 2 && run.recs[1].address == 4 &&
      run.recs[1].sectname == Some(sections[0].sectname) &&
      SectionName(env.segs, 0, 4) == Some(sections[1].sectname)
  {
    hide Run;
    TwoBinds(env, s, tail);
    assert FindSectionFrom(env.segs, env.segs.segs[0].sections, 1, 4) == Some(1);
  }

  /** Where the only section starts at 4, the second record lies in it and carries no name. */
  lemma RunEntersSection(env: Env, s: seq<byte>, tail: seq<byte>)
    requires AtZero(env) && |env.segs.segs[0].sections| == 1 && s == [0x70, 0x00, 0xC0, 0x02, 0x00]
    requires env.segs.segs[0].sections[0].addr == 4 && env.segs.segs[0].sections[0].size == 4
    ensures var run, sections := Run(env, s, tail, INIT_REGS), env.segs.segs[0].sections;
      run.outcome == Exhausted && |run.recs| == 2 && run.recs[1].address == 4 &&
      run.recs[1].sectname == None &&
      SectionName(env.segs, 0, 4) == Some(sections[0].sectname)
  {
    hide Run;
    TwoBinds(env, s, tail);
    assert FindSectionFrom(env.segs, env.segs.segs[0].sections, 1, 0) == None;
  }
}
