/** The table of VM ranges as an address map: one range at most for an address, the same answer as
    the decoder's own section lookup, and sound translation to file offsets. */
module AddressMap {
  import opened Words
  import opened MachO
  import opened LoadCommands

  // -------------------------------------------------------------- enumeration

  /** The sections of the first `i` segment commands. */
  function SectionsBefore(segs: seq<Segment>, i: nat): nat
    requires i <= |segs|
  {
    if i == 0 then 0 else SectionsBefore(segs, i - 1) + |segs[i - 1].sections|
  }

  /** The slot of section `j` of segment command `i`. */
  function Slot(segs: seq<Segment>, i: nat, j: nat): nat
    requires i < |segs|
  {
    SectionsBefore(segs, i) + j
  }

  lemma {:induction false} SectionsBeforePrefix(segs: seq<Segment>, n: nat, i: nat)
    requires i <= n <= |segs|
    ensures SectionsBefore(segs[..n], i) == SectionsBefore(segs, i)
  {
    if i > 0 {
      SectionsBeforePrefix(segs, n, i - 1);
    }
  }

  lemma {:induction false} SectionsBeforeMonotone(segs: seq<Segment>, i: nat, i': nat)
    requires i <= i' <= |segs|
    ensures SectionsBefore(segs, i) <= SectionsBefore(segs, i')
  {
    if i < i' {
      SectionsBeforeMonotone(segs, i, i' - 1);
    }
  }

  /** The range at slot `k` is that of section `j` of segment command `i`, and `k` is its slot. */
  predicate RangeOf(segs: seq<Segment>, k: nat, i: nat, j: nat) {
    && i < |segs| && j < |segs[i].sections|
    && k == Slot(segs, i, j) && k < |Ranges(segs)|
    && Ranges(segs)[k] == MakeRange(i, j, segs[i], segs[i].sections[j])
  }

  lemma {:induction false} RangesCounted(segs: seq<Segment>)
    ensures |Ranges(segs)| == SectionsBefore(segs, |segs|)
    decreases |segs|
  {
    if segs != [] {
      RangesCounted(segs[..|segs| - 1]);
      SectionsBeforePrefix(segs, |segs| - 1, |segs| - 1);
    }
  }

  /** The table of all but the last segment is the first part of the table. */
  lemma RangeKept(segs: seq<Segment>, k: nat, i: nat, j: nat)
    requires segs != [] && RangeOf(segs[..|segs| - 1], k, i, j)
    ensures RangeOf(segs, k, i, j)
  {
    SectionsBeforePrefix(segs, |segs| - 1, i);
  }

  lemma LastRange(segs: seq<Segment>, j: nat)
    requires segs != [] && j < |segs[|segs| - 1].sections|
    ensures RangeOf(segs, |Ranges(segs[..|segs| - 1])| + j, |segs| - 1, j)
  {
    RangesCounted(segs[..|segs| - 1]);
    SectionsBeforePrefix(segs, |segs| - 1, |segs| - 1);
  }

  lemma {:induction false} RangeAt(segs: seq<Segment>, i: nat, j: nat)
    requires i < |segs| && j < |segs[i].sections|
    ensures RangeOf(segs, Slot(segs, i, j), i, j)
    decreases |segs|
  {
    if i < |segs| - 1 {
      RangeAt(segs[..|segs| - 1], i, j);
      RangeKept(segs, Slot(segs[..|segs| - 1], i, j), i, j);
    } else {
      LastRange(segs, j);
    }
  }

  lemma {:induction false} RangeIs(segs: seq<Segment>, k: nat)
    requires k < |Ranges(segs)|
    ensures RangeOf(segs, k, Ranges(segs)[k].segmentIdx, Ranges(segs)[k].sectionIdx)
    decreases |segs|
  {
    var init := segs[..|segs| - 1];
    if k < |Ranges(init)| {
      RangeIs(init, k);
      RangeKept(segs, k, Ranges(init)[k].segmentIdx, Ranges(init)[k].sectionIdx);
    } else {
      LastRange(segs, k - |Ranges(init)|);
    }
  }

  /** The table has one range for every section of every LC_SEGMENT command, in file order, and
      nothing else. */
  lemma RangeEnumeration(segs: seq<Segment>)
    ensures |Ranges(segs)| == SectionsBefore(segs, |segs|)
    ensures forall i: nat, j: nat :: i < |segs| && j < |segs[i].sections| ==> RangeOf(segs, Slot(segs, i, j), i, j)
    ensures forall k: nat :: k < |Ranges(segs)| ==>
      RangeOf(segs, k, Ranges(segs)[k].segmentIdx, Ranges(segs)[k].sectionIdx)
  {
    RangesCounted(segs);
    forall i: nat, j: nat | i < |segs| && j < |segs[i].sections|
      ensures RangeOf(segs, Slot(segs, i, j), i, j)
    {
      RangeAt(segs, i, j);
    }
    forall k: nat | k < |Ranges(segs)|
      ensures RangeOf(segs, k, Ranges(segs)[k].segmentIdx, Ranges(segs)[k].sectionIdx)
    {
      RangeIs(segs, k);
    }
  }

  /** What a range records of its section and of the segment command that holds it. */
  lemma RangeFields(segs: seq<Segment>, i: nat, j: nat)
    requires i < |segs| && j < |segs[i].sections|
    ensures Slot(segs, i, j) < |Ranges(segs)|
    ensures var r, seg, s := Ranges(segs)[Slot(segs, i, j)], segs[i], segs[i].sections[j];
      && r.vmBegin == s.addr && r.vmEnd == (s.addr + s.size) % 0x1_0000_0000
      && r.mapBegin == s.offset && r.mapEnd == (s.offset + s.size) % 0x1_0000_0000
      && r.segment == seg.at && r.section == s.at && r.segmentIdx == i && r.sectionIdx == j
      && (r.isMapped <==> seg.filesize > 0 && s.flags % 0x100 != 0x1)
  {
    RangeEnumeration(segs);
    assert RangeOf(segs, Slot(segs, i, j), i, j);
  }

  /** Later slots have lexicographically later indices. */
  lemma RangeOrder(segs: seq<Segment>, k: nat, l: nat)
    requires k < l < |Ranges(segs)|
    ensures var a, b := Ranges(segs)[k], Ranges(segs)[l];
      a.segmentIdx < b.segmentIdx || (a.segmentIdx == b.segmentIdx && a.sectionIdx < b.sectionIdx)
  {
    RangeEnumeration(segs);
    var a, b := Ranges(segs)[k], Ranges(segs)[l];
    assert RangeOf(segs, k, a.segmentIdx, a.sectionIdx) && RangeOf(segs, l, b.segmentIdx, b.sectionIdx);
    SlotOrder(segs, b.segmentIdx, b.sectionIdx, a.segmentIdx, a.sectionIdx);
  }

  lemma SlotOrder(segs: seq<Segment>, i: nat, j: nat, i': nat, j': nat)
    requires i < |segs| && j < |segs[i].sections| && i' < |segs| && j' < |segs[i'].sections|
    ensures i < i' ==> Slot(segs, i, j) < Slot(segs, i', j')
  {
    if i < i' {
      SectionsBeforeMonotone(segs, i + 1, i');
    }
  }

  // ------------------------------------------------------------------- lookup

  predicate InRange(r: VmRange, addr: nat) {
    r.vmBegin <= addr < r.vmEnd
  }

  /** Ranges that pass the overlap check share no address. */
  lemma AtMostOneRange(table: seq<VmRange>, addr: nat, k: nat, l: nat)
    requires AllSeparated(table) && k < |table| && l < |table|
    requires InRange(table[k], addr) && InRange(table[l], addr)
    ensures k == l
  {
    assert k < l ==> SeparatedAt(table, k, l);
    assert l < k ==> SeparatedAt(table, l, k);
  }

  /** The first range from `k` on that contains the address. */
  function FindFrom(table: seq<VmRange>, k: nat, addr: nat): (r: Option<nat>)
    ensures r.Some? ==> k <= r.value < |table| && InRange(table[r.value], addr)
    ensures r.Some? ==> forall l :: k <= l < r.value ==> !InRange(table[l], addr)
    ensures r.None? ==> forall l :: k <= l < |table| ==> !InRange(table[l], addr)
    decreases |table| - k
  {
    if k >= |table| then None
    else if InRange(table[k], addr) then Some(k)
    else FindFrom(table, k + 1, addr)
  }

  /** The range that the scan finds. */
  function FindRange(table: seq<VmRange>, addr: nat): Option<VmRange> {
    match FindFrom(table, 0, addr)
    case None => None
    case Some(k) => Some(table[k])
  }

  /** The scan finds the same range in whatever order the table stands. */
  lemma OrderIrrelevant(table: seq<VmRange>, table': seq<VmRange>, addr: nat)
    requires AllSeparated(table) && forall r :: r in table <==> r in table'
    ensures FindRange(table', addr) == FindRange(table, addr)
  {
    var f, f' := FindFrom(table, 0, addr), FindFrom(table', 0, addr);
    if f'.Some? {
      assert table'[f'.value] in table;
      var k :| 0 <= k < |table| && table[k] == table'[f'.value];
      AtMostOneRange(table, addr, k, f.value);
    }
    assert f.Some? ==> table[f.value] in table';
  }

  /** The section name that the range table gives for an address in segment `seg`. */
  function RangeSectionName(segs: seq<Segment>, seg: nat, addr: uint64): Name {
    match FindRange(Ranges(segs), addr)
    case None => None
    case Some(r) =>
      if r.segmentIdx == seg && seg < |segs| && r.sectionIdx < |segs[seg].sections|
      then Some(segs[seg].sections[r.sectionIdx].sectname) else None
  }

  /** Two sections of a segment that cover the same address are the same section. */
  lemma OneSection(segs: seq<Segment>, seg: nat, j: nat, j': nat, addr: nat)
    requires AllSeparated(Ranges(segs)) && seg < |segs| && j < |segs[seg].sections| && j' < |segs[seg].sections|
    requires InRange(MakeRange(seg, j, segs[seg], segs[seg].sections[j]), addr)
    requires InRange(MakeRange(seg, j', segs[seg], segs[seg].sections[j']), addr)
    ensures j == j'
  {
    RangeEnumeration(segs);
    assert RangeOf(segs, Slot(segs, seg, j), seg, j);
    assert RangeOf(segs, Slot(segs, seg, j'), seg, j');
    AtMostOneRange(Ranges(segs), addr, Slot(segs, seg, j), Slot(segs, seg, j'));
  }

  /** The decoder's scan of one segment finds section j exactly when the address is in the range of
      that section. */
  lemma SectionIsRange(segs: seq<Segment>, seg: nat, addr: uint64, j: nat)
    requires AllSeparated(Ranges(segs))
    ensures FindSection(Segs32(segs), seg, addr) == Some(j) <==>
      seg < |segs| && j < |segs[seg].sections| && InRange(MakeRange(seg, j, segs[seg], segs[seg].sections[j]), addr)
  {
    hide Ranges, AllSeparated;
    if seg < |segs| && j < |segs[seg].sections| && Covers(Segs32(segs), segs[seg].sections[j], addr) {
      OneSection(segs, seg, j, FindSection(Segs32(segs), seg, addr).value, addr);
    }
  }

  /** The bind decoder's scan of one segment and the scan of the whole range table give the same
      section, and the same "??" when the address is in no range of that segment. */
  lemma TwoLookupsAgree(segs: seq<Segment>, seg: nat, addr: uint64)
    requires AllSeparated(Ranges(segs))
    ensures SectionName(Segs32(segs), seg, addr) == RangeSectionName(segs, seg, addr)
  {
    RangeEnumeration(segs);
    var found, f := FindSection(Segs32(segs), seg, addr), FindFrom(Ranges(segs), 0, addr);
    if found.Some? {
      var k := Slot(segs, seg, found.value);
      assert RangeOf(segs, k, seg, found.value);
      AtMostOneRange(Ranges(segs), addr, k, f.value);
    } else if f.Some? {
      var r := Ranges(segs)[f.value];
      assert RangeOf(segs, f.value, r.segmentIdx, r.sectionIdx);
      SectionIsRange(segs, seg, addr, r.sectionIdx);
    }
  }

  // -------------------------------------------------------------- translation

  /** The file offset for `size` bytes at `addr`, when the source's assertions hold.  All sums
      are 32-bit. */
  function Translate(table: seq<VmRange>, addr: uint32, size: uint32): Option<uint32> {
    match FindRange(table, addr)
    case None => None
    case Some(r) =>
      if r.isMapped && Add32(addr, size) <= r.vmEnd then Some(Add32(r.mapBegin, addr - r.vmBegin)) else None
  }

  /** The pointer handed out, as an offset from the start of the mapping. */
  method SymtabMachoGetPtr(lib: MachoLibrary, addr: uint32, size: uint32) returns (ok: bool, off: uint32)
    requires lib.Valid()
    ensures Translate(lib.Table(), addr, size) == if ok then Some(off) else None
  {
    ghost var table := lib.Table();
    var found, i := false, 0;
    while i < lib.vmrangeCount && !found
      invariant i <= lib.vmrangeCount == |table|
      invariant FindFrom(table, i, addr) == FindFrom(table, 0, addr)
      invariant found ==> i < lib.vmrangeCount && InRange(lib.vmranges[i], addr)
      decreases lib.vmrangeCount - i, !found
    {
      assert table[i] == lib.vmranges[i];
      if addr >= lib.vmranges[i].vmBegin && addr < lib.vmranges[i].vmEnd {
        found := true;
      } else {
        i := i + 1;
      }
    }
    if !found {
      return false, 0;
    }
    var vmrange := lib.vmranges[i];
    assert vmrange == table[i];
    if !vmrange.isMapped || !(Add32(addr, size) <= vmrange.vmEnd) {
      return false, 0;
    }
    return true, Add32(vmrange.mapBegin, addr - vmrange.vmBegin);
  }

  /** The fields of a 32-bit segment command. */
  predicate Narrow(seg: Segment) {
    && seg.vmaddr < U32 && seg.vmsize < U32 && seg.fileoff < U32 && seg.filesize < U32
    && forall j :: 0 <= j < |seg.sections| ==> seg.sections[j].addr < U32 && seg.sections[j].size < U32
  }

  lemma CommandNarrow(m: seq<byte>, off: nat)
    ensures match ReadCommand(m, off) case Some(SegmentCmd(seg)) => Narrow(seg) case _ => true
  {
    hide U32At;
  }

  lemma {:induction false} CommandsNarrow(m: seq<byte>, n: nat, off: nat)
    requires Commands(m, n, off).Some?
    ensures var cmds := Commands(m, n, off).value;
      forall k :: 0 <= k < n && cmds[k].SegmentCmd? ==> Narrow(cmds[k].seg)
  {
    hide ReadCommand, NextCommand, Narrow;
    if n > 0 {
      CommandNarrow(m, off);
      CommandsNarrow(m, n - 1, NextCommand(m, off));
    }
  }

  lemma {:induction false} SegmentsNarrow(cmds: seq<Command>)
    requires forall k :: 0 <= k < |cmds| && cmds[k].SegmentCmd? ==> Narrow(cmds[k].seg)
    ensures forall i :: 0 <= i < |Segments(cmds)| ==> Narrow(Segments(cmds)[i])
  {
    if cmds != [] {
      SegmentsNarrow(cmds[..|cmds| - 1]);
    }
  }

  /** A section that owns an address is mapped at a place where its checks leave no wrapped sum
      but possibly that of its own file range. */
  lemma MappedSectionSums(seg: Segment, s: Section)
    requires Narrow(seg) && s.addr < U32 && s.size < U32 && SectionChecks(seg, s) && IsMapped(seg, s)
    ensures Add32(seg.fileoff, seg.filesize) == seg.fileoff + seg.filesize
    ensures s.addr < Add32(s.addr, s.size) ==> Add32(s.addr, s.size) == s.addr + s.size
  {}

  /** The section that owns the address of a successful translation. */
  predicate Owns(segs: seq<Segment>, i: nat, j: nat, addr: nat) {
    i < |segs| && j < |segs[i].sections| && InRange(MakeRange(i, j, segs[i], segs[i].sections[j]), addr)
  }

  lemma OwnerFound(segs: seq<Segment>, i: nat, j: nat, addr: nat)
    requires AllSeparated(Ranges(segs)) && Owns(segs, i, j, addr)
    ensures FindRange(Ranges(segs), addr) == Some(MakeRange(i, j, segs[i], segs[i].sections[j]))
  {
    RangeEnumeration(segs);
    assert RangeOf(segs, Slot(segs, i, j), i, j);
    AtMostOneRange(Ranges(segs), addr, Slot(segs, i, j), FindFrom(Ranges(segs), 0, addr).value);
  }

  lemma OwnerExists(segs: seq<Segment>, addr: uint32, size: uint32) returns (i: nat, j: nat)
    requires Translate(Ranges(segs), addr, size).Some?
    ensures Owns(segs, i, j, addr) && IsMapped(segs[i], segs[i].sections[j])
  {
    RangeEnumeration(segs);
    var k := FindFrom(Ranges(segs), 0, addr).value;
    i, j := Ranges(segs)[k].segmentIdx, Ranges(segs)[k].sectionIdx;
    assert RangeOf(segs, k, i, j);
  }

  /** What a successful translation of an owned address amounts to. */
  lemma OwnedTranslation(segs: seq<Segment>, i: nat, j: nat, addr: uint32, size: uint32)
    requires AllSeparated(Ranges(segs)) && Owns(segs, i, j, addr)
    ensures var seg, s := segs[i], segs[i].sections[j];
      Translate(Ranges(segs), addr, size) ==
      if IsMapped(seg, s) && Add32(addr, size) <= Add32(s.addr, s.size)
      then Some(Add32(s.offset, addr - s.addr)) else None
  {
    OwnerFound(segs, i, j, addr);
  }

  /** The translation in the fields of the file: an address that a section covers is answered if and
      only if the segment has file contents, the section is not zero-fill, and the end of the interval,
      cut to 32 bits, does not pass the section's. */
  lemma TranslationExactly(segs: seq<Segment>, i: nat, j: nat, addr: uint32, size: uint32)
    requires AllSeparated(Ranges(segs)) && i < |segs| && j < |segs[i].sections|
    requires var s := segs[i].sections[j]; s.addr <= addr < (s.addr + s.size) % 0x1_0000_0000
    ensures var seg, s := segs[i], segs[i].sections[j];
      Translate(Ranges(segs), addr, size) ==
      if seg.filesize > 0 && s.flags % 0x100 != 0x1 &&
         (addr + size) % 0x1_0000_0000 <= (s.addr + s.size) % 0x1_0000_0000
      then Some((s.offset + (addr - s.addr)) % 0x1_0000_0000) else None
  {
    OwnedTranslation(segs, i, j, addr, size);
  }

  /** An address that no section covers is not answered. */
  lemma UncoveredStops(segs: seq<Segment>, addr: uint32, size: uint32)
    requires forall i, j :: 0 <= i < |segs| && 0 <= j < |segs[i].sections| ==>
      var s := segs[i].sections[j]; !(s.addr <= addr < (s.addr + s.size) % 0x1_0000_0000)
    ensures Translate(Ranges(segs), addr, size) == None
  {
    if Translate(Ranges(segs), addr, size).Some? {
      var i, j := OwnerExists(segs, addr, size);
    }
  }

  lemma SectionAccepted(segs: seq<Segment>, fileSize: nat, i: nat, j: nat)
    requires Accepted(segs, fileSize) && i < |segs| && j < |segs[i].sections|
    ensures SectionChecks(segs[i], segs[i].sections[j]) && Add32(segs[i].fileoff, segs[i].filesize) <= fileSize
    ensures AllSeparated(Ranges(segs))
  {}

  /** The file bytes of the interval lie in the section, in its segment and in the file. */
  predicate BytesInside(seg: Segment, s: Section, fileSize: nat, off: nat, size: nat) {
    && s.offset <= off && off + size <= s.offset + s.size
    && seg.fileoff <= off && off + size <= seg.fileoff + seg.filesize <= fileSize
  }

  /** The whole file range of the section lies in the segment. */
  predicate SectionInside(seg: Segment, s: Section) {
    seg.fileoff <= s.offset && s.offset + s.size <= seg.fileoff + seg.filesize
  }

  /** Neither the address interval wraps nor, as a plain sum, do its bytes pass the segment's end. */
  predicate ReadFits(seg: Segment, s: Section, addr: nat, size: nat)
    requires s.addr <= addr
  {
    addr + size < U32 && s.offset + (addr - s.addr) + size <= seg.fileoff + seg.filesize
  }

  lemma OneOwner(segs: seq<Segment>, i: nat, j: nat, i': nat, j': nat, addr: nat)
    requires AllSeparated(Ranges(segs)) && Owns(segs, i, j, addr) && Owns(segs, i', j', addr)
    ensures i' == i && j' == j
  {
    OwnerFound(segs, i, j, addr);
    OwnerFound(segs, i', j', addr);
  }

  /** A translation that the section answers, in a segment that ends in the file. */
  predicate Answers(seg: Segment, s: Section, fileSize: nat, addr: nat, size: nat) {
    && Narrow(seg) && s.addr < U32 && s.size < U32 && SectionChecks(seg, s) && IsMapped(seg, s)
    && Add32(seg.fileoff, seg.filesize) <= fileSize
    && s.addr <= addr < Add32(s.addr, s.size) && Add32(addr, size) <= Add32(s.addr, s.size)
  }

  lemma BytesSound(seg: Segment, s: Section, fileSize: nat, addr: uint32, size: uint32)
    requires Answers(seg, s, fileSize, addr, size)
    ensures BytesInside(seg, s, fileSize, Add32(s.offset, addr - s.addr), size) <==> ReadFits(seg, s, addr, size)
  {
    MappedSectionSums(seg, s);
    if s.offset + (addr - s.addr) < U32 {
      assert Add32(s.offset, addr - s.addr) == s.offset + (addr - s.addr);
    } else {
      assert Add32(s.offset, addr - s.addr) == s.offset + (addr - s.addr) - U32;
    }
    if addr + size < U32 {
      assert Add32(addr, size) == addr + size;
    }
  }

  lemma SectionSound(seg: Segment, s: Section, fileSize: nat, addr: uint32, size: uint32)
    requires Answers(seg, s, fileSize, addr, size)
    ensures BytesInside(seg, s, fileSize, Add32(s.offset, addr - s.addr), size) && SectionInside(seg, s) <==>
      addr + size < U32 && s.offset + s.size < U32
  {
    MappedSectionSums(seg, s);
    if s.offset + s.size < U32 {
      assert Add32(s.offset, addr - s.addr) == s.offset + (addr - s.addr);
      assert Add32(s.offset, s.size) == s.offset + s.size;
    }
  }

  /** Every successful translation in an accepted image has one section that owns the address.  The
      bytes handed out lie in that section, its segment and the file if and only if the read fits.
      They do so in a section that lies in its segment as a whole if and only if neither the address
      interval nor the section's own file range wraps. */
  lemma TranslationSound(segs: seq<Segment>, fileSize: nat, addr: uint32, size: uint32) returns (i: nat, j: nat)
    requires Accepted(segs, fileSize) && forall k :: 0 <= k < |segs| ==> Narrow(segs[k])
    ensures match Translate(Ranges(segs), addr, size)
            case None => true
            case Some(off) =>
              Owns(segs, i, j, addr) && (forall i', j' :: Owns(segs, i', j', addr) ==> i' == i && j' == j) &&
              var seg, s := segs[i], segs[i].sections[j];
              (BytesInside(seg, s, fileSize, off, size) <==> ReadFits(seg, s, addr, size)) &&
              (BytesInside(seg, s, fileSize, off, size) && SectionInside(seg, s) <==>
               addr + size < U32 && s.offset + s.size < U32)
  {
    if Translate(Ranges(segs), addr, size) == None {
      return 0, 0;
    }
    i, j := OwnerExists(segs, addr, size);
    forall i', j' | Owns(segs, i', j', addr)
      ensures i' == i && j' == j
    {
      OneOwner(segs, i, j, i', j', addr);
    }
    SectionAccepted(segs, fileSize, i, j);
    OwnedTranslation(segs, i, j, addr, size);
    BytesSound(segs[i], segs[i].sections[j], fileSize, addr, size);
    SectionSound(segs[i], segs[i].sections[j], fileSize, addr, size);
  }

  /** Every unwrapped read that the section answers lies in the segment's file range. */
  ghost predicate SectionSafe(segs: seq<Segment>, i: nat, j: nat)
    requires i < |segs| && j < |segs[i].sections|
  {
    forall addr: uint32, size: uint32 ::
      Owns(segs, i, j, addr) && addr + size < U32 && Translate(Ranges(segs), addr, size).Some? ==>
      var off := Translate(Ranges(segs), addr, size).value;
      segs[i].fileoff <= off && off + size <= segs[i].fileoff + segs[i].filesize
  }

  /** A read of a whole section whose file range wraps is answered from its offset on. */
  lemma WholeSectionRead(segs: seq<Segment>, i: nat, j: nat)
    requires AllSeparated(Ranges(segs)) && i < |segs| && j < |segs[i].sections| && Narrow(segs[i])
    requires SectionChecks(segs[i], segs[i].sections[j]) && IsMapped(segs[i], segs[i].sections[j])
    requires Owns(segs, i, j, segs[i].sections[j].addr)
    ensures var seg, s := segs[i], segs[i].sections[j];
      s.addr + s.size < U32 && seg.fileoff + seg.filesize < U32 &&
      Translate(Ranges(segs), s.addr, s.size) == Some(s.offset)
  {
    hide Translate, Ranges, AllSeparated;
    var s := segs[i].sections[j];
    MappedSectionSums(segs[i], s);
    OwnedTranslation(segs, i, j, s.addr, s.size);
    assert Add32(s.offset, 0) == s.offset;
  }

  /** A mapped section that covers an address answers every unwrapped read from within its segment if
      and only if its own file range does not wrap. */
  lemma SectionSoundExactly(segs: seq<Segment>, fileSize: nat, i: nat, j: nat)
    requires Accepted(segs, fileSize) && i < |segs| && j < |segs[i].sections| && Narrow(segs[i])
    requires IsMapped(segs[i], segs[i].sections[j]) && Owns(segs, i, j, segs[i].sections[j].addr)
    ensures SectionSafe(segs, i, j) <==> segs[i].sections[j].offset + segs[i].sections[j].size < U32
  {
    var s := segs[i].sections[j];
    SectionAccepted(segs, fileSize, i, j);
    if s.offset + s.size < U32 {
      forall addr: uint32, size: uint32
        | Owns(segs, i, j, addr) && addr + size < U32 && Translate(Ranges(segs), addr, size).Some?
        ensures BytesInside(segs[i], s, fileSize, Translate(Ranges(segs), addr, size).value, size)
      {
        OwnedTranslation(segs, i, j, addr, size);
        SectionSound(segs[i], s, fileSize, addr, size);
      }
    } else {
      WholeSectionRead(segs, i, j);
    }
  }

  /** Within one range, distances between addresses are distances in the file, modulo 2^32. */
  lemma DistancesKept(segs: seq<Segment>, i: nat, j: nat, a: uint32, b: uint32, n: uint32, n': uint32)
    requires AllSeparated(Ranges(segs)) && Owns(segs, i, j, a) && Owns(segs, i, j, b) && a <= b
    requires Translate(Ranges(segs), a, n).Some? && Translate(Ranges(segs), b, n').Some?
    ensures Translate(Ranges(segs), b, n').value == Add32(Translate(Ranges(segs), a, n).value, b - a)
  {
    OwnedTranslation(segs, i, j, a, n);
    OwnedTranslation(segs, i, j, b, n');
    var s := segs[i].sections[j];
    AddTwice(s.offset, a - s.addr, b - a);
  }

  lemma AddTwice(x: nat, y: nat, z: nat)
    ensures Add32(Add32(x, y), z) == Add32(x, y + z)
  {}

  /** What a slice that loads provides: separated ranges over narrow segments, so that all of the
      above holds of its table. */
  lemma LoadedImage(m: seq<byte>, base: uint32, size: nat, t: Tables)
    requires Loads(m, base, size, t)
    ensures var segs := Segments(Commands(m, CommandCount(m), HEADER_SIZE).value);
      Accepted(segs, size) && AllSeparated(Ranges(segs)) && forall k :: 0 <= k < |segs| ==> Narrow(segs[k])
  {
    CommandsNarrow(m, CommandCount(m), HEADER_SIZE);
    SegmentsNarrow(Commands(m, CommandCount(m), HEADER_SIZE).value);
  }
}
