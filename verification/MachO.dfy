/** Segments and sections of a Mach-O image, and the lookups that the bind decoder makes in them. */
module MachO {
  import opened Words

  /** A name field of the file, or `None` for the literal "??". */
  type Name = Option<seq<byte>>

  /** `at` is the position of the structure in the file: the model's pointer to it. */
  datatype Section = Section(at: nat, sectname: seq<byte>, addr: uint64, size: uint64,
                             offset: uint32, flags: uint32)

  datatype Segment = Segment(at: nat, segname: seq<byte>, vmaddr: uint64, vmsize: uint64,
                             fileoff: uint64, filesize: uint64, sections: seq<Section>)

  /** The segments handed to the decoder, as 32-bit or as 64-bit commands.  Two null arrays
      behave as `Segs64([])`. */
  datatype SegmentTable = Segs32(segs: seq<Segment>) | Segs64(segs: seq<Segment>) {
    function Modulus(): nat {
      if Segs32? then U32 else U64
    }

    function PointerSize(): (n: nat)
      ensures n == 4 || n == 8
    {
      if Segs32? then 4 else 8
    }
  }

  /** `addr + size` in the width of the segment table's fields. */
  function SectionEnd(t: SegmentTable, s: Section): nat {
    (s.addr + s.size) % t.Modulus()
  }

  predicate Covers(t: SegmentTable, s: Section, address: uint64) {
    s.addr <= address < SectionEnd(t, s)
  }

  function SegStartAddress(t: SegmentTable, segIndex: nat): uint64 {
    if segIndex < |t.segs| then t.segs[segIndex].vmaddr else 0
  }

  function SegmentName(t: SegmentTable, segIndex: nat): Name {
    if segIndex < |t.segs| then Some(t.segs[segIndex].segname) else None
  }

  /** The first section from `j` on that covers the address. */
  function FindSectionFrom(t: SegmentTable, sections: seq<Section>, j: nat, address: uint64): (r: Option<nat>)
    ensures r.Some? ==> j <= r.value < |sections| && Covers(t, sections[r.value], address)
    ensures r.Some? ==> forall k :: j <= k < r.value ==> !Covers(t, sections[k], address)
    ensures r.None? ==> forall k :: j <= k < |sections| ==> !Covers(t, sections[k], address)
    decreases |sections| - j
  {
    if j >= |sections| then None
    else if Covers(t, sections[j], address) then Some(j)
    else FindSectionFrom(t, sections, j + 1, address)
  }

  function FindSection(t: SegmentTable, segIndex: nat, address: uint64): (r: Option<nat>) {
    if segIndex < |t.segs| then FindSectionFrom(t, t.segs[segIndex].sections, 0, address) else None
  }

  function SectionName(t: SegmentTable, segIndex: nat, address: uint64): Name {
    match FindSection(t, segIndex, address)
    case None => None
    case Some(j) => Some(t.segs[segIndex].sections[j].sectname)
  }

  /** The addresses of a section, its end cut to `w`. */
  predicate Spans(s: Section, w: nat, address: uint64)
    requires w > 0
  {
    s.addr <= address < (s.addr + s.size) % w
  }

  /** What the name means: that of the first section of the segment whose addresses, with an end cut to
      the width of the table's fields, hold the address. */
  lemma SectionNameMeans(t: SegmentTable, seg: nat, address: uint64)
    ensures var w := if t.Segs32? then 0x1_0000_0000 else 0x1_0000_0000_0000_0000;
      var sections := if seg < |t.segs| then t.segs[seg].sections else [];
      match SectionName(t, seg, address)
      case None => forall j :: 0 <= j < |sections| ==> !Spans(sections[j], w, address)
      case Some(name) => exists j | 0 <= j < |sections| && name == sections[j].sectname ::
        Spans(sections[j], w, address) && forall i :: 0 <= i < j ==> !Spans(sections[i], w, address)
  {
    var found := FindSection(t, seg, address);
    if found.Some? {
      var s := t.segs[seg].sections[found.value];
      assert Covers(t, s, address);
      assert forall i :: 0 <= i < found.value ==> !Covers(t, t.segs[seg].sections[i], address);
    }
  }

  /** The scan that the source makes, section by section. */
  method LookupSectionName(t: SegmentTable, segIndex: nat, address: uint64) returns (name: Name)
    ensures name == SectionName(t, segIndex, address)
  {
    if segIndex >= |t.segs| {
      return None;
    }
    var sections := t.segs[segIndex].sections;
    var i := 0;
    while i < |sections|
      invariant i <= |sections|
      invariant FindSectionFrom(t, sections, i, address) == FindSectionFrom(t, sections, 0, address)
    {
      if sections[i].addr <= address && address < SectionEnd(t, sections[i]) {
        return Some(sections[i].sectname);
      }
      i := i + 1;
    }
    return None;
  }
}
