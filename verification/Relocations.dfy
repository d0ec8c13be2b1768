/** Which symbol is relocated to an address: the old relocation table first, then the bind records. */
module Relocations {
  import opened Words
  import opened BindOpcodes
  import opened LoadCommands
  import opened CommandLayout

  // ----------------------------------------------------- old relocation table

  const RELOC_SIZE: nat := 8
  const NLIST_SIZE: nat := 12

  /** One `struct relocation_info`, its second word taken apart. */
  datatype Reloc = Reloc(address: uint32, symbolnum: nat, length: nat, extern: nat, rtype: nat)

  function RelocAt(m: seq<byte>, off: nat): Reloc
    requires off + RELOC_SIZE <= |m|
  {
    var word := U32At(m, off + 4);
    var flags := word / 0x100_0000;
    Reloc(U32At(m, off), word % 0x100_0000, flags / 2 % 4, flags / 8 % 2, flags / 16)
  }

  /** An external absolute 32-bit relocation of the address. */
  predicate Qualifies(r: Reloc, addr: uint32) {
    r.address == addr && r.extern == 1 && r.rtype == 0 && r.length == 2
  }

  /** The position of entry `i` of the relocation table: the source adds pointers of 32 bits. */
  function RelocPos(t: Tables, i: nat): uint32 {
    Add32(t.extRelOff, RELOC_SIZE * i)
  }

  predicate RelocReadable(m: seq<byte>, t: Tables, i: nat) {
    RelocPos(t, i) + RELOC_SIZE <= |m|
  }

  datatype Scan = Match(index: nat) | NoMatch | Unreadable

  /** The scan of the relocation table from entry `i` on. */
  function ScanRelocs(m: seq<byte>, t: Tables, i: nat, addr: uint32): (r: Scan)
    ensures r.Match? ==> RelocReadable(m, t, r.index)
    decreases t.extRelCount - i
  {
    if i >= t.extRelCount then NoMatch
    else if !RelocReadable(m, t, i) then Unreadable
    else if Qualifies(RelocAt(m, RelocPos(t, i)), addr) then Match(i)
    else ScanRelocs(m, t, i + 1, addr)
  }

  // ----------------------------------------------------------------- symbols

  /** A name without its leading underscore. */
  function Strip(name: seq<byte>): seq<byte> {
    if name != [] && name[0] == 0x5F then name[1..] else name
  }

  /** The name at a string table index, `None` when no string ends within the mapping. */
  function SymName(m: seq<byte>, t: Tables, strx: uint32): Option<seq<byte>> {
    if strx == 0 then Some([])
    else
      var off := Add32(t.strOff, strx);
      if off > |m| then None
      else match ScanNul(m[off..])
        case None => None
        case Some(k) => Some(Strip(m[off..off + k]))
  }

  /** The address of a symbol, `None` for the kinds on which the source asserts. */
  function SymAddr(ntype: byte, value: uint32): Option<uint32> {
    if ntype >= 0x20 then Some(0)
    else
      var kind := ntype / 2 % 8 * 2;
      if kind == 0x0 || kind == 0xC then Some(0)
      else if kind == 0x2 || kind == 0xE then Some(value)
      else None
  }

  datatype Symbol = Symbol(addr: uint32, name: seq<byte>)

  /** `Stopped`: an assertion fails or the mapping is left. */
  datatype Lookup = Found(entry: Symbol) | NotFound | Stopped

  function SymbolPos(t: Tables, index: nat): uint32 {
    Add32(t.symOff, NLIST_SIZE * index)
  }

  /** The symbol table entry of an index. */
  function SymbolAt(m: seq<byte>, t: Tables, index: nat): Lookup {
    var off := SymbolPos(t, index);
    if index >= t.symCount || off + NLIST_SIZE > |m| then Stopped
    else
      match (SymAddr(m[off + 4], U32At(m, off + 8)), SymName(m, t, U32At(m, off)))
      case (Some(a), Some(n)) => Found(Symbol(a, n))
      case _ => Stopped
  }

  // ------------------------------------------------------------ bind records

  /** The first record from `i` on for the address. */
  function FirstBind(dbi: seq<Record>, i: nat, address: uint64): (r: Option<nat>)
    ensures r.Some? ==> i <= r.value < |dbi| && dbi[r.value].address == address
    ensures r.Some? ==> forall k :: i <= k < r.value ==> dbi[k].address != address
    ensures r.None? ==> forall k :: i <= k < |dbi| ==> dbi[k].address != address
    decreases |dbi| - i
  {
    if i >= |dbi| then None
    else if dbi[i].address == address then Some(i)
    else FirstBind(dbi, i + 1, address)
  }

  /** The symbol bound at an address, `None` for NULL. */
  function BoundSymbol(dbi: seq<Record>, address: uint64): Option<seq<byte>> {
    match FirstBind(dbi, 0, address)
    case None => None
    case Some(k) => dbi[k].symbol
  }

  method GetDyldBindInfoSymbolname(address: uint64, dbi: array<Record>, ndbi: nat) returns (name: Option<seq<byte>>)
    requires ndbi <= dbi.Length
    ensures name == BoundSymbol(dbi[..ndbi], address)
  {
    ghost var recs := dbi[..ndbi];
    for n := 0 to ndbi
      invariant FirstBind(recs, n, address) == FirstBind(recs, 0, address)
    {
      assert recs[n] == dbi[n];
      if dbi[n].address == address {
        return dbi[n].symbol;
      }
    }
    return None;
  }

  /** The answer of a bind record.  A record without a symbol would be read through NULL. */
  function BindSymbol(rec: Record): Lookup {
    match rec.symbol
    case None => Stopped
    case Some(name) => Found(Symbol((rec.address + rec.addend) % U32, Strip(name)))
  }

  // -------------------------------------------------------------- the lookup

  function RelocSymForAddr(m: seq<byte>, t: Tables, dbi: seq<Record>, addr: uint32): Lookup {
    match ScanRelocs(m, t, 0, addr)
    case Unreadable => Stopped
    case Match(i) => SymbolAt(m, t, RelocAt(m, RelocPos(t, i)).symbolnum)
    case NoMatch =>
      if !t.hasDyldInfo then NotFound
      else match FirstBind(dbi, 0, addr)
        case None => NotFound
        case Some(k) => BindSymbol(dbi[k])
  }

  method SymtabMachoFindRelocSymForAddr(lib: MachoLibrary, addr: uint32) returns (r: Lookup)
    requires lib.Valid() && lib.bind.ndbi <= lib.bind.dbi.Length
    ensures r == RelocSymForAddr(lib.image, lib.tables, lib.bind.dbi[..lib.bind.ndbi], addr)
  {
    var t := lib.tables;
    var i := 0;
    while i < t.extRelCount
      invariant 0 <= i <= t.extRelCount
      invariant ScanRelocs(lib.image, t, i, addr) == ScanRelocs(lib.image, t, 0, addr)
    {
      var off := RelocPos(t, i);
      if off + RELOC_SIZE > |lib.image| {
        return Stopped;
      }
      var reloc := RelocAt(lib.image, off);
      if reloc.address == addr && reloc.extern == 1 && reloc.rtype == 0 && reloc.length == 2 {
        return SymbolAt(lib.image, t, reloc.symbolnum);
      }
      i := i + 1;
    }
    if t.hasDyldInfo {
      ghost var recs := lib.bind.dbi[..lib.bind.ndbi];
      var n := 0;
      while n < lib.bind.ndbi
        invariant n <= lib.bind.ndbi
        invariant FirstBind(recs, n, addr) == FirstBind(recs, 0, addr)
      {
        var info := lib.bind.dbi[n];
        assert recs[n] == info;
        if info.address == addr {
          return BindSymbol(info);
        }
        n := n + 1;
      }
    }
    return NotFound;
  }

  // ------------------------------------------------------------ what it means

  /** The first `n` entries of the relocation table lie in the mapping. */
  predicate RelocsReadable(m: seq<byte>, t: Tables, n: nat) {
    forall i :: 0 <= i < n ==> RelocReadable(m, t, i)
  }

  /** Entry `i` of the relocation table relocates the address. */
  predicate RelocFor(m: seq<byte>, t: Tables, i: nat, addr: uint32) {
    i < t.extRelCount && RelocReadable(m, t, i) && Qualifies(RelocAt(m, RelocPos(t, i)), addr)
  }

  lemma {:induction false} ScanFindsNone(m: seq<byte>, t: Tables, i: nat, addr: uint32)
    requires RelocsReadable(m, t, t.extRelCount) && forall l: nat :: i <= l ==> !RelocFor(m, t, l, addr)
    ensures ScanRelocs(m, t, i, addr) == NoMatch
    decreases t.extRelCount - i
  {
    if i < t.extRelCount {
      assert !RelocFor(m, t, i, addr);
      ScanFindsNone(m, t, i + 1, addr);
    }
  }

  lemma {:induction false} ScanFindsFirst(m: seq<byte>, t: Tables, i: nat, addr: uint32, k: nat)
    requires i <= k && RelocFor(m, t, k, addr) && forall l: nat :: i <= l < k ==> !RelocFor(m, t, l, addr)
    requires RelocsReadable(m, t, k)
    ensures ScanRelocs(m, t, i, addr) == Match(k)
    decreases k - i
  {
    if i < k {
      assert !RelocFor(m, t, i, addr);
      ScanFindsFirst(m, t, i + 1, addr, k);
    }
  }

  /** The first of the entries for the address, when there is one. */
  lemma {:induction false} FirstReloc(m: seq<byte>, t: Tables, addr: uint32, k: nat) returns (first: nat)
    requires RelocFor(m, t, k, addr)
    ensures RelocFor(m, t, first, addr) && forall l: nat :: l < first ==> !RelocFor(m, t, l, addr)
  {
    first := k;
    if l: nat :| l < k && RelocFor(m, t, l, addr) {
      first := FirstReloc(m, t, addr, l);
    }
  }

  /** A bind record for the address decides only when the image has bind records. */
  predicate BindFor(t: Tables, dbi: seq<Record>, k: nat, addr: uint32) {
    t.hasDyldInfo && k < |dbi| && dbi[k].address == addr
  }

  /** A qualifying relocation decides before any bind record, and the first one decides: what comes
      after it need not even lie in the mapping. */
  lemma RelocDecides(m: seq<byte>, t: Tables, dbi: seq<Record>, addr: uint32, i: nat)
    requires RelocsReadable(m, t, i)
    requires RelocFor(m, t, i, addr) && forall l: nat :: l < i ==> !RelocFor(m, t, l, addr)
    ensures RelocSymForAddr(m, t, dbi, addr) == SymbolAt(m, t, RelocAt(m, RelocPos(t, i)).symbolnum)
  {
    ScanFindsFirst(m, t, 0, addr, i);
  }

  lemma NoRelocMatches(m: seq<byte>, t: Tables, dbi: seq<Record>, addr: uint32)
    requires RelocsReadable(m, t, t.extRelCount) && t.hasDyldInfo && forall i: nat :: !RelocFor(m, t, i, addr)
    ensures RelocSymForAddr(m, t, dbi, addr) ==
      match FirstBind(dbi, 0, addr)
      case None => NotFound
      case Some(k) => BindSymbol(dbi[k])
  {
    ScanFindsNone(m, t, 0, addr);
  }

  /** Without one, the first bind record for the address decides. */
  lemma BindDecides(m: seq<byte>, t: Tables, dbi: seq<Record>, addr: uint32, k: nat)
    requires RelocsReadable(m, t, t.extRelCount) && forall i: nat :: !RelocFor(m, t, i, addr)
    requires BindFor(t, dbi, k, addr) && forall l: nat :: l < k ==> !BindFor(t, dbi, l, addr)
    ensures RelocSymForAddr(m, t, dbi, addr) == BindSymbol(dbi[k])
  {
    NoRelocMatches(m, t, dbi, addr);
    var first := FirstBind(dbi, 0, addr);
    assert first.Some? && (first.value < k ==> BindFor(t, dbi, first.value, addr));
  }

  /** The lookup finds nothing exactly when neither table has an entry for the address. */
  lemma NothingFound(m: seq<byte>, t: Tables, dbi: seq<Record>, addr: uint32)
    requires RelocsReadable(m, t, t.extRelCount)
    ensures RelocSymForAddr(m, t, dbi, addr) == NotFound <==>
      (forall i: nat :: !RelocFor(m, t, i, addr)) && (forall k: nat :: !BindFor(t, dbi, k, addr))
  {
    if i: nat :| RelocFor(m, t, i, addr) {
      var first := FirstReloc(m, t, addr, i);
      RelocDecides(m, t, dbi, addr, first);
    } else {
      ScanFindsNone(m, t, 0, addr);
      var first := FirstBind(dbi, 0, addr);
      assert first.Some? && t.hasDyldInfo ==> BindFor(t, dbi, first.value, addr);
    }
  }

  /** In the bind case the name is the bind table's answer for the address, without its first character
      if that is an underscore, and the address is the bound one plus the addend, cut to 32 bits. */
  lemma BindNameStripped(m: seq<byte>, t: Tables, dbi: seq<Record>, addr: uint32)
    requires RelocsReadable(m, t, t.extRelCount) && forall i: nat :: !RelocFor(m, t, i, addr)
    ensures match RelocSymForAddr(m, t, dbi, addr)
      case Found(entry) =>
        var answer, first := BoundSymbol(dbi, addr), FirstBind(dbi, 0, addr);
        answer.Some? && first.Some? && Bared(answer.value, entry.name) &&
        entry.addr == (addr + dbi[first.value].addend) % 0x1_0000_0000
      case _ => true
  {
    ScanFindsNone(m, t, 0, addr);
  }

  /** `bare` is the text without its first character if that is an underscore. */
  predicate Bared(text: seq<byte>, bare: seq<byte>) {
    (text != [] && text[0] == 0x5F ==> text == [0x5F] + bare) &&
    (text == [] || text[0] != 0x5F ==> text == bare)
  }

  lemma StripBares(name: seq<byte>)
    ensures Bared(name, Strip(name))
  {
    if name != [] && name[0] == 0x5F {
      assert name == [0x5F] + name[1..];
    }
  }

  /** The name of a symbol is the text in the string table up to the first NUL, without a leading
      underscore. */
  lemma SymNameInFile(m: seq<byte>, t: Tables, strx: uint32)
    ensures strx == 0 ==> SymName(m, t, strx) == Some([])
    ensures match SymName(m, t, strx)
      case None => true
      case Some(name) => strx != 0 ==>
        var off := (t.strOff + strx) % 0x1_0000_0000;
        off <= |m| && exists text | text + [0] <= m[off..] :: 0 !in text && Bared(text, name)
  {
    hide Strip;
    var off := Add32(t.strOff, strx);
    if strx != 0 && off <= |m| && ScanNul(m[off..]).Some? {
      var k := ScanNul(m[off..]).value;
      var text := m[off..off + k];
      assert m[off..][..k + 1] == text + [0];
      assert forall i :: 0 <= i < k ==> text[i] == m[off..][i];
      StripBares(text);
    }
  }

  // ------------------------------------------------------------------- layout

  lemma FlagFields(pcrel: nat, length: nat, extern: nat, rtype: nat)
    requires pcrel < 2 && length < 4 && extern < 2 && rtype < 0x10
    ensures var flags := pcrel + 2 * (length + 4 * (extern + 2 * rtype));
      flags < 0x100 && flags / 2 % 4 == length && flags / 8 % 2 == extern && flags / 16 == rtype
  {
    assert pcrel + 2 * (length + 4 * (extern + 2 * rtype)) == pcrel + 2 * length + 8 * extern + 16 * rtype;
  }

  /** A relocation entry written as its bit fields lie in the C structure is read back. */
  lemma RelocRoundTrip(m: seq<byte>, off: nat, r: Reloc, pcrel: nat)
    requires r.symbolnum < 0x100_0000 && pcrel < 2 && r.length < 4 && r.extern < 2 && r.rtype < 0x10
    requires At(m, off, WriteReloc(WrittenReloc(r, pcrel)))
    ensures RelocAt(m, off) == r
  {
    var flags := pcrel + 2 * (r.length + 4 * (r.extern + 2 * r.rtype));
    FlagFields(pcrel, r.length, r.extern, r.rtype);
    var word := r.symbolnum + 0x100_0000 * flags;
    WordsRead(m, off, [r.address, word], 0);
    WordsRead(m, off, [r.address, word], 1);
    assert word / 0x100_0000 == flags;
  }

  lemma EntryRead(m: seq<byte>, off: nat, strx: uint32, ntype: byte, rest: seq<byte>, value: uint32)
    requires |rest| == 3 && At(m, off, WriteWords([strx]) + (([ntype] + rest) + WriteWords([value])))
    ensures off + NLIST_SIZE <= |m|
    ensures U32At(m, off) == strx && m[off + 4] == ntype && U32At(m, off + 8) == value
  {
    hide U32At;
    AtSplit(m, off, WriteWords([strx]), ([ntype] + rest) + WriteWords([value]));
    AtSplit(m, off + 4, [ntype] + rest, WriteWords([value]));
    WordsRead(m, off, [strx], 0);
    WordsRead(m, off + 8, [value], 0);
    assert m[off + 4] == m[off + 4..off + 8][0] == ntype;
  }

  lemma StringRead(m: seq<byte>, off: nat, name: seq<byte>)
    requires 0 !in name && At(m, off, name + [0])
    ensures off + |name| < |m| && ScanNul(m[off..]) == Some(|name|) && m[off..off + |name|] == name
  {
    AtSplit(m, off, name, [0]);
    var s := m[off..];
    assert s[|name|] == m[off + |name|..off + |name| + 1][0] == 0;
    assert forall k :: 0 <= k < |name| ==> s[k] == m[off..off + |name|][k];
    var found := ScanNul(s);
    assert found.Some?;
    assert !(found.value < |name|);
  }

  // -------------------------------------------------------- whole tables as written

  /** One `struct nlist`; `rest` is n_sect and n_desc. */
  datatype SymbolEntry = SymbolEntry(strx: uint32, ntype: byte, rest: seq<byte>, value: uint32)

  function WriteSymbol(e: SymbolEntry): (b: seq<byte>)
    requires |e.rest| == 3
    ensures |b| == 12
  {
    WriteWords([e.strx]) + (([e.ntype] + e.rest) + WriteWords([e.value]))
  }

  /** The symbol table: its entries one after the other. */
  function WriteSymbols(es: seq<SymbolEntry>): (b: seq<byte>)
    requires forall k :: 0 <= k < |es| ==> |es[k].rest| == 3
    ensures |b| == 12 * |es|
  {
    if es == [] then [] else WriteSymbol(es[0]) + WriteSymbols(es[1..])
  }

  lemma {:induction false} SymbolWritten(m: seq<byte>, off: nat, es: seq<SymbolEntry>, k: nat)
    requires (forall l :: 0 <= l < |es| ==> |es[l].rest| == 3) && k < |es| && At(m, off, WriteSymbols(es))
    ensures At(m, off + 12 * k, WriteSymbol(es[k]))
    decreases k
  {
    hide At, WriteSymbol;
    AtSplit(m, off, WriteSymbol(es[0]), WriteSymbols(es[1..]));
    if k > 0 {
      SymbolWritten(m, off + 12, es[1..], k - 1);
    }
  }

  /** The entry has no name, or its name stands in the string table. */
  predicate NameWritten(m: seq<byte>, strOff: nat, e: SymbolEntry, text: seq<byte>) {
    0 !in text && if e.strx == 0 then text == [] else At(m, (strOff + e.strx) % 0x1_0000_0000, text + [0])
  }

  /** What the lookup of an entry with this text gives: debugger entries and undefined symbols are at 0,
      absolute ones and those in a section at their value, and on the other kinds the source asserts. */
  predicate EntryFound(e: SymbolEntry, text: seq<byte>, r: Lookup) {
    if e.ntype >= 0x20 || e.ntype in {0x0, 0x1, 0x10, 0x11, 0xC, 0xD, 0x1C, 0x1D} then
      r.Found? && r.entry.addr == 0 && Bared(text, r.entry.name)
    else if e.ntype in {0x2, 0x3, 0x12, 0x13, 0xE, 0xF, 0x1E, 0x1F} then
      r.Found? && r.entry.addr == e.value && Bared(text, r.entry.name)
    else r == Stopped
  }

  /** A symbol table entry and its name, written as the C structures lie, are found again under the
      entry's index; the kinds on which the source asserts are not. */
  lemma SymbolRoundTrip(m: seq<byte>, t: Tables, index: nat, e: SymbolEntry, text: seq<byte>)
    requires index < t.symCount && |e.rest| == 3 && NameWritten(m, t.strOff, e, text)
    requires At(m, (t.symOff + 12 * index) % 0x1_0000_0000, WriteSymbol(e))
    ensures EntryFound(e, text, SymbolAt(m, t, index))
  {
    hide At, WriteWords, U32At, ScanNul, Strip, Bared;
    EntryRead(m, SymbolPos(t, index), e.strx, e.ntype, e.rest, e.value);
    if e.strx != 0 {
      StringRead(m, Add32(t.strOff, e.strx), text);
    }
    StripBares(text);
    assert Strip([]) == [] by {
      StripBares([]);
      BaredNothing(Strip([]));
    }
  }

  lemma BaredNothing(bare: seq<byte>)
    requires Bared([], bare)
    ensures bare == []
  {}

  /** A whole symbol table: the lookup of index `k` gives the `k`-th entry that was written, and stops
      behind the last. */
  lemma SymbolTableRoundTrip(m: seq<byte>, t: Tables, es: seq<SymbolEntry>, k: nat, text: seq<byte>)
    requires |m| < U32 && t.symCount == |es| && forall l :: 0 <= l < |es| ==> |es[l].rest| == 3
    requires At(m, t.symOff, WriteSymbols(es)) && (k < |es| ==> NameWritten(m, t.strOff, es[k], text))
    ensures if k < |es| then EntryFound(es[k], text, SymbolAt(m, t, k)) else SymbolAt(m, t, k) == Stopped
  {
    hide NameWritten, EntryFound, WriteSymbols;
    if k < |es| {
      SymbolWritten(m, t.symOff, es, k);
      SymbolRoundTrip(m, t, k, es[k], text);
    }
  }

  /** An entry of the relocation table with the bit that the model drops. */
  datatype WrittenReloc = WrittenReloc(reloc: Reloc, pcrel: nat)

  predicate WritableReloc(w: WrittenReloc) {
    && w.reloc.symbolnum < 0x100_0000 && w.pcrel < 2
    && w.reloc.length < 4 && w.reloc.extern < 2 && w.reloc.rtype < 0x10
  }

  function WriteReloc(w: WrittenReloc): (b: seq<byte>)
    requires WritableReloc(w)
    ensures |b| == 8
  {
    var flags := w.pcrel + 2 * (w.reloc.length + 4 * (w.reloc.extern + 2 * w.reloc.rtype));
    FlagFields(w.pcrel, w.reloc.length, w.reloc.extern, w.reloc.rtype);
    WriteWords([w.reloc.address, w.reloc.symbolnum + 0x100_0000 * flags])
  }

  /** The relocation table: its entries one after the other. */
  function WriteRelocs(ws: seq<WrittenReloc>): (b: seq<byte>)
    requires forall k :: 0 <= k < |ws| ==> WritableReloc(ws[k])
    ensures |b| == 8 * |ws|
  {
    if ws == [] then [] else WriteReloc(ws[0]) + WriteRelocs(ws[1..])
  }

  lemma {:induction false} RelocWritten(m: seq<byte>, off: nat, ws: seq<WrittenReloc>, k: nat)
    requires (forall l :: 0 <= l < |ws| ==> WritableReloc(ws[l])) && k < |ws| && At(m, off, WriteRelocs(ws))
    ensures off + 8 * k + 8 <= |m| && At(m, off + 8 * k, WriteReloc(ws[k]))
    decreases k
  {
    hide At, WriteReloc, WritableReloc;
    AtSplit(m, off, WriteReloc(ws[0]), WriteRelocs(ws[1..]));
    if k == 0 {
      AtFits(m, off, WriteReloc(ws[0]));
    } else {
      RelocWritten(m, off + 8, ws[1..], k - 1);
    }
  }

  lemma AtFits(m: seq<byte>, off: nat, part: seq<byte>)
    requires At(m, off, part)
    ensures off + |part| <= |m|
  {}

  /** The slice holds this relocation table. */
  predicate RelocsWritten(m: seq<byte>, t: Tables, ws: seq<WrittenReloc>) {
    && |m| < U32 && t.extRelCount == |ws| && (forall k :: 0 <= k < |ws| ==> WritableReloc(ws[k]))
    && At(m, t.extRelOff, WriteRelocs(ws))
  }

  /** The entry is an external absolute 32-bit relocation of the address. */
  predicate Relocates(w: WrittenReloc, addr: uint32) {
    w.reloc.address == addr && w.reloc.extern == 1 && w.reloc.rtype == 0 && w.reloc.length == 2
  }

  lemma WrittenEntry(m: seq<byte>, t: Tables, ws: seq<WrittenReloc>, k: nat, addr: uint32)
    requires RelocsWritten(m, t, ws) && k < |ws|
    ensures RelocReadable(m, t, k) && RelocAt(m, RelocPos(t, k)) == ws[k].reloc
    ensures RelocFor(m, t, k, addr) <==> Relocates(ws[k], addr)
  {
    hide At, WriteRelocs, RelocAt;
    RelocWritten(m, t.extRelOff, ws, k);
    RelocRoundTrip(m, RelocPos(t, k), ws[k].reloc, ws[k].pcrel);
  }

  /** A whole relocation table: the first written entry that relocates the address decides, by its
      symbol number, and without one the bind records do. */
  lemma RelocTableAnswers(m: seq<byte>, t: Tables, ws: seq<WrittenReloc>, dbi: seq<Record>, addr: uint32, k: nat)
    requires RelocsWritten(m, t, ws) && k <= |ws| && forall l :: 0 <= l < k ==> !Relocates(ws[l], addr)
    ensures k < |ws| && Relocates(ws[k], addr) ==>
      RelocSymForAddr(m, t, dbi, addr) == SymbolAt(m, t, ws[k].reloc.symbolnum)
    ensures k == |ws| ==>
      match (if t.hasDyldInfo then FirstBind(dbi, 0, addr) else None)
      case None => RelocSymForAddr(m, t, dbi, addr) == NotFound
      case Some(b) => RelocSymForAddr(m, t, dbi, addr) == BindSymbol(dbi[b])
  {
    hide RelocFor, RelocAt, RelocReadable, Relocates, SymbolAt, BindSymbol;
    forall l: nat | l < |ws|
      ensures RelocReadable(m, t, l) && RelocAt(m, RelocPos(t, l)) == ws[l].reloc
      ensures RelocFor(m, t, l, addr) <==> Relocates(ws[l], addr)
    {
      WrittenEntry(m, t, ws, l, addr);
    }
    if k < |ws| && Relocates(ws[k], addr) {
      RelocDecides(m, t, dbi, addr, k);
    }
    if k == |ws| {
      BehindTable(m, t, addr);
      ScanFindsNone(m, t, 0, addr);
    }
  }

  lemma BehindTable(m: seq<byte>, t: Tables, addr: uint32)
    ensures forall l: nat :: l >= t.extRelCount ==> !RelocFor(m, t, l, addr)
  {}
}
