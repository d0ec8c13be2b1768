/** The bind stream as a compressed table: encode only the columns that change, decode the table back. */
module BindTable {
  import opened Words
  import opened MachO
  import opened BindOpcodes
  import opened BindPrograms

  /** One tuple of the table that the stream stands for. */
  datatype Row = Row(
    seg: nibble,
    offset: uint64,
    typ: nibble,
    ordinal: int32,
    symbol: seq<byte>,
    weak: bool,
    addend: int64)

  /** The record that the row stands for in an image. */
  function RowRecord(env: Env, row: Row): Record {
    var address := (SegStartAddress(env.segs, row.seg) + row.offset) % U64;
    Record(SegmentName(env.segs, row.seg), SectionName(env.segs, row.seg, address), address, row.typ,
           row.addend % U64, OrdinalName(row.ordinal, env.dylibs), Some(row.symbol), row.weak)
  }

  function RowRecords(env: Env, rows: seq<Row>): seq<Record> {
    seq(|rows|, k requires 0 <= k < |rows| => RowRecord(env, rows[k]))
  }

  /** What the decoder is known to hold in each column, `None` before the column is first set. */
  datatype Columns = Columns(
    ordinal: Option<int32>,
    symbol: Option<(seq<byte>, bool)>,
    typ: nibble,
    addend: int64,
    place: Option<(nibble, uint64)>)

  const INIT_COLUMNS := Columns(None, None, 0, 0, None)

  function SetOrdinal(o: int32): Instr {
    if 0 <= o < 0x10 then SetOrdinalImm(o)
    else if -0x10 < o < 0 then SetSpecialImm(o + 0x10)
    else SetOrdinalUleb(o % U32)
  }

  /** At most one instruction for each column, and none for a column that keeps its value. */
  function OrdinalColumn(c: Columns, row: Row): seq<Instr> {
    if c.ordinal == Some(row.ordinal) then [] else [SetOrdinal(row.ordinal)]
  }

  function SymbolColumn(c: Columns, row: Row): seq<Instr> {
    if c.symbol == Some((row.symbol, row.weak)) then []
    else [SetSymbol(row.symbol, if row.weak then 1 else 0)]
  }

  function TypeColumn(c: Columns, row: Row): seq<Instr> {
    if c.typ == row.typ then [] else [SetType(row.typ)]
  }

  function AddendColumn(c: Columns, row: Row): seq<Instr> {
    if c.addend == row.addend then [] else [SetAddend(row.addend)]
  }

  function PlaceColumn(c: Columns, row: Row): seq<Instr> {
    if c.place == Some((row.seg, row.offset)) then []
    else if c.place.Some? && c.place.value.0 == row.seg then [AddAddr((row.offset - c.place.value.1) % U64)]
    else [SetSegment(row.seg, row.offset)]
  }

  function SetColumns(c: Columns, row: Row): seq<seq<Instr>> {
    [OrdinalColumn(c, row), SymbolColumn(c, row), TypeColumn(c, row), AddendColumn(c, row), PlaceColumn(c, row)]
  }

  function Flatten(columns: seq<seq<Instr>>): seq<Instr> {
    if columns == [] then [] else columns[0] + Flatten(columns[1..])
  }

  /** The columns after the row's bind, which moves the offset by a pointer. */
  function NextColumns(row: Row, ptr: nat): Columns {
    Columns(Some(row.ordinal), Some((row.symbol, row.weak)), row.typ, row.addend,
            Some((row.seg, (row.offset + ptr) % U64)))
  }

  /** The reference encoder. */
  function TableProgram(rows: seq<Row>, c: Columns, ptr: nat): seq<Instr> {
    if rows == [] then []
    else Flatten(SetColumns(c, rows[0])) + ([DoBind] + TableProgram(rows[1..], NextColumns(rows[0], ptr), ptr))
  }

  predicate NulFree(rows: seq<Row>) {
    forall k :: 0 <= k < |rows| ==> 0 !in rows[k].symbol
  }

  /** A column is nothing or one instruction that sets registers. */
  predicate IsColumn(column: seq<Instr>) {
    |column| <= 1 && forall i :: i in column ==> !Halts(i) && Repeats(i) == 0
  }

  lemma {:induction false} FlattenEncodable(columns: seq<seq<Instr>>)
    requires forall k :: 0 <= k < |columns| ==> IsColumn(columns[k]) && AllEncodable(columns[k])
    ensures AllEncodable(Flatten(columns)) && Straight(Flatten(columns))
  {
    if columns != [] {
      FlattenEncodable(columns[1..]);
      assert IsColumn(columns[0]) && AllEncodable(columns[0]);
    }
  }

  lemma {:induction false} TableEncodable(rows: seq<Row>, c: Columns, ptr: nat)
    requires NulFree(rows)
    ensures AllEncodable(TableProgram(rows, c, ptr))
    ensures Straight(TableProgram(rows, c, ptr))
  {
    if rows != [] {
      FlattenEncodable(SetColumns(c, rows[0]));
      TableEncodable(rows[1..], NextColumns(rows[0], ptr), ptr);
    }
  }

  function EncodeTable(rows: seq<Row>, ptr: nat): seq<byte>
    requires NulFree(rows)
  {
    TableEncodable(rows, INIT_COLUMNS, ptr);
    EncodeAll(TableProgram(rows, INIT_COLUMNS, ptr))
  }

  // ------------------------------------------------------------------- proof

  /** The decoder's registers hold what the encoder thinks they hold. */
  predicate Holds(env: Env, c: Columns, r: Regs) {
    && (c.ordinal.Some? ==> r.fromDylib == OrdinalName(c.ordinal.value, env.dylibs))
    && (c.symbol.Some? ==> r.symbol == Some(c.symbol.value.0) && r.weak == c.symbol.value.1)
    && r.typ == c.typ
    && r.addend == c.addend
    && (c.place.Some? ==> AtPlace(env, c.place.value.0, c.place.value.1, r))
  }

  predicate AtPlace(env: Env, seg: nibble, offset: uint64, r: Regs) {
    && r.segIndex == seg && r.segOffset == offset
    && r.segStart == SegStartAddress(env.segs, seg) && r.segName == SegmentName(env.segs, seg)
  }

  /** The registers after a column's instruction, if there is one. */
  function Applied(env: Env, column: seq<Instr>, r: Regs): Regs {
    if column == [] then r else SetRegs(env, column[0], r)
  }

  lemma ColumnFirst(env: Env, column: seq<Instr>, rest: seq<Instr>, r: Regs)
    requires IsColumn(column)
    ensures RunProgram(env, column + rest, r) == RunProgram(env, rest, Applied(env, column, r))
  {
    if column == [] {
      assert column + rest == rest;
    } else {
      assert (column + rest)[1..] == rest;
      var run := RunProgram(env, rest, Applied(env, column, r));
      assert [] + run.recs == run.recs;
    }
  }

  lemma OrdinalSet(o: int32)
    ensures SetOrdinal(o).SetOrdinalUleb? ==> ToInt32(SetOrdinal(o).ord) == o
  {}

  lemma OrdinalReached(env: Env, c: Columns, row: Row, r: Regs)
    requires Holds(env, c, r)
    ensures var r' := Applied(env, OrdinalColumn(c, row), r);
      r' == r.(ordinal := r'.ordinal, fromDylib := OrdinalName(row.ordinal, env.dylibs))
  {
    OrdinalSet(row.ordinal);
  }

  lemma SymbolReached(env: Env, c: Columns, row: Row, r: Regs)
    requires c.symbol.Some? ==> r.symbol == Some(c.symbol.value.0) && r.weak == c.symbol.value.1
    ensures Applied(env, SymbolColumn(c, row), r) == r.(symbol := Some(row.symbol), weak := row.weak)
  {}

  lemma PlaceReached(env: Env, c: Columns, row: Row, r: Regs)
    requires c.place.Some? ==> AtPlace(env, c.place.value.0, c.place.value.1, r)
    ensures Applied(env, PlaceColumn(c, row), r) ==
      r.(segIndex := row.seg, segOffset := row.offset, segStart := SegStartAddress(env.segs, row.seg),
         segName := SegmentName(env.segs, row.seg))
  {}

  /** The registers after the columns' instructions. */
  function AppliedAll(env: Env, columns: seq<seq<Instr>>, r: Regs): Regs {
    if columns == [] then r else AppliedAll(env, columns[1..], Applied(env, columns[0], r))
  }

  /** The column instructions bring the registers to the row and write nothing. */
  lemma {:induction false} ColumnsRun(env: Env, columns: seq<seq<Instr>>, rest: seq<Instr>, r: Regs)
    requires forall k :: 0 <= k < |columns| ==> IsColumn(columns[k])
    ensures RunProgram(env, Flatten(columns) + rest, r) == RunProgram(env, rest, AppliedAll(env, columns, r))
  {
    if columns == [] {
      assert Flatten(columns) + rest == rest;
    } else {
      assert Flatten(columns) + rest == columns[0] + (Flatten(columns[1..]) + rest);
      ColumnFirst(env, columns[0], Flatten(columns[1..]) + rest, r);
      ColumnsRun(env, columns[1..], rest, Applied(env, columns[0], r));
    }
  }

  lemma AppliedFive(env: Env, a: seq<Instr>, b: seq<Instr>, c: seq<Instr>, d: seq<Instr>, e: seq<Instr>, r: Regs)
    ensures AppliedAll(env, [a, b, c, d, e], r) ==
      Applied(env, e, Applied(env, d, Applied(env, c, Applied(env, b, Applied(env, a, r)))))
  {
    assert [a, b, c, d, e][1..] == [b, c, d, e];
    assert [b, c, d, e][1..] == [c, d, e];
    assert [c, d, e][1..] == [d, e];
    assert [d, e][1..] == [e];
    assert [e][1..] == [];
    var r1 := Applied(env, a, r);
    var r2 := Applied(env, b, r1);
    var r3 := Applied(env, c, r2);
    var r4 := Applied(env, d, r3);
    assert AppliedAll(env, [e], r4) == Applied(env, e, r4);
    assert AppliedAll(env, [d, e], r3) == Applied(env, e, Applied(env, d, r3));
    assert AppliedAll(env, [b, c, d, e], r1) == AppliedAll(env, [d, e], r3);
  }

  /** The registers at the row's bind. */
  function RowRegs(env: Env, c: Columns, row: Row, r: Regs): Regs {
    AppliedAll(env, SetColumns(c, row), r)
  }

  lemma RowRegsReached(env: Env, c: Columns, row: Row, r: Regs)
    requires Holds(env, c, r)
    ensures var r' := RowRegs(env, c, row, r);
      AtPlace(env, row.seg, row.offset, r') && r'.fromDylib == OrdinalName(row.ordinal, env.dylibs) &&
      r'.symbol == Some(row.symbol) && r'.weak == row.weak && r'.typ == row.typ && r'.addend == row.addend
  {
    AppliedFive(env, OrdinalColumn(c, row), SymbolColumn(c, row), TypeColumn(c, row), AddendColumn(c, row),
                PlaceColumn(c, row), r);
    OrdinalReached(env, c, row, r);
    var r1 := Applied(env, OrdinalColumn(c, row), r);
    SymbolReached(env, c, row, r1);
    var r2 := Applied(env, SymbolColumn(c, row), r1);
    var r3 := Applied(env, TypeColumn(c, row), r2);
    assert r3 == r2.(typ := row.typ);
    var r4 := Applied(env, AddendColumn(c, row), r3);
    assert r4 == r3.(addend := row.addend);
    PlaceReached(env, c, row, r4);
  }

  lemma RowRegsHold(env: Env, c: Columns, row: Row, r: Regs)
    requires Holds(env, c, r)
    ensures var r' := RowRegs(env, c, row, r);
      Emit(r', CurrentSection(env, r')) == RowRecord(env, row) &&
      Holds(env, NextColumns(row, env.segs.PointerSize()), Advance(r', env.segs.PointerSize()))
  {
    RowRegsReached(env, c, row, r);
  }

  lemma BindFirst(env: Env, rest: seq<Instr>, r: Regs)
    ensures RunProgram(env, [DoBind] + rest, r) ==
      RunProgram(env, rest, Advance(r, env.segs.PointerSize())).After([Emit(r, CurrentSection(env, r))])
  {
    SingleBind(env, DoBind, r);
    assert ([DoBind] + rest)[1..] == rest;
  }

  lemma ColumnsAre(c: Columns, row: Row)
    ensures forall k :: 0 <= k < |SetColumns(c, row)| ==> IsColumn(SetColumns(c, row)[k])
  {}

  /** The instructions of one row write that row's record and nothing else. */
  lemma RowRuns(env: Env, c: Columns, row: Row, rest: seq<Instr>, r: Regs)
    requires Holds(env, c, r)
    ensures RunProgram(env, Flatten(SetColumns(c, row)) + ([DoBind] + rest), r) ==
      RunProgram(env, rest, Advance(RowRegs(env, c, row, r), env.segs.PointerSize())).After([RowRecord(env, row)])
  {
    hide RunProgram, AppliedAll, Flatten, Emit, CurrentSection, RowRecord, Holds;
    hide OrdinalColumn, SymbolColumn, PlaceColumn;
    var r' := RowRegs(env, c, row, r);
    ColumnsAre(c, row);
    ColumnsRun(env, SetColumns(c, row), [DoBind] + rest, r);
    RowRegsHold(env, c, row, r);
    BindFirst(env, rest, r');
  }

  lemma {:induction false} TableRuns(env: Env, rows: seq<Row>, c: Columns, r: Regs)
    requires Holds(env, c, r)
    ensures var run := RunProgram(env, TableProgram(rows, c, env.segs.PointerSize()), r);
      run.outcome == Exhausted && run.recs == RowRecords(env, rows)
  {
    if rows != [] {
      var ptr := env.segs.PointerSize();
      var next := NextColumns(rows[0], ptr);
      RowRuns(env, c, rows[0], TableProgram(rows[1..], next, ptr), r);
      RowRegsHold(env, c, rows[0], r);
      TableRuns(env, rows[1..], next, Advance(RowRegs(env, c, rows[0], r), ptr));
      assert RowRecords(env, rows) == [RowRecord(env, rows[0])] + RowRecords(env, rows[1..]);
    }
  }

  /** Any table, in any image, is decoded from its compressed form: every row, in order, with the
      address that the segment and the offset give modulo 2^64. */
  lemma TableRoundTrip(env: Env, rows: seq<Row>, tail: seq<byte>)
    requires NulFree(rows)
    ensures var run := Run(env, EncodeTable(rows, env.segs.PointerSize()), tail, INIT_REGS);
      run.outcome == Exhausted && run.recs == RowRecords(env, rows)
  {
    var prog := TableProgram(rows, INIT_COLUMNS, env.segs.PointerSize());
    TableEncodable(rows, INIT_COLUMNS, env.segs.PointerSize());
    RunEncodedProgram(env, prog, tail, INIT_REGS);
    TableRuns(env, rows, INIT_COLUMNS, INIT_REGS);
  }

  /** The dylib name of an ordinal, as in osx/mach-o/loader.h. */
  predicate NamesDylib(ordinal: int32, dylibs: seq<string>, name: string) {
    && (1 <= ordinal <= |dylibs| ==> name == dylibs[ordinal - 1])
    && (ordinal > |dylibs| && ordinal > 0 ==> name == "libraryOrdinal out of range")
    && (ordinal == 0 ==> name == "this-image")
    && (ordinal == -1 ==> name == "main-executable")
    && (ordinal == -2 ==> name == "flat-namespace")
    && (ordinal < -2 ==> name == "unknown special ordinal")
  }

  /** The decoded record of row `k`, in the fields of the image. */
  lemma TableRecord(env: Env, rows: seq<Row>, tail: seq<byte>, k: nat)
    requires NulFree(rows) && k < |rows|
    ensures var recs := Run(env, EncodeTable(rows, env.segs.PointerSize()), tail, INIT_REGS).recs;
      |recs| == |rows| &&
      var segs, row, rec := env.segs.segs, rows[k], recs[k];
      var known := row.seg < |segs|;
      && rec.address == ((if known then segs[row.seg].vmaddr else 0) + row.offset) % 0x1_0000_0000_0000_0000
      && rec.segname == (if known then Some(segs[row.seg].segname) else None)
      && rec.sectname == SectionName(env.segs, row.seg, rec.address)
      && NamesDylib(row.ordinal, env.dylibs, rec.dylib)
      && rec.bindType == row.typ && rec.symbol == Some(row.symbol) && rec.weak == row.weak
      && rec.addend == (if row.addend < 0 then row.addend + 0x1_0000_0000_0000_0000 else row.addend)
  {
    hide Run, EncodeTable, SectionName;
    TableRoundTrip(env, rows, tail);
  }

  /** A bind moves the offset by a pointer: four bytes in a 32-bit image, eight in a 64-bit one. */
  lemma PointerMoved(env: Env, r: Regs)
    ensures Exec(env, DoBind, r).regs ==
      r.(segOffset := (r.segOffset + if env.segs.Segs32? then 4 else 8) % 0x1_0000_0000_0000_0000)
  {
    SingleBind(env, DoBind, r);
  }

  /** The row that continues another: the next pointer, with the same columns. */
  function NextRow(row: Row, ptr: nat): Row {
    row.(offset := (row.offset + ptr) % U64)
  }

  predicate Contiguous(rows: seq<Row>, ptr: nat) {
    forall k :: 0 < k < |rows| ==> rows[k] == NextRow(rows[k - 1], ptr)
  }

  /** Nothing is emitted for columns that do not change: rows that continue each other take one byte
      each after the first. */
  lemma {:induction false} SteadyRows(rows: seq<Row>, c: Columns, ptr: nat)
    requires NulFree(rows) && rows != [] && Contiguous(rows, ptr)
    ensures AllEncodable(TableProgram(rows, c, ptr)) && AllEncodable(TableProgram(rows[..1], c, ptr))
    ensures |EncodeAll(TableProgram(rows, c, ptr))| == |EncodeAll(TableProgram(rows[..1], c, ptr))| + |rows| - 1
    decreases |rows|
  {
    TableEncodable(rows, c, ptr);
    TableEncodable(rows[..1], c, ptr);
    var next, rest := NextColumns(rows[0], ptr), rows[1..];
    TableEncodable(rest, next, ptr);
    HeadLength(rows, c, ptr);
    HeadLength(rows[..1], c, ptr);
    assert rows[..1][1..] == [];
    if rest != [] {
      assert Contiguous(rest, ptr) by {
        assert forall k :: 0 < k < |rest| ==> rest[k] == rows[k + 1] && rest[k - 1] == rows[k];
      }
      assert rows[1] == NextRow(rows[0], ptr);
      SteadyRows(rest, next, ptr);
      TableEncodable(rest[..1], next, ptr);
      HeadLength(rest[..1], next, ptr);
      NoColumns(next, rest[0]);
      assert rest[..1][1..] == [];
    }
  }

  lemma {:induction false} AllEmpty(columns: seq<seq<Instr>>)
    requires forall k :: 0 <= k < |columns| ==> columns[k] == []
    ensures Flatten(columns) == []
  {
    if columns != [] {
      AllEmpty(columns[1..]);
    }
  }

  /** No column needs an instruction when the decoder holds the row already. */
  lemma NoColumns(c: Columns, row: Row)
    requires c == Columns(Some(row.ordinal), Some((row.symbol, row.weak)), row.typ, row.addend,
                          Some((row.seg, row.offset)))
    ensures Flatten(SetColumns(c, row)) == []
  {
    AllEmpty(SetColumns(c, row));
  }

  lemma {:induction false} EncodeLength(a: seq<Instr>, b: seq<Instr>)
    requires AllEncodable(a) && AllEncodable(b)
    ensures AllEncodable(a + b) && |EncodeAll(a + b)| == |EncodeAll(a)| + |EncodeAll(b)|
  {
    if a == [] {
      assert a + b == b;
    } else {
      assert (a + b)[1..] == a[1..] + b;
      EncodeLength(a[1..], b);
    }
  }

  lemma HeadLength(rows: seq<Row>, c: Columns, ptr: nat)
    requires rows != [] && NulFree(rows)
    ensures AllEncodable(Flatten(SetColumns(c, rows[0]))) && AllEncodable(TableProgram(rows, c, ptr))
    ensures AllEncodable(TableProgram(rows[1..], NextColumns(rows[0], ptr), ptr))
    ensures var rest := TableProgram(rows[1..], NextColumns(rows[0], ptr), ptr);
      |EncodeAll(TableProgram(rows, c, ptr))| == |EncodeAll(Flatten(SetColumns(c, rows[0])))| + 1 + |EncodeAll(rest)|
  {
    var head, rest := Flatten(SetColumns(c, rows[0])), TableProgram(rows[1..], NextColumns(rows[0], ptr), ptr);
    FlattenEncodable(SetColumns(c, rows[0]));
    TableEncodable(rows, c, ptr);
    TableEncodable(rows[1..], NextColumns(rows[0], ptr), ptr);
    EncodeLength([DoBind], rest);
    EncodeLength(head, [DoBind] + rest);
    assert [DoBind][1..] == [];
    assert EncodeAll([DoBind]) == Encode(DoBind) + EncodeAll([DoBind][1..]);
  }
}
