/** Every record told from the history of the stream alone: each column is the operand of the last
    opcode that set it, and the address is the last place set plus all advances since. */
module BindHistory {
  import opened Words
  import opened MachO
  import opened BindOpcodes
  import opened BindPrograms

  datatype Column = TypeColumn | AddendColumn | DylibColumn | SymbolColumn | PlaceColumn

  /** The opcodes that set a column. */
  predicate Sets(i: Instr, c: Column) {
    match c
    case TypeColumn => i.SetType?
    case AddendColumn => i.SetAddend?
    case DylibColumn => i.SetOrdinalImm? || i.SetOrdinalUleb? || i.SetSpecialImm?
    case SymbolColumn => i.SetSymbol?
    case PlaceColumn => i.SetSegment?
  }

  /** The last of the first `k` instructions that sets the column. */
  function Latest(prog: seq<Instr>, c: Column, k: nat): (r: Option<nat>)
    requires k <= |prog|
    ensures r.Some? ==> r.value < k && Sets(prog[r.value], c) && forall j :: r.value < j < k ==> !Sets(prog[j], c)
    ensures r.None? ==> forall j :: 0 <= j < k ==> !Sets(prog[j], c)
  {
    if k == 0 then None
    else if Sets(prog[k - 1], c) then Some(k - 1)
    else Latest(prog, c, k - 1)
  }

  /** The ordinal that an ordinal opcode denotes. */
  function OrdinalOf(i: Instr): int32
    requires Sets(i, DylibColumn)
  {
    match i
    case SetOrdinalImm(imm) => imm
    case SetOrdinalUleb(v) => ToInt32(v)
    case SetSpecialImm(imm) => if imm == 0 then 0 else imm - 0x10
  }

  /** What the ordinal opcodes say: an immediate as it stands, a special one below zero, and the operand
      of the long form in its low 32 bits, signed. */
  lemma OrdinalMeans(i: Instr)
    requires Sets(i, DylibColumn)
    ensures i.SetOrdinalImm? ==> OrdinalOf(i) == i.imm
    ensures i.SetSpecialImm? ==> OrdinalOf(i) == if i.imm == 0 then 0 else i.imm - 16
    ensures i.SetOrdinalUleb? ==> (i.ord - OrdinalOf(i)) % 0x1_0000_0000 == 0
  {}

  function TypeBefore(prog: seq<Instr>, k: nat): nibble
    requires k <= |prog|
  {
    match Latest(prog, TypeColumn, k) case None => 0 case Some(j) => prog[j].imm
  }

  function AddendBefore(prog: seq<Instr>, k: nat): int64
    requires k <= |prog|
  {
    match Latest(prog, AddendColumn, k) case None => 0 case Some(j) => prog[j].addend
  }

  function DylibBefore(env: Env, prog: seq<Instr>, k: nat): string
    requires k <= |prog|
  {
    match Latest(prog, DylibColumn, k) case None => "??" case Some(j) => OrdinalName(OrdinalOf(prog[j]), env.dylibs)
  }

  function SymbolBefore(prog: seq<Instr>, k: nat): Option<seq<byte>>
    requires k <= |prog|
  {
    match Latest(prog, SymbolColumn, k) case None => None case Some(j) => Some(prog[j].name)
  }

  function WeakBefore(prog: seq<Instr>, k: nat): bool
    requires k <= |prog|
  {
    match Latest(prog, SymbolColumn, k) case None => false case Some(j) => prog[j].flags % 2 == 1
  }

  /** How far an instruction moves the offset. */
  function Advances(env: Env, i: Instr): nat {
    if i.AddAddr? then i.delta else Repeats(i) * Stride(env, i)
  }

  /** The advances of the instructions from `a` up to `b`. */
  function TotalAdvance(env: Env, prog: seq<Instr>, a: nat, b: nat): nat
    requires a <= b <= |prog|
  {
    if a == b then 0 else TotalAdvance(env, prog, a, b - 1) + Advances(env, prog[b - 1])
  }

  /** The offset before instruction `k`: the last one set, plus what came after it. */
  function OffsetBefore(env: Env, prog: seq<Instr>, k: nat): nat
    requires k <= |prog|
  {
    match Latest(prog, PlaceColumn, k)
    case None => TotalAdvance(env, prog, 0, k)
    case Some(j) => prog[j].offset + TotalAdvance(env, prog, j + 1, k)
  }

  /** The address of the `t`-th record of instruction `k`.  Until a segment is set, the base is 0. */
  function AddressOf(env: Env, prog: seq<Instr>, k: nat, t: nat): uint64
    requires k < |prog|
  {
    var base :=
      match Latest(prog, PlaceColumn, k) case None => 0 case Some(j) => SegStartAddress(env.segs, prog[j].seg);
    (base + OffsetBefore(env, prog, k) + t * Stride(env, prog[k])) % U64
  }

  /** The `t`-th record of instruction `k`, from the history before `k`. */
  function HistoryRecord(env: Env, prog: seq<Instr>, k: nat, t: nat): Record
    requires k < |prog|
  {
    var place := Latest(prog, PlaceColumn, k);
    var seg: nibble := match place case None => 0 case Some(j) => prog[j].seg;
    Record(
      match place case None => None case Some(j) => SegmentName(env.segs, seg),
      SectionName(env.segs, seg, AddressOf(env, prog, k, 0)),
      AddressOf(env, prog, k, t),
      TypeBefore(prog, k),
      AddendBefore(prog, k) % U64,
      DylibBefore(env, prog, k),
      SymbolBefore(prog, k),
      WeakBefore(prog, k))
  }

  /** How many records the first `k` instructions write. */
  function RecordsBefore(prog: seq<Instr>, k: nat): nat
    requires k <= |prog|
  {
    if k == 0 then 0 else RecordsBefore(prog, k - 1) + Repeats(prog[k - 1])
  }

  /** The instructions before the one that halts. */
  function Body(prog: seq<Instr>): (b: seq<Instr>)
    ensures Straight(b) && b <= prog
  {
    if prog == [] || Halts(prog[0]) then [] else [prog[0]] + Body(prog[1..])
  }

  // ------------------------------------------------------------------- proof

  /** The state after the first `k` instructions. */
  function StateAt(env: Env, prog: seq<Instr>, k: nat): State
    requires k <= |prog|
  {
    if k == 0 then State(INIT_REGS, [])
    else
      var before := StateAt(env, prog, k - 1);
      var st := Exec(env, prog[k - 1], before.regs);
      State(st.regs, before.recs + st.recs)
  }

  lemma {:induction false} StateIsRun(env: Env, prog: seq<Instr>, k: nat)
    requires Straight(prog) && k <= |prog|
    ensures RunProgram(env, prog[..k], INIT_REGS) ==
      Result(Exhausted, StateAt(env, prog, k).regs, StateAt(env, prog, k).recs)
  {
    if k > 0 {
      StateIsRun(env, prog, k - 1);
      assert prog[..k] == prog[..k - 1] + [prog[k - 1]];
      RunConcat(env, prog[..k - 1], [prog[k - 1]], INIT_REGS);
      RunOne(env, prog[k - 1], StateAt(env, prog, k - 1).regs);
    }
  }

  lemma {:induction false} BodyRuns(env: Env, prog: seq<Instr>, r: Regs)
    ensures var run, body := RunProgram(env, prog, r), RunProgram(env, Body(prog), r);
      run.regs == body.regs && run.recs == body.recs
  {
    if prog != [] && !Halts(prog[0]) {
      assert Body(prog)[1..] == Body(prog[1..]);
      BodyRuns(env, prog[1..], Exec(env, prog[0], r).regs);
    }
  }

  /** The registers agree with the history of the first `k` instructions. */
  predicate Agrees(env: Env, prog: seq<Instr>, k: nat, r: Regs)
    requires k <= |prog|
  {
    ColumnsAgree(env, prog, k, r) && PlaceAgrees(env, prog, k, r)
  }

  predicate ColumnsAgree(env: Env, prog: seq<Instr>, k: nat, r: Regs)
    requires k <= |prog|
  {
    && r.typ == TypeBefore(prog, k)
    && r.addend == AddendBefore(prog, k)
    && r.fromDylib == DylibBefore(env, prog, k)
    && r.symbol == SymbolBefore(prog, k)
    && r.weak == WeakBefore(prog, k)
  }

  predicate PlaceAgrees(env: Env, prog: seq<Instr>, k: nat, r: Regs)
    requires k <= |prog|
  {
    && r.segOffset == OffsetBefore(env, prog, k) % U64
    && match Latest(prog, PlaceColumn, k)
       case None => r.segIndex == 0 && r.segStart == 0 && r.segName == None
       case Some(j) => r.segIndex == prog[j].seg && r.segStart == SegStartAddress(env.segs, prog[j].seg) &&
                       r.segName == SegmentName(env.segs, prog[j].seg)
  }

  lemma MovedOffset(env: Env, prog: seq<Instr>, k: nat, r: Regs)
    requires k < |prog| && !Sets(prog[k], PlaceColumn)
    requires r.segOffset == OffsetBefore(env, prog, k) % U64
    ensures OffsetBefore(env, prog, k + 1) == OffsetBefore(env, prog, k) + Advances(env, prog[k])
    ensures Advance(r, Advances(env, prog[k])).segOffset == OffsetBefore(env, prog, k + 1) % U64
  {}

  /** What an instruction does to the registers: one place set, or an advance and columns set. */
  lemma ExecRegs(env: Env, i: Instr, r: Regs)
    ensures Repeats(i) > 0 ==> Exec(env, i, r).regs == Advance(r, Advances(env, i))
    ensures Repeats(i) == 0 ==> Exec(env, i, r).regs == SetRegs(env, i, r)
  {
    if Repeats(i) > 0 {
      BindRunAt(env, r, Repeats(i), Stride(env, i));
    }
  }

  lemma LatestNext(prog: seq<Instr>, c: Column, k: nat)
    requires k < |prog|
    ensures Latest(prog, c, k + 1) == if Sets(prog[k], c) then Some(k) else Latest(prog, c, k)
  {}

  lemma StepColumns(env: Env, prog: seq<Instr>, k: nat, r: Regs)
    requires k < |prog| && ColumnsAgree(env, prog, k, r)
    ensures ColumnsAgree(env, prog, k + 1, Exec(env, prog[k], r).regs)
  {
    hide Exec, Stride, OrdinalName;
    ExecRegs(env, prog[k], r);
    LatestNext(prog, TypeColumn, k);
    LatestNext(prog, AddendColumn, k);
    LatestNext(prog, DylibColumn, k);
    LatestNext(prog, SymbolColumn, k);
  }

  lemma StepPlace(env: Env, prog: seq<Instr>, k: nat, r: Regs)
    requires k < |prog| && PlaceAgrees(env, prog, k, r)
    ensures PlaceAgrees(env, prog, k + 1, Exec(env, prog[k], r).regs)
  {
    hide Exec, Stride;
    ExecRegs(env, prog[k], r);
    LatestNext(prog, PlaceColumn, k);
    if !Sets(prog[k], PlaceColumn) {
      MovedOffset(env, prog, k, r);
    }
  }

  lemma NothingSet(env: Env, prog: seq<Instr>)
    ensures Agrees(env, prog, 0, INIT_REGS)
  {}

  lemma {:induction false} StateAgrees(env: Env, prog: seq<Instr>, k: nat)
    requires Straight(prog) && k <= |prog|
    ensures Agrees(env, prog, k, StateAt(env, prog, k).regs)
  {
    hide Exec, ColumnsAgree, PlaceAgrees;
    if k == 0 {
      NothingSet(env, prog);
    } else {
      StateAgrees(env, prog, k - 1);
      StepColumns(env, prog, k - 1, StateAt(env, prog, k - 1).regs);
      StepPlace(env, prog, k - 1, StateAt(env, prog, k - 1).regs);
    }
  }

  lemma EmittedRecord(env: Env, prog: seq<Instr>, k: nat, t: nat, r: Regs)
    requires k < |prog| && t < Repeats(prog[k]) && Agrees(env, prog, k, r)
    ensures Exec(env, prog[k], r).recs[t] == HistoryRecord(env, prog, k, t)
  {
    BindRunAt(env, r, Repeats(prog[k]), Stride(env, prog[k]));
    AddressReached(env, prog, k, t, r);
    AddressReached(env, prog, k, 0, r);
  }

  lemma AddressReached(env: Env, prog: seq<Instr>, k: nat, t: nat, r: Regs)
    requires k < |prog| && Agrees(env, prog, k, r)
    ensures Address(Advance(r, t * Stride(env, prog[k]))) == AddressOf(env, prog, k, t)
    ensures t == 0 ==> Address(r) == AddressOf(env, prog, k, t)
  {
    var off, more := OffsetBefore(env, prog, k), t * Stride(env, prog[k]);
    ModSum(off, more);
    ModSum(off + more, r.segStart);
    ModSum(off, r.segStart);
  }

  /** The `t`-th record of instruction `k` stands in its slot. */
  predicate InSlot(env: Env, prog: seq<Instr>, recs: seq<Record>, k: nat, t: nat)
    requires k < |prog|
  {
    && RecordsBefore(prog, k) + t < |recs|
    && recs[RecordsBefore(prog, k) + t] == HistoryRecord(env, prog, k, t)
  }

  /** The records are those that the history of the first `n` instructions tells, and no others. */
  ghost predicate FollowHistory(env: Env, prog: seq<Instr>, n: nat, recs: seq<Record>)
    requires n <= |prog|
  {
    && |recs| == RecordsBefore(prog, n)
    && forall k: nat, t: nat :: k < n && t < Repeats(prog[k]) ==> InSlot(env, prog, recs, k, t)
  }

  lemma FollowOneMore(env: Env, prog: seq<Instr>, n: nat, recs: seq<Record>, r: Regs)
    requires n < |prog| && FollowHistory(env, prog, n, recs) && Agrees(env, prog, n, r)
    ensures FollowHistory(env, prog, n + 1, recs + Exec(env, prog[n], r).recs)
  {
    var all := recs + Exec(env, prog[n], r).recs;
    forall k: nat, t: nat | k < n + 1 && t < Repeats(prog[k])
      ensures InSlot(env, prog, all, k, t)
    {
      if k == n {
        EmittedRecord(env, prog, n, t, r);
      } else {
        assert InSlot(env, prog, recs, k, t);
      }
    }
  }

  lemma NothingYet(env: Env, prog: seq<Instr>)
    ensures FollowHistory(env, prog, 0, [])
  {}

  lemma {:induction false} RecordsAgree(env: Env, prog: seq<Instr>, n: nat)
    requires Straight(prog) && n <= |prog|
    ensures FollowHistory(env, prog, n, StateAt(env, prog, n).recs)
  {
    hide Exec, Agrees, FollowHistory;
    if n == 0 {
      NothingYet(env, prog);
    } else {
      RecordsAgree(env, prog, n - 1);
      StateAgrees(env, prog, n - 1);
      FollowOneMore(env, prog, n - 1, StateAt(env, prog, n - 1).recs, StateAt(env, prog, n - 1).regs);
    }
  }

  /** For every stream: the decoder writes the records that the history of its instructions
      tells, instruction by instruction and turn by turn, and no others. */
  lemma StickySemantics(env: Env, s: seq<byte>, tail: seq<byte>)
    ensures var body := Body(Program(s, tail));
      FollowHistory(env, body, |body|, Run(env, s, tail, INIT_REGS).recs)
  {
    var body := Body(Program(s, tail));
    RunIsProgram(env, s, tail, INIT_REGS);
    BodyRuns(env, Program(s, tail), INIT_REGS);
    StateIsRun(env, body, |body|);
    assert body[..|body|] == body;
    RecordsAgree(env, body, |body|);
  }
}
