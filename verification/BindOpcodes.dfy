/** The dyld bind opcodes: what the bytes say, and what each instruction does. */
module BindOpcodes {
  import opened Words
  import opened Leb128
  import opened MachO

  // --------------------------------------------------------------- registers

  /** The loop variables of the decoder, which keep their value until an opcode sets them. */
  datatype Regs = Regs(
    typ: nibble,
    segIndex: nibble,
    segOffset: uint64,
    symbol: Option<seq<byte>>,
    fromDylib: string,
    ordinal: int32,
    addend: int64,
    segStart: uint64,
    segName: Name,
    weak: bool)

  const INIT_REGS := Regs(0, 0, 0, None, "??", 0, 0, 0, None, false)

  /** One `struct dyld_bind_info`.  A symbol is the text at its pointer, `None` for NULL. */
  datatype Record = Record(
    segname: Name,
    sectname: Name,
    address: uint64,
    bindType: nibble,
    addend: uint64,
    dylib: string,
    symbol: Option<seq<byte>>,
    weak: bool)

  /** What the decoder is given besides the bytes. */
  datatype Env = Env(segs: SegmentTable, dylibs: seq<string>)

  function OrdinalName(ordinal: int32, dylibs: seq<string>): string {
    if ordinal == 0 then "this-image"
    else if ordinal == -1 then "main-executable"
    else if ordinal == -2 then "flat-namespace"
    else if ordinal < -2 then "unknown special ordinal"
    else if ordinal > |dylibs| then "libraryOrdinal out of range"
    else dylibs[ordinal - 1]
  }

  // ------------------------------------------------------------ instructions

  /** `Stuck` stands for a step that C leaves undefined: a symbol without a terminator in the
      mapping, or a signed operand that shifts a register by 64 or more. */
  datatype Instr =
    | Done
    | SetOrdinalImm(imm: nibble)
    | SetOrdinalUleb(ord: uint64)
    | SetSpecialImm(imm: nibble)
    | SetSymbol(name: seq<byte>, flags: nibble)
    | SetType(imm: nibble)
    | SetAddend(addend: int64)
    | SetSegment(seg: nibble, offset: uint64)
    | AddAddr(delta: uint64)
    | DoBind
    | DoBindAddAddr(delta: uint64)
    | DoBindScaled(imm: nibble)
    | DoBindTimes(count: uint64, skip: uint64)
    | BadOp(op: nibble)
    | Stuck

  /** The instruction ends the run. */
  predicate Halts(i: Instr) {
    i.Done? || i.BadOp? || i.Stuck?
  }

  /** The position of the first NUL. */
  function ScanNul(s: seq<byte>): (r: Option<nat>)
    ensures r.Some? ==> r.value < |s| && s[r.value] == 0 && forall k :: 0 <= k < r.value ==> s[k] != 0
    ensures r.None? ==> forall k :: 0 <= k < |s| ==> s[k] != 0
  {
    if s == [] then None
    else if s[0] == 0 then Some(0)
    else match ScanNul(s[1..]) case None => None case Some(k) => Some(k + 1)
  }

  datatype Parsed = Parsed(instr: Instr, used: nat)

  /** The instruction at the head of the stream `s` and the bytes it takes from it.  `tail` is
      the mapping beyond the end of the stream: only the scan for a symbol's terminator may run
      into it. */
  function Parse(s: seq<byte>, tail: seq<byte>): (r: Parsed)
    requires s != []
    ensures 1 <= r.used <= |s|
  {
    var imm := s[0] % 0x10;
    var op := s[0] / 0x10;
    if op == 0x0 then Parsed(Done, 1)
    else if op == 0x1 then Parsed(SetOrdinalImm(imm), 1)
    else if op == 0x2 then var u := ReadUleb(s[1..]); Parsed(SetOrdinalUleb(u.value), 1 + u.used)
    else if op == 0x3 then Parsed(SetSpecialImm(imm), 1)
    else if op == 0x4 then ParseSymbol(s, tail, imm)
    else if op == 0x5 then Parsed(SetType(imm), 1)
    else if op == 0x6 then ParseAddend(s)
    else if op == 0x7 then var u := ReadUleb(s[1..]); Parsed(SetSegment(imm, u.value), 1 + u.used)
    else if op == 0x8 then var u := ReadUleb(s[1..]); Parsed(AddAddr(u.value), 1 + u.used)
    else if op == 0x9 then Parsed(DoBind, 1)
    else if op == 0xA then var u := ReadUleb(s[1..]); Parsed(DoBindAddAddr(u.value), 1 + u.used)
    else if op == 0xB then Parsed(DoBindScaled(imm), 1)
    else if op == 0xC then ParseTimes(s)
    else Parsed(BadOp(op), 1)
  }

  function ParseSymbol(s: seq<byte>, tail: seq<byte>, flags: nibble): (r: Parsed)
    requires s != []
    ensures 1 <= r.used <= |s|
  {
    var text := s[1..] + tail;
    match ScanNul(text)
    case None => Parsed(Stuck, |s|)
    case Some(k) => Parsed(SetSymbol(text[..k], flags), Min(k + 2, |s|))
  }

  function ParseAddend(s: seq<byte>): (r: Parsed)
    requires s != []
    ensures 1 <= r.used <= |s|
  {
    match ReadSleb(s[1..])
    case BadShift => Parsed(Stuck, |s|)
    case Sleb(v, used) => Parsed(SetAddend(v), 1 + used)
  }

  function ParseTimes(s: seq<byte>): (r: Parsed)
    requires s != []
    ensures 1 <= r.used <= |s|
  {
    var count := ReadUleb(s[1..]);
    var skip := ReadUleb(s[1 + count.used..]);
    Parsed(DoBindTimes(count.value, skip.value), 1 + count.used + skip.used)
  }

  // --------------------------------------------------------------- execution

  function Address(r: Regs): uint64 {
    (r.segStart + r.segOffset) % U64
  }

  function Advance(r: Regs, n: nat): Regs {
    r.(segOffset := (r.segOffset + n) % U64)
  }

  /** The record written from the registers, with the section name found beforehand. */
  function Emit(r: Regs, sectname: Name): Record {
    Record(r.segName, sectname, Address(r), r.typ, r.addend % U64, r.fromDylib, r.symbol, r.weak)
  }

  function CurrentSection(env: Env, r: Regs): Name {
    SectionName(env.segs, r.segIndex, Address(r))
  }

  /** How far one bind of the instruction moves the offset, in the width the source computes it:
      64 bits for a ULEB operand, 32 bits for the skip of a repeated bind. */
  function Stride(env: Env, i: Instr): nat {
    var ptr := env.segs.PointerSize();
    match i
    case DoBind => ptr
    case DoBindAddAddr(d) => (d + ptr) % U64
    case DoBindScaled(k) => k * ptr + ptr
    case DoBindTimes(_, skip) => (skip % U32 + ptr) % U32
    case _ => 0
  }

  /** How many records the instruction writes: a repeat count is cut to 32 bits. */
  function Repeats(i: Instr): nat {
    match i
    case DoBind => 1
    case DoBindAddAddr(_) => 1
    case DoBindScaled(_) => 1
    case DoBindTimes(count, _) => count % U32
    case _ => 0
  }

  datatype State = State(regs: Regs, recs: seq<Record>)

  /** `n` binds in a row, all under the section name found for the first. */
  function BindRun(env: Env, r: Regs, n: nat, stride: nat): (st: State)
    ensures |st.recs| == n
  {
    if n == 0 then State(r, [])
    else
      var before := BindRun(env, r, n - 1, stride);
      State(Advance(before.regs, stride), before.recs + [Emit(before.regs, CurrentSection(env, r))])
  }

  /** The registers after an instruction that writes no record. */
  function SetRegs(env: Env, i: Instr, r: Regs): Regs {
    match i
    case SetOrdinalImm(imm) => r.(ordinal := imm, fromDylib := OrdinalName(imm, env.dylibs))
    case SetOrdinalUleb(v) => r.(ordinal := ToInt32(v), fromDylib := OrdinalName(ToInt32(v), env.dylibs))
    case SetSpecialImm(imm) =>
      var ord: int32 := if imm == 0 then 0 else imm - 0x10;
      r.(ordinal := ord, fromDylib := OrdinalName(ord, env.dylibs))
    case SetSymbol(name, flags) => r.(symbol := Some(name), weak := flags % 2 == 1)
    case SetType(imm) => r.(typ := imm)
    case SetAddend(v) => r.(addend := v)
    case SetSegment(seg, offset) =>
      r.(segIndex := seg, segStart := SegStartAddress(env.segs, seg),
         segName := SegmentName(env.segs, seg), segOffset := offset)
    case AddAddr(d) => Advance(r, d)
    case _ => r
  }

  /** One instruction: the new registers and the records it writes. */
  function Exec(env: Env, i: Instr, r: Regs): (st: State)
    ensures |st.recs| == Repeats(i)
  {
    if Repeats(i) > 0 then BindRun(env, r, Repeats(i), Stride(env, i))
    else State(SetRegs(env, i, r), [])
  }

  /** How a run ends: at a DONE, at the end of its stream, at a bad opcode, or at a step that C
      leaves undefined. */
  datatype Outcome = Finished | Exhausted | BadOpcode | Undefined

  datatype Result = Result(outcome: Outcome, regs: Regs, recs: seq<Record>) {
    /** The same run with records written before it. */
    function After(earlier: seq<Record>): Result {
      this.(recs := earlier + recs)
    }
  }

  lemma AfterTwice(res: Result, a: seq<Record>, b: seq<Record>)
    ensures res.After(b).After(a) == res.After(a + b)
  {}

  lemma NoBinds(env: Env, r: Regs, stride: nat)
    ensures BindRun(env, r, 0, stride) == State(r, [])
  {}

  lemma NoAdvance(r: Regs)
    ensures Advance(r, 0) == r
  {}

  lemma AdvanceTwice(r: Regs, a: nat, b: nat)
    ensures Advance(Advance(r, a), b) == Advance(r, a + b)
  {}

  lemma ModSum(x: nat, y: nat)
    ensures (x % U64 + y) % U64 == (x + y) % U64
  {}

  lemma AdvanceMod(r: Regs, a: nat)
    ensures Advance(r, a % U64) == Advance(r, a)
  {}

  lemma AddressMoved(r: Regs, n: nat)
    ensures Address(Advance(r, n)) == (Address(r) + n) % U64
  {
    ModSum(r.segOffset + n, r.segStart);
    ModSum(r.segStart + r.segOffset, n);
  }

  /** The `t`-th record of a repeated bind lies `t` strides after the first. */
  lemma {:induction false} BindRunAt(env: Env, r: Regs, n: nat, stride: nat)
    ensures var st := BindRun(env, r, n, stride);
      st.regs == Advance(r, n * stride) &&
      forall t :: 0 <= t < n ==> st.recs[t] == Emit(Advance(r, t * stride), CurrentSection(env, r))
  {
    hide Advance, Emit, CurrentSection;
    if n == 0 {
      NoAdvance(r);
    } else {
      BindRunAt(env, r, n - 1, stride);
      AdvanceTwice(r, (n - 1) * stride, stride);
      assert (n - 1) * stride + stride == n * stride;
    }
  }

  /** An instruction that binds once: one record, one advance. */
  lemma SingleBind(env: Env, i: Instr, r: Regs)
    requires Repeats(i) == 1
    ensures Exec(env, i, r) == State(Advance(r, Stride(env, i)), [Emit(r, CurrentSection(env, r))])
  {
    NoBinds(env, r, Stride(env, i));
  }

  /** The outcome of an instruction that ends the run. */
  function HaltOutcome(i: Instr): Outcome {
    if i.BadOp? then BadOpcode else if i.Stuck? then Undefined else Finished
  }

  /** The whole decoder, from the registers `r` on. */
  function Run(env: Env, s: seq<byte>, tail: seq<byte>, r: Regs): Result
    decreases |s|
  {
    if s == [] then Result(Exhausted, r, [])
    else
      var p := Parse(s, tail);
      if Halts(p.instr) then Result(HaltOutcome(p.instr), r, [])
      else
        var st := Exec(env, p.instr, r);
        Run(env, s[p.used..], tail, st.regs).After(st.recs)
  }

  /** The decoder on a mapping, from the cursor `p` on.  The bounds are positions relative to the
      mapping and may lie outside it: reading there is undefined. */
  function RunAt(env: Env, mem: seq<byte>, p: int, end: int, r: Regs): Result {
    if p >= end then Result(Exhausted, r, [])
    else if !(0 <= p < |mem|) then Result(Undefined, r, [])
    else if end <= |mem| then Run(env, mem[p..end], mem[end..], r)
    else RunsOff(Run(env, mem[p..], [], r))
  }

  /** A run over the bytes up to the end of the mapping, in a stream that goes on behind it. */
  function RunsOff(res: Result): Result {
    if res.outcome.Exhausted? then res.(outcome := Undefined) else res
  }

  /** Every stream writes fewer than 2^32 records per byte, so a stream of 32-bit length never
      wraps the 64-bit record counter. */
  lemma {:induction false} RecordBound(env: Env, s: seq<byte>, tail: seq<byte>, r: Regs)
    ensures |Run(env, s, tail, r).recs| <= |s| * (U32 - 1)
    ensures |s| < U32 ==> |Run(env, s, tail, r).recs| < U64
    decreases |s|
  {
    if s != [] {
      var p := Parse(s, tail);
      if !Halts(p.instr) {
        RecordBound(env, s[p.used..], tail, Exec(env, p.instr, r).regs);
        assert |s[p.used..]| <= |s| - 1;
      }
    }
  }
}
