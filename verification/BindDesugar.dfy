/** The compound bind opcodes mean what their expansions into DO_BIND and ADD_ADDR_ULEB mean. */
module BindDesugar {
  import opened Words
  import opened MachO
  import opened BindOpcodes
  import opened BindPrograms

  /** What the step of a repeated bind adds on top of the pointer size, modulo 2^64. */
  function ExtraSkip(env: Env, skip: uint64): uint64 {
    (Stride(env, DoBindTimes(0, skip)) - env.segs.PointerSize()) % U64
  }

  function Copies(n: nat, i: Instr): (c: seq<Instr>) {
    seq(n, _ => i)
  }

  /** The plain instructions that a compound one stands for. */
  function Expand(env: Env, i: Instr): seq<Instr> {
    match i
    case DoBindAddAddr(d) => [DoBind, AddAddr(d)]
    case DoBindScaled(k) => [DoBind, AddAddr(k * env.segs.PointerSize())]
    case DoBindTimes(count, skip) => Copies(count % U32, DoBindAddAddr(ExtraSkip(env, skip)))
    case _ => [i]
  }

  /** Records alike in every column but the section name. */
  predicate Alike(a: Record, b: Record) {
    a == b.(sectname := a.sectname)
  }

  predicate AllAlike(a: seq<Record>, b: seq<Record>) {
    |a| == |b| && forall k :: 0 <= k < |a| ==> Alike(a[k], b[k])
  }

  /** Every record carries the name of the section that holds its own address. */
  predicate NamesItsSections(env: Env, seg: nibble, recs: seq<Record>) {
    forall k :: 0 <= k < |recs| ==> recs[k].sectname == SectionName(env.segs, seg, recs[k].address)
  }

  lemma NamedTwice(env: Env, seg: nibble, a: seq<Record>, b: seq<Record>)
    requires AllAlike(a, b) && NamesItsSections(env, seg, a)
    ensures a == b <==> NamesItsSections(env, seg, b)
  {}

  lemma SingleNamed(env: Env, i: Instr, r: Regs)
    requires Repeats(i) <= 1
    ensures NamesItsSections(env, r.segIndex, Exec(env, i, r).recs)
  {
    if Repeats(i) == 1 {
      SingleBind(env, i, r);
    }
  }

  /** DO_BIND; ADD_ADDR_ULEB(d) writes the record and ends in the registers of the opcode
      that binds and then advances by d plus a pointer. */
  lemma BindThenAdd(env: Env, d: uint64, r: Regs)
    ensures RunProgram(env, [DoBind, AddAddr(d)], r) ==
      Result(Exhausted, Advance(r, d + env.segs.PointerSize()), [Emit(r, CurrentSection(env, r))])
  {
    var ptr := env.segs.PointerSize();
    var a: seq<Instr>, b: seq<Instr> := [DoBind], [AddAddr(d)];
    assert [DoBind, AddAddr(d)] == a + b;
    RunOne(env, DoBind, r);
    SingleBind(env, DoBind, r);
    RunConcat(env, a, b, r);
    RunOne(env, AddAddr(d), Advance(r, ptr));
    AdvanceTwice(r, ptr, d);
  }

  lemma AlikeSnoc(a: seq<Record>, b: seq<Record>, x: Record, y: Record)
    requires AllAlike(a, b) && Alike(x, y)
    ensures AllAlike(a + [x], b + [y])
  {}

  lemma NamedSnoc(env: Env, seg: nibble, a: seq<Record>, x: Record)
    requires NamesItsSections(env, seg, a) && x.sectname == SectionName(env.segs, seg, x.address)
    ensures NamesItsSections(env, seg, a + [x])
  {}

  /** The n-th copy meets the registers that the n-th turn of the repeated bind meets, and looks
      its section up itself. */
  lemma {:induction false} CopiesRun(env: Env, d: uint64, n: nat, stride: nat, r: Regs)
    requires Stride(env, DoBindAddAddr(d)) == stride % U64
    ensures var run, st := RunProgram(env, Copies(n, DoBindAddAddr(d)), r), BindRun(env, r, n, stride);
      run.outcome == Exhausted && run.regs == st.regs && st.regs.segIndex == r.segIndex &&
      AllAlike(run.recs, st.recs) && NamesItsSections(env, r.segIndex, run.recs)
  {
    var i := DoBindAddAddr(d);
    if n > 0 {
      assert Copies(n, i) == Copies(n - 1, i) + [i];
      CopiesRun(env, d, n - 1, stride, r);
      RunConcat(env, Copies(n - 1, i), [i], r);
      var first, before := RunProgram(env, Copies(n - 1, i), r), BindRun(env, r, n - 1, stride);
      RunOne(env, i, before.regs);
      SingleBind(env, i, before.regs);
      AdvanceMod(before.regs, stride);
      var x := Emit(before.regs, CurrentSection(env, before.regs));
      AlikeSnoc(first.recs, before.recs, x, Emit(before.regs, CurrentSection(env, r)));
      NamedSnoc(env, r.segIndex, first.recs, x);
    }
  }

  lemma ExtraSkipStride(env: Env, count: uint64, skip: uint64)
    ensures Stride(env, DoBindAddAddr(ExtraSkip(env, skip))) == Stride(env, DoBindTimes(count, skip)) % U64
  {}

  lemma TimesExec(env: Env, count: uint64, skip: uint64, r: Regs)
    ensures Exec(env, DoBindTimes(count, skip), r) ==
      BindRun(env, r, count % U32, Stride(env, DoBindTimes(count, skip)))
  {
    NoBinds(env, r, Stride(env, DoBindTimes(count, skip)));
  }

  /** A repeated bind and its copies, of whatever count. */
  lemma TimesExpanded(env: Env, count: uint64, skip: uint64, r: Regs)
    ensures var run := RunProgram(env, Expand(env, DoBindTimes(count, skip)), r);
      var st := Exec(env, DoBindTimes(count, skip), r);
      run.outcome == Exhausted && run.regs == st.regs && AllAlike(run.recs, st.recs) &&
      NamesItsSections(env, r.segIndex, run.recs)
  {
    var i := DoBindTimes(count, skip);
    ExtraSkipStride(env, count, skip);
    CopiesRun(env, ExtraSkip(env, skip), count % U32, Stride(env, i), r);
    TimesExec(env, count, skip, r);
  }

  lemma PlainExpanded(env: Env, i: Instr, r: Regs)
    requires !Halts(i) && !i.DoBindTimes?
    ensures RunProgram(env, Expand(env, i), r) == Result(Exhausted, Exec(env, i, r).regs, Exec(env, i, r).recs)
  {
    var ptr := env.segs.PointerSize();
    match i {
      case DoBindAddAddr(d) =>
        BindThenAdd(env, d, r);
        SingleBind(env, i, r);
        AdvanceMod(r, d + ptr);
      case DoBindScaled(k) =>
        BindThenAdd(env, k * ptr, r);
        SingleBind(env, i, r);
      case _ => RunOne(env, i, r);
    }
  }

  /** One instruction and its expansion: the same registers and the same records but for section
      names, and those too exactly when the instruction gives every record the name of the section
      of its own address. */
  lemma ExpandExec(env: Env, i: Instr, r: Regs)
    requires !Halts(i)
    ensures Straight(Expand(env, i))
    ensures var run, st := RunProgram(env, Expand(env, i), r), Exec(env, i, r);
      run.outcome == Exhausted && run.regs == st.regs && AllAlike(run.recs, st.recs) &&
      (run.recs == st.recs <==> NamesItsSections(env, r.segIndex, st.recs))
  {
    if i.DoBindTimes? {
      TimesExpanded(env, i.count, i.skip, r);
      NamedTwice(env, r.segIndex, RunProgram(env, Expand(env, i), r).recs, Exec(env, i, r).recs);
    } else {
      PlainExpanded(env, i, r);
      SingleNamed(env, i, r);
    }
  }

  lemma SumsDiffer(x: uint64, a: uint64, b: uint64)
    requires a != b
    ensures (x + a) % U64 != (x + b) % U64
  {}

  lemma AdvancesDiffer(r: Regs, a: uint64, b: uint64)
    requires a != b
    ensures Advance(r, a) != Advance(r, b) && Address(Advance(r, a)) != Address(Advance(r, b))
  {
    AddressMoved(r, a);
    AddressMoved(r, b);
    SumsDiffer(r.segOffset, a, b);
    SumsDiffer(Address(r), a, b);
  }

  /** Runs of different strides differ as soon as they move. */
  lemma StridesDiffer(env: Env, r: Regs, n: nat, a: uint64, b: uint64)
    requires n > 0 && a != b
    ensures var x, y := BindRun(env, r, n, a), BindRun(env, r, n, b);
      x.regs != y.regs || (n > 1 && x.recs[1].address != y.recs[1].address)
  {
    BindRunAt(env, r, n, a);
    BindRunAt(env, r, n, b);
    AdvancesDiffer(r, a, b);
    if n == 1 {
      assert n * a == a && n * b == b;
    } else {
      assert 1 * a == a && 1 * b == b;
    }
  }

  lemma StridesAgree(env: Env, count: uint64, skip: uint64)
    ensures Stride(env, DoBindAddAddr(skip)) == Stride(env, DoBindTimes(count, skip)) <==>
      skip + env.segs.PointerSize() < U32 || skip >= U64 - env.segs.PointerSize()
  {}

  /** Records alike to those of a run of another stride are not alike to the run's. */
  lemma NotAlike(recs: seq<Record>, regs: Regs, x: State, y: State)
    requires regs == x.regs && AllAlike(recs, x.recs)
    requires x.regs != y.regs || (|x.recs| > 1 && |y.recs| > 1 && x.recs[1].address != y.recs[1].address)
    ensures !(regs == y.regs && AllAlike(recs, y.recs))
  {}

  /** Copies of DO_BIND_ADD_ADDR_ULEB with the operand as it stands mean what the repeated bind
      means, section names apart, exactly when neither the operand nor its sum is cut. */
  lemma PlainCopies(env: Env, count: uint64, skip: uint64, r: Regs)
    ensures var run := RunProgram(env, Copies(count % U32, DoBindAddAddr(skip)), r);
      var st := Exec(env, DoBindTimes(count, skip), r);
      run.regs == st.regs && AllAlike(run.recs, st.recs) <==>
      count % U32 == 0 || skip + env.segs.PointerSize() < U32 || skip >= U64 - env.segs.PointerSize()
  {
    hide RunProgram, BindRun, Exec;
    var n := count % U32;
    var a, b := Stride(env, DoBindAddAddr(skip)), Stride(env, DoBindTimes(count, skip));
    StridesAgree(env, count, skip);
    TimesExec(env, count, skip, r);
    CopiesRun(env, skip, n, a, r);
    if n == 0 {
      NoBinds(env, r, a);
      NoBinds(env, r, b);
    } else if a != b {
      StridesDiffer(env, r, n, a, b);
      var run := RunProgram(env, Copies(n, DoBindAddAddr(skip)), r);
      NotAlike(run.recs, run.regs, BindRun(env, r, n, a), BindRun(env, r, n, b));
    }
  }

  /** A program with the instructions marked in `pick` expanded where they stand. */
  function ExpandPicked(env: Env, prog: seq<Instr>, pick: seq<bool>): seq<Instr>
    requires |pick| == |prog|
  {
    if prog == [] then []
    else (if pick[0] then Expand(env, prog[0]) else [prog[0]]) + ExpandPicked(env, prog[1..], pick[1..])
  }

  /** Each instruction marked in `pick` gives its records, when it is reached, the names of the
      sections of their own addresses. */
  predicate NamesKept(env: Env, prog: seq<Instr>, pick: seq<bool>, r: Regs)
    requires |pick| == |prog|
  {
    prog != [] && !Halts(prog[0]) ==>
      var st := Exec(env, prog[0], r);
      (pick[0] ==> NamesItsSections(env, r.segIndex, st.recs)) && NamesKept(env, prog[1..], pick[1..], st.regs)
  }

  lemma HeadExpanded(env: Env, i: Instr, picked: bool, rest: seq<Instr>, r: Regs)
    requires !Halts(i)
    ensures var st := Exec(env, i, r);
      var run := RunProgram(env, (if picked then Expand(env, i) else [i]) + rest, r);
      exists recs :: run == RunProgram(env, rest, st.regs).After(recs) && AllAlike(recs, st.recs) &&
        (recs == st.recs <==> (picked ==> NamesItsSections(env, r.segIndex, st.recs)))
  {
    ExpandExec(env, i, r);
    RunOne(env, i, r);
    var head := if picked then Expand(env, i) else [i];
    RunConcat(env, head, rest, r);
    var recs := RunProgram(env, head, r).recs;
    assert RunProgram(env, head + rest, r) == RunProgram(env, rest, Exec(env, i, r).regs).After(recs);
  }

  lemma AlikeConcat(a: seq<Record>, b: seq<Record>, a': seq<Record>, b': seq<Record>)
    requires AllAlike(a, b) && AllAlike(a', b')
    ensures AllAlike(a + a', b + b')
    ensures a + a' == b + b' <==> a == b && a' == b'
  {
    if a + a' == b + b' {
      assert a == (a + a')[..|a|] == (b + b')[..|a|] == b;
      assert a' == (a + a')[|a|..] == (b + b')[|a|..] == b';
    }
  }

  /** Expanding any choice of instructions of any program, from any registers, leaves the outcome,
      the final registers and the records as they were, but for section names, and those too exactly
      when the expanded instructions name the sections of all their records. */
  lemma {:induction false} ExpansionPreservesRuns(env: Env, prog: seq<Instr>, pick: seq<bool>, r: Regs)
    requires |pick| == |prog|
    ensures var before := RunProgram(env, prog, r);
      var after := RunProgram(env, ExpandPicked(env, prog, pick), r);
      after.outcome == before.outcome && after.regs == before.regs && AllAlike(after.recs, before.recs) &&
      (after == before <==> NamesKept(env, prog, pick, r))
  {
    if prog != [] {
      if Halts(prog[0]) {
        assert (if pick[0] then Expand(env, prog[0]) else [prog[0]]) == [prog[0]];
      } else {
        var st, rest := Exec(env, prog[0], r), ExpandPicked(env, prog[1..], pick[1..]);
        HeadExpanded(env, prog[0], pick[0], rest, r);
        ExpansionPreservesRuns(env, prog[1..], pick[1..], st.regs);
        var recs :| RunProgram(env, ExpandPicked(env, prog, pick), r) ==
            RunProgram(env, rest, st.regs).After(recs) && AllAlike(recs, st.recs) &&
          (recs == st.recs <==> (pick[0] ==> NamesItsSections(env, r.segIndex, st.recs)));
        AlikeConcat(recs, st.recs, RunProgram(env, rest, st.regs).recs, RunProgram(env, prog[1..], st.regs).recs);
      }
    }
  }

  function All(n: nat): (pick: seq<bool>) {
    seq(n, _ => true)
  }

  /** The program with every instruction expanded. */
  function ExpandAll(env: Env, prog: seq<Instr>): seq<Instr> {
    ExpandPicked(env, prog, All(|prog|))
  }

  predicate SingleBinds(prog: seq<Instr>) {
    forall i :: i in prog ==> !i.DoBindScaled? && !i.DoBindTimes?
  }

  predicate PlainBinds(prog: seq<Instr>) {
    SingleBinds(prog) && forall i :: i in prog ==> !i.DoBindAddAddr?
  }

  lemma {:induction false} ExpandedOnce(env: Env, prog: seq<Instr>)
    ensures SingleBinds(ExpandAll(env, prog))
    ensures SingleBinds(prog) ==> PlainBinds(ExpandAll(env, prog))
  {
    if prog != [] {
      assert All(|prog|)[1..] == All(|prog[1..]|);
      ExpandedOnce(env, prog[1..]);
      assert SingleBinds(Expand(env, prog[0]));
    }
  }

  /** Expanding every instruction twice leaves DO_BIND as the only opcode that binds, and ends in the
      same registers with the same records but for section names. */
  lemma FullyExpanded(env: Env, prog: seq<Instr>, r: Regs)
    ensures PlainBinds(ExpandAll(env, ExpandAll(env, prog)))
    ensures var before, after := RunProgram(env, prog, r), RunProgram(env, ExpandAll(env, ExpandAll(env, prog)), r);
      after.outcome == before.outcome && after.regs == before.regs && AllAlike(after.recs, before.recs)
  {
    hide RunProgram, ExpandPicked, NamesKept;
    var once := ExpandAll(env, prog);
    ExpandedOnce(env, prog);
    ExpandedOnce(env, once);
    ExpansionPreservesRuns(env, prog, All(|prog|), r);
    ExpansionPreservesRuns(env, once, All(|once|), r);
    var twice := RunProgram(env, ExpandAll(env, once), r);
    AlikeTwice(twice.recs, RunProgram(env, once, r).recs, RunProgram(env, prog, r).recs);
  }

  lemma AlikeTwice(a: seq<Record>, b: seq<Record>, c: seq<Record>)
    requires AllAlike(a, b) && AllAlike(b, c)
    ensures AllAlike(a, c)
  {
    forall k | 0 <= k < |a|
      ensures Alike(a[k], c[k])
    {
      assert Alike(a[k], b[k]) && Alike(b[k], c[k]);
    }
  }

  lemma {:induction false} ExpansionEncodable(env: Env, prog: seq<Instr>, pick: seq<bool>)
    requires |pick| == |prog| && AllEncodable(prog)
    ensures AllEncodable(ExpandPicked(env, prog, pick))
  {
    if prog != [] {
      ExpansionEncodable(env, prog[1..], pick[1..]);
    }
  }

  /** The same on the bytes: any stream whose run C defines can have any choice of its
      instructions rewritten into plain ones. */
  lemma StreamExpansion(env: Env, s: seq<byte>, tail: seq<byte>, pick: seq<bool>, r: Regs, tail': seq<byte>)
    requires |pick| == |Program(s, tail)|
    requires Run(env, s, tail, r).outcome != Undefined
    ensures AllEncodable(ExpandPicked(env, Program(s, tail), pick))
    ensures var before := Run(env, s, tail, r);
      var after := Run(env, EncodeAll(ExpandPicked(env, Program(s, tail), pick)), tail', r);
      after.outcome == before.outcome && after.regs == before.regs && AllAlike(after.recs, before.recs) &&
      (after == before <==> NamesKept(env, Program(s, tail), pick, r))
  {
    var prog := Program(s, tail);
    ProgramEncodable(env, s, tail, r);
    RunIsProgram(env, s, tail, r);
    ExpansionEncodable(env, prog, pick);
    ExpansionPreservesRuns(env, prog, pick, r);
    RunEncodedProgram(env, ExpandPicked(env, prog, pick), tail', r);
  }
}
