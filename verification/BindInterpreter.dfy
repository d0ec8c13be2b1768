/** The two-pass decoder as it runs: count the records, allocate, and fill them in. */
module BindInterpreter {
  import opened Words
  import opened Leb128
  import opened MachO
  import opened BindOpcodes
  import opened BindPrograms

  /** The two output variables of the decoder. */
  class BindInfo {
    var dbi: array<Record>
    var ndbi: nat

    constructor ()
      ensures ndbi == 0 && fresh(dbi) && dbi.Length == 0
    {
      dbi := new Record[0];
      ndbi := 0;
    }
  }

  const BLANK_RECORD := Emit(INIT_REGS, None)

  /** The slots written, in the order of the writes: every slot below `n`, once. */
  ghost predicate EachOnce(log: seq<nat>, n: nat) {
    |log| == n && forall i :: 0 <= i < n ==> log[i] == i
  }

  /** Writes one record in pass 2; pass 1 only counts it. */
  method Bind(pass: nat, dbi: array<Record>, n: nat, rec: Record, ghost log: seq<nat>)
    returns (n': nat, ghost log': seq<nat>)
    requires pass == 2 ==> n < dbi.Length
    modifies dbi
    ensures n' == n + 1
    ensures pass == 2 ==> dbi[..] == old(dbi[..])[n := rec] && log' == log + [n]
    ensures pass != 2 ==> dbi[..] == old(dbi[..]) && log' == log
  {
    log' := log;
    if pass == 2 {
      dbi[n] := rec;
      log' := log + [n];
    }
    n' := n + 1;
  }

  /** The array after `recs` have been written from slot `n` on in pass 2. */
  ghost function Written(pass: nat, before: seq<Record>, n: nat, recs: seq<Record>): seq<Record>
    requires pass == 2 ==> n + |recs| <= |before|
  {
    if pass == 2 then before[..n] + recs + before[n + |recs|..] else before
  }

  lemma WrittenPrefix(before: seq<Record>, n: nat, recs: seq<Record>)
    requires n + |recs| <= |before|
    ensures Written(2, before, n, recs)[..n + |recs|] == before[..n] + recs
  {}

  lemma WrittenNext(pass: nat, before: seq<Record>, n: nat, recs: seq<Record>, rec: Record)
    requires pass == 2 ==> n + |recs| < |before|
    ensures Written(pass, before, n, recs + [rec]) ==
      if pass == 2 then Written(pass, before, n, recs)[n + |recs| := rec] else before
  {}

  /** The loop of a repeated bind, under the section name found before it. */
  method BindTimes(pass: nat, env: Env, dbi: array<Record>, n: nat, r: Regs, count: uint32, stride: uint64,
                   ghost log: seq<nat>)
    returns (r': Regs, n': nat, ghost log': seq<nat>)
    requires pass == 2 ==> n + count <= dbi.Length && EachOnce(log, n)
    modifies dbi
    ensures var st := BindRun(env, r, count, stride);
      r' == st.regs && n' == n + count && dbi[..] == Written(pass, old(dbi[..]), n, st.recs)
    ensures pass == 2 ==> EachOnce(log', n')
  {
    var sectname := LookupSectionName(env.segs, r.segIndex, Address(r));
    r', n', log' := r, n, log;
    var i := 0;
    ghost var recs := [];
    NoBinds(env, r, stride);
    while i < count
      invariant 0 <= i <= count && n' == n + i
      invariant BindRun(env, r, i, stride) == State(r', recs)
      invariant dbi[..] == Written(pass, old(dbi[..]), n, recs)
      invariant pass == 2 ==> EachOnce(log', n')
    {
      WrittenNext(pass, old(dbi[..]), n, recs, Emit(r', sectname));
      recs := recs + [Emit(r', sectname)];
      n', log' := Bind(pass, dbi, n', Emit(r', sectname), log');
      r' := Advance(r', stride);
      i := i + 1;
    }
  }

  lemma FirstNul(s: seq<byte>, k: nat)
    requires k <= |s| && forall j :: 0 <= j < k ==> s[j] != 0
    ensures ScanNul(s) == Some(k) <==> k < |s| && s[k] == 0
    ensures k == |s| ==> ScanNul(s) == None
  {}

  /** The cursor moves past the terminator of the symbol, wherever in the mapping it is. */
  method ReadSymbol(mem: seq<byte>, p0: nat) returns (p: nat, name: seq<byte>, found: bool)
    requires p0 <= |mem|
    ensures p0 <= p <= |mem|
    ensures match ScanNul(mem[p0..])
            case None => !found
            case Some(k) => found && p == p0 + k + 1 && name == mem[p0..][..k]
  {
    p := p0;
    while p < |mem| && mem[p] != 0
      invariant p0 <= p <= |mem|
      invariant forall k :: p0 <= k < p ==> mem[k] != 0
    {
      p := p + 1;
    }
    FirstNul(mem[p0..], p - p0);
    if p == |mem| {
      return p, [], false;
    }
    name, found := mem[p0..p], true;
    p := p + 1;
  }

  /** The instruction at the cursor, in the bytes up to `limit`. */
  ghost function Current(mem: seq<byte>, p: nat, limit: nat): Parsed
    requires p < limit <= |mem|
  {
    Parse(mem[p..limit], mem[limit..])
  }

  /** The cursor has moved past the instruction.  The scan for a symbol's terminator may have moved
      it behind the end as well, which ends the pass. */
  ghost predicate MovedPast(mem: seq<byte>, p0: nat, limit: nat, p: nat)
    requires p0 < limit <= |mem|
  {
    var used := Current(mem, p0, limit).used;
    p0 < p <= |mem| && (p == p0 + used || (p >= limit && p0 + used == limit))
  }

  /** The bytes of the stream that lie in the mapping end here. */
  function Limit(mem: seq<byte>, end: nat): nat {
    Min(end, |mem|)
  }

  /** What is left of the stream behind the cursor. */
  ghost function Rest(mem: seq<byte>, p: nat, end: nat): seq<byte> {
    if p < Limit(mem, end) then mem[p..Limit(mem, end)] else []
  }

  /** The meaning of the rest of a pass, by the bytes of the stream that lie in the mapping. */
  lemma RunAtLimit(env: Env, mem: seq<byte>, p: nat, end: nat, r: Regs)
    requires p <= |mem|
    ensures var run := Run(env, Rest(mem, p, end), mem[Limit(mem, end)..], r);
      RunAt(env, mem, p, end, r) == if end <= |mem| then run else RunsOff(run)
  {
    assert mem[|mem|..] == [];
    assert mem[p..|mem|] == mem[p..];
  }

  lemma HaltingStep(env: Env, mem: seq<byte>, p: nat, end: nat, r: Regs)
    requires p < end && p < |mem| && Halts(Current(mem, p, Limit(mem, end)).instr)
    ensures RunAt(env, mem, p, end, r) == Result(HaltOutcome(Current(mem, p, Limit(mem, end)).instr), r, [])
  {
    RunAtLimit(env, mem, p, end, r);
  }

  lemma RestMoved(mem: seq<byte>, p0: nat, end: nat, p: nat)
    requires p0 < Limit(mem, end) && MovedPast(mem, p0, Limit(mem, end), p)
    ensures Rest(mem, p0, end)[Current(mem, p0, Limit(mem, end)).used..] == Rest(mem, p, end)
  {}

  lemma RunStep(env: Env, s: seq<byte>, tail: seq<byte>, r: Regs)
    requires s != [] && !Halts(Parse(s, tail).instr)
    ensures var st := Exec(env, Parse(s, tail).instr, r);
      Run(env, s, tail, r) == Run(env, s[Parse(s, tail).used..], tail, st.regs).After(st.recs)
  {}

  lemma RunsOffAfter(run: Result, recs: seq<Record>)
    ensures RunsOff(run.After(recs)) == RunsOff(run).After(recs)
  {}

  lemma RunningStep(env: Env, mem: seq<byte>, p0: nat, end: nat, r: Regs, p: nat)
    requires p0 < end && p0 < |mem| && MovedPast(mem, p0, Limit(mem, end), p)
    requires !Halts(Current(mem, p0, Limit(mem, end)).instr)
    ensures var st := Exec(env, Current(mem, p0, Limit(mem, end)).instr, r);
      RunAt(env, mem, p0, end, r) == RunAt(env, mem, p, end, st.regs).After(st.recs)
  {
    var tail := mem[Limit(mem, end)..];
    var st := Exec(env, Current(mem, p0, Limit(mem, end)).instr, r);
    RunAtLimit(env, mem, p0, end, r);
    RunAtLimit(env, mem, p, end, st.regs);
    RunStep(env, Rest(mem, p0, end), tail, r);
    RestMoved(mem, p0, end, p);
    RunsOffAfter(Run(env, Rest(mem, p, end), tail, st.regs), st.recs);
  }

  lemma RunningBound(env: Env, mem: seq<byte>, p: nat, end: nat, r: Regs)
    requires p < end && p < |mem| && !Halts(Current(mem, p, Limit(mem, end)).instr)
    ensures Repeats(Current(mem, p, Limit(mem, end)).instr) <= |RunAt(env, mem, p, end, r).recs|
  {
    var c := Current(mem, p, Limit(mem, end));
    RunningStep(env, mem, p, end, r, p + c.used);
  }

  /** An instruction that sets registers: the new registers and cursor. */
  method SetStep(env: Env, mem: seq<byte>, p0: nat, end: nat, r0: Regs) returns (p: nat, r: Regs, stuck: bool)
    requires p0 < end <= |mem|
    requires 0x10 <= mem[p0] < 0x90
    ensures var i := Current(mem, p0, end).instr;
      if stuck then i == Stuck else !Halts(i) && Exec(env, i, r0) == State(r, []) && MovedPast(mem, p0, end, p)
  {
    hide OrdinalName, ReadUleb, ReadSleb, ScanNul, BindRun, CurrentSection, SegStartAddress, SegmentName;
    var immediate := mem[p0] % 0x10;
    var opcode := mem[p0] / 0x10;
    p, r, stuck := p0 + 1, r0, false;
    assert mem[p0..end][1..] == mem[p..end];
    assert mem[p..end] + mem[end..] == mem[p..];
    if opcode == 0x1 {
      r := r.(ordinal := immediate, fromDylib := OrdinalName(immediate, env.dylibs));
    } else if opcode == 0x2 {
      var v;
      v, p := ReadUleb128(mem, p, end);
      var ordinal := ToInt32(v);
      r := r.(ordinal := ordinal, fromDylib := OrdinalName(ordinal, env.dylibs));
    } else if opcode == 0x3 {
      var ordinal: int := if immediate == 0 then 0 else immediate as int - 0x10;
      r := r.(ordinal := ordinal, fromDylib := OrdinalName(ordinal, env.dylibs));
    } else if opcode == 0x4 {
      var name, found;
      p, name, found := ReadSymbol(mem, p);
      if !found {
        return p, r, true;
      }
      r := r.(symbol := Some(name), weak := immediate % 2 == 1);
    } else if opcode == 0x5 {
      r := r.(typ := immediate);
    } else if opcode == 0x6 {
      var v, defined;
      v, p, defined := ReadSleb128(mem, p, end);
      if !defined {
        return p, r, true;
      }
      r := r.(addend := v);
    } else if opcode == 0x7 {
      var v;
      v, p := ReadUleb128(mem, p, end);
      r := r.(segIndex := immediate, segStart := SegStartAddress(env.segs, immediate),
              segName := SegmentName(env.segs, immediate), segOffset := v);
    } else {
      var v;
      v, p := ReadUleb128(mem, p, end);
      r := Advance(r, v);
    }
  }

  /** An instruction that writes one record. */
  method BindStep(pass: nat, env: Env, mem: seq<byte>, p0: nat, end: nat, dbi: array<Record>, n: nat, r: Regs,
                  ghost log: seq<nat>)
    returns (p: nat, r': Regs, n': nat, ghost log': seq<nat>)
    requires p0 < end <= |mem|
    requires 0x90 <= mem[p0] < 0xC0
    requires pass == 2 ==> n + 1 <= dbi.Length && EachOnce(log, n)
    modifies dbi
    ensures var i := Current(mem, p0, end).instr;
      var st := Exec(env, i, r);
      !Halts(i) && MovedPast(mem, p0, end, p) && r' == st.regs && n' == n + |st.recs| &&
      dbi[..] == Written(pass, old(dbi[..]), n, st.recs)
    ensures pass == 2 ==> EachOnce(log', n')
  {
    var immediate := mem[p0] % 0x10;
    var opcode := mem[p0] / 0x10;
    var ptr := env.segs.PointerSize();
    SingleBind(env, Current(mem, p0, end).instr, r);
    p := p0 + 1;
    assert mem[p0..end][1..] == mem[p..end];
    var sectname := LookupSectionName(env.segs, r.segIndex, Address(r));
    n', log' := Bind(pass, dbi, n, Emit(r, sectname), log);
    if opcode == 0x9 {
      r' := Advance(r, ptr);
    } else if opcode == 0xA {
      var v;
      v, p := ReadUleb128(mem, p, end);
      r' := Advance(r, (v + ptr) % U64);
    } else {
      r' := Advance(r, immediate * ptr + ptr);
    }
  }

  /** The repeated bind. */
  method TimesStep(pass: nat, env: Env, mem: seq<byte>, p0: nat, end: nat, dbi: array<Record>, n: nat, r: Regs,
                   ghost log: seq<nat>)
    returns (p: nat, r': Regs, n': nat, ghost log': seq<nat>)
    requires p0 < end <= |mem|
    requires 0xC0 <= mem[p0] < 0xD0
    requires pass == 2 ==> n + Repeats(Current(mem, p0, end).instr) <= dbi.Length && EachOnce(log, n)
    modifies dbi
    ensures var i := Current(mem, p0, end).instr;
      var st := Exec(env, i, r);
      !Halts(i) && MovedPast(mem, p0, end, p) && r' == st.regs && n' == n + |st.recs| &&
      dbi[..] == Written(pass, old(dbi[..]), n, st.recs)
    ensures pass == 2 ==> EachOnce(log', n')
  {
    var c, v;
    assert mem[p0..end][1..] == mem[p0 + 1..end];
    c, p := ReadUleb128(mem, p0 + 1, end);
    assert mem[p0..end][p - p0..] == mem[p..end];
    v, p := ReadUleb128(mem, p, end);
    ghost var instr := DoBindTimes(c, v);
    assert Current(mem, p0, end) == Parsed(instr, p - p0);
    NoBinds(env, r, Stride(env, instr));
    r', n', log' := BindTimes(pass, env, dbi, n, r, c % U32, (v % U32 + env.segs.PointerSize()) % U32, log);
  }

  /** One turn of the decoder's loop.  `halted` when the opcode ends the run. */
  method Step(pass: nat, env: Env, mem: seq<byte>, p0: nat, end: nat, dbi: array<Record>, n: nat, r: Regs,
              ghost log: seq<nat>)
    returns (halted: bool, outcome: Outcome, p: nat, r': Regs, n': nat, ghost recs: seq<Record>, ghost log': seq<nat>)
    requires p0 < end && p0 < |mem|
    requires pass == 2 ==> n + |RunAt(env, mem, p0, end, r).recs| <= dbi.Length && EachOnce(log, n)
    modifies dbi
    ensures p0 < p <= |mem|
    ensures RunAt(env, mem, p0, end, r) ==
      if halted then Result(outcome, r', []) else RunAt(env, mem, p, end, r').After(recs)
    ensures if halted then recs == [] else outcome == Exhausted
    ensures n' == n + |recs| && (pass == 2 ==> n' <= dbi.Length && EachOnce(log', n'))
    ensures dbi[..] == Written(pass, old(dbi[..]), n, recs)
  {
    var limit := Limit(mem, end);
    halted, outcome, p, r', n', recs, log' := true, Finished, p0 + 1, r, n, [], log;
    if 0x10 <= mem[p0] < 0x90 {
      p, r', halted := SetStep(env, mem, p0, limit, r);
      if halted {
        outcome, p, r' := Undefined, p0 + 1, r;
      }
    } else if 0x90 <= mem[p0] < 0xD0 {
      halted := false;
      recs := Exec(env, Current(mem, p0, limit).instr, r).recs;
      RunningBound(env, mem, p0, end, r);
      if mem[p0] < 0xC0 {
        p, r', n', log' := BindStep(pass, env, mem, p0, limit, dbi, n, r, log);
      } else {
        p, r', n', log' := TimesStep(pass, env, mem, p0, limit, dbi, n, r, log);
      }
    } else if mem[p0] >= 0xD0 {
      outcome := BadOpcode;
    }
    if halted {
      HaltingStep(env, mem, p0, end, r);
    } else {
      outcome := Exhausted;
      RunningStep(env, mem, p0, end, r, p);
    }
  }

  /** One pass over the stream.  Pass 1 counts; pass 2 fills an array of exactly that length. */
  method RunPass(pass: nat, env: Env, mem: seq<byte>, start: int, end: int, dbi: array<Record>)
    returns (outcome: Outcome, n: nat, ghost log: seq<nat>)
    requires pass == 2 ==> dbi.Length == |RunAt(env, mem, start, end, INIT_REGS).recs|
    modifies dbi
    ensures var run := RunAt(env, mem, start, end, INIT_REGS);
      outcome == run.outcome && (pass != 2 ==> dbi[..] == old(dbi[..])) &&
      n == |run.recs| && (pass == 2 ==> dbi[..] == run.recs)
    ensures pass == 2 ==> EachOnce(log, n)
  {
    ghost var run := RunAt(env, mem, start, end, INIT_REGS);
    var p, r := start, INIT_REGS;
    n, log, outcome := 0, [], Exhausted;
    ghost var done := [];
    var halted := false;
    while !halted && p < end
      invariant |done| == n
      invariant run == (if halted then Result(outcome, r, []) else RunAt(env, mem, p, end, r)).After(done)
      invariant !halted ==> outcome == Exhausted
      invariant pass != 2 ==> dbi[..] == old(dbi[..])
      invariant pass == 2 ==> n <= dbi.Length && dbi[..n] == done && EachOnce(log, n)
      decreases !halted, |mem| - p
    {
      if !(0 <= p < |mem|) {
        halted, outcome := true, Undefined;
      } else {
        ghost var recs;
        ghost var before := dbi[..];
        ghost var n0 := n;
        halted, outcome, p, r, n, recs, log := Step(pass, env, mem, p, end, dbi, n, r, log);
        AfterTwice(if halted then Result(outcome, r, []) else RunAt(env, mem, p, end, r), done, recs);
        if pass == 2 {
          WrittenPrefix(before, n0, recs);
        }
        done := done + recs;
      }
    }
  }

  /** The outcome of a pass, by the bytes of the stream that lie in the mapping. */
  lemma LimitOutcomes(env: Env, mem: seq<byte>, start: nat, end: nat)
    requires start <= |mem| && start <= end
    ensures var s, outcome := mem[start..Limit(mem, end)], RunAt(env, mem, start, end, INIT_REGS).outcome;
      outcome == Undefined ||
      match HaltEnd(s, mem[Limit(mem, end)..])
      case Some(k) =>
        (s[k - 1] < 0x10 || s[k - 1] >= 0xD0) && outcome == (if s[k - 1] < 0x10 then Finished else BadOpcode)
      case None => outcome == Exhausted
  {
    hide Run, HaltEnd;
    RunAtLimit(env, mem, start, end, INIT_REGS);
    HaltOutcomes(env, mem[start..Limit(mem, end)], mem[Limit(mem, end)..], INIT_REGS);
  }

  /** Decodes the stream from position `start` to position `end` of the mapping into `out`.  A bad
      opcode, or a step that C leaves undefined, is met in pass 1, before anything is written. */
  method GetDyldBindInfo(env: Env, mem: seq<byte>, start: int, end: int, out: BindInfo)
    returns (outcome: Outcome, ghost log: seq<nat>)
    modifies out
    ensures outcome == RunAt(env, mem, start, end, INIT_REGS).outcome
    ensures outcome == BadOpcode || outcome == Undefined ==> unchanged(out)
    ensures outcome == Finished || outcome == Exhausted ==>
      fresh(out.dbi) && out.dbi[..] == RunAt(env, mem, start, end, INIT_REGS).recs &&
      out.ndbi == out.dbi.Length && EachOnce(log, out.ndbi)
    ensures 0 <= start <= |mem| && start <= end && outcome != Undefined ==>
      var s := mem[start..Limit(mem, end)];
      match HaltEnd(s, mem[Limit(mem, end)..])
      case Some(k) => if s[k - 1] >= 0xD0 then unchanged(out) else s[k - 1] < 0x10 && fresh(out.dbi)
      case None => fresh(out.dbi)
  {
    var n;
    var none := new Record[0];
    outcome, n, log := RunPass(1, env, mem, start, end, none);
    if 0 <= start <= |mem| && start <= end {
      LimitOutcomes(env, mem, start, end);
    }
    if outcome == BadOpcode || outcome == Undefined {
      return;
    }
    out.dbi := new Record[n](_ => BLANK_RECORD);
    out.ndbi := n;
    outcome, n, log := RunPass(2, env, mem, start, end, out.dbi);
  }
}
