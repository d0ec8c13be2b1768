/** Streams as programs: the instructions a stream executes, their canonical bytes, and the bytes
    that a run does not depend on. */
module BindPrograms {
  import opened Words
  import opened Leb128
  import opened BindOpcodes

  /** The instructions that a stream executes, up to the one that halts it. */
  function Program(s: seq<byte>, tail: seq<byte>): seq<Instr>
    decreases |s|
  {
    if s == [] then []
    else
      var p := Parse(s, tail);
      if Halts(p.instr) then [p.instr] else [p.instr] + Program(s[p.used..], tail)
  }

  function RunProgram(env: Env, prog: seq<Instr>, r: Regs): Result {
    if prog == [] then Result(Exhausted, r, [])
    else if Halts(prog[0]) then Result(HaltOutcome(prog[0]), r, [])
    else
      var st := Exec(env, prog[0], r);
      RunProgram(env, prog[1..], st.regs).After(st.recs)
  }

  /** The decoder does exactly what its program says. */
  lemma {:induction false} RunIsProgram(env: Env, s: seq<byte>, tail: seq<byte>, r: Regs)
    ensures Run(env, s, tail, r) == RunProgram(env, Program(s, tail), r)
    decreases |s|
  {
    if s != [] {
      var p := Parse(s, tail);
      if !Halts(p.instr) {
        RunIsProgram(env, s[p.used..], tail, Exec(env, p.instr, r).regs);
        assert Program(s, tail)[1..] == Program(s[p.used..], tail);
      }
    }
  }

  lemma RunOne(env: Env, i: Instr, r: Regs)
    requires !Halts(i)
    ensures RunProgram(env, [i], r) == Result(Exhausted, Exec(env, i, r).regs, Exec(env, i, r).recs)
  {}

  predicate Straight(prog: seq<Instr>) {
    forall i :: i in prog ==> !Halts(i)
  }

  lemma {:induction false} RunConcat(env: Env, a: seq<Instr>, b: seq<Instr>, r: Regs)
    requires Straight(a)
    ensures RunProgram(env, a, r).outcome == Exhausted
    ensures var first := RunProgram(env, a, r);
      RunProgram(env, a + b, r) == RunProgram(env, b, first.regs).After(first.recs)
  {
    if a == [] {
      assert a + b == b;
      assert [] + RunProgram(env, b, r).recs == RunProgram(env, b, r).recs;
    } else {
      var st := Exec(env, a[0], r);
      RunConcat(env, a[1..], b, st.regs);
      assert (a + b)[1..] == a[1..] + b;
      var first := RunProgram(env, a[1..], st.regs);
      AfterTwice(RunProgram(env, b, first.regs), st.recs, first.recs);
    }
  }

  // ---------------------------------------------------------------- encoding

  /** The signed operand that the decoder reads as `v`: the canonical one where the decoder
      takes it, and below -2^62 the encoding of the same 64-bit pattern without a sign. */
  function EncodeAddend(v: int64): seq<byte> {
    EncodeSleb(if v >= -0x4000_0000_0000_0000 then v else v + U64)
  }

  /** The instructions that have bytes of their own. */
  predicate Encodable(i: Instr) {
    match i
    case Stuck => false
    case BadOp(op) => op >= 0xD
    case SetSymbol(name, _) => 0 !in name
    case _ => true
  }

  /** The bytes of an instruction, with canonical operands. */
  function Encode(i: Instr): (s: seq<byte>)
    requires Encodable(i)
    ensures |s| >= 1
  {
    match i
    case Done => [0x00]
    case SetOrdinalImm(imm) => [0x10 + imm]
    case SetOrdinalUleb(v) => [0x20] + EncodeUleb(v)
    case SetSpecialImm(imm) => [0x30 + imm]
    case SetSymbol(name, flags) => [0x40 + flags] + name + [0]
    case SetType(imm) => [0x50 + imm]
    case SetAddend(v) => [0x60] + EncodeAddend(v)
    case SetSegment(seg, offset) => [0x70 + seg] + EncodeUleb(offset)
    case AddAddr(d) => [0x80] + EncodeUleb(d)
    case DoBind => [0x90]
    case DoBindAddAddr(d) => [0xA0] + EncodeUleb(d)
    case DoBindScaled(imm) => [0xB0 + imm]
    case DoBindTimes(count, skip) => [0xC0] + EncodeUleb(count) + EncodeUleb(skip)
    case BadOp(op) => [0x10 * op]
  }

  predicate AllEncodable(prog: seq<Instr>) {
    forall i :: i in prog ==> Encodable(i)
  }

  function EncodeAll(prog: seq<Instr>): seq<byte>
    requires AllEncodable(prog)
  {
    if prog == [] then [] else Encode(prog[0]) + EncodeAll(prog[1..])
  }

  lemma AddendRoundTrip(v: int64, rest: seq<byte>)
    ensures ReadSleb(EncodeAddend(v) + rest) == Sleb(v, |EncodeAddend(v)|)
  {
    if v >= -0x4000_0000_0000_0000 {
      SlebDecodesEncoding(v, rest);
    } else {
      SlebDecodesEncoding(v + U64, rest);
    }
    SignedWrap(v);
  }

  lemma {:induction false} ScanNulFinds(name: seq<byte>, rest: seq<byte>)
    requires 0 !in name
    ensures ScanNul(name + [0] + rest) == Some(|name|)
  {
    var s := name + [0] + rest;
    if name == [] {
      assert s[0] == 0;
    } else {
      assert s[1..] == name[1..] + [0] + rest;
      ScanNulFinds(name[1..], rest);
    }
  }

  lemma ParseSymbolEncoded(name: seq<byte>, flags: nibble, rest: seq<byte>, tail: seq<byte>)
    requires 0 !in name
    ensures var i := SetSymbol(name, flags);
      Parse(Encode(i) + rest, tail) == Parsed(i, |Encode(i)|)
  {
    var s := [0x40 + flags] + name + [0] + rest;
    ScanNulFinds(name, rest + tail);
    var text := s[1..] + tail;
    assert text == name + [0] + (rest + tail);
    assert text[..|name|] == name;
    assert (0x40 + flags) / 0x10 == 4 && (0x40 + flags) % 0x10 == flags;
  }

  lemma ParseTimesEncoded(count: uint64, skip: uint64, rest: seq<byte>, tail: seq<byte>)
    ensures var i := DoBindTimes(count, skip);
      Parse(Encode(i) + rest, tail) == Parsed(i, |Encode(i)|)
  {
    hide EncodeUleb, ReadUleb;
    var c, k := EncodeUleb(count), EncodeUleb(skip);
    var s := [0xC0] + c + k + rest;
    assert s[0] == 0xC0;
    assert s[1..] == c + (k + rest);
    UlebRoundTrip(count, k + rest);
    assert s[1 + |c|..] == k + rest;
    UlebRoundTrip(skip, rest);
  }

  /** Instructions without an operand after the opcode byte. */
  predicate OneByte(i: Instr) {
    Encodable(i) && |Encode(i)| == 1
  }

  lemma ParseByte(i: Instr, s: seq<byte>, tail: seq<byte>)
    requires OneByte(i) && s != [] && s[0] == Encode(i)[0]
    ensures Parse(s, tail) == Parsed(i, 1)
  {}

  lemma ParseAddendEncoded(v: int64, rest: seq<byte>, tail: seq<byte>)
    ensures var i := SetAddend(v);
      Parse(Encode(i) + rest, tail) == Parsed(i, |Encode(i)|)
  {
    AddendRoundTrip(v, rest);
    assert (Encode(SetAddend(v)) + rest)[1..] == EncodeAddend(v) + rest;
  }

  /** Every instruction is recovered from its bytes, whatever follows them. */
  lemma ParseEncoded(i: Instr, rest: seq<byte>, tail: seq<byte>)
    requires Encodable(i)
    ensures Parse(Encode(i) + rest, tail) == Parsed(i, |Encode(i)|)
  {
    match i {
      case SetSymbol(name, flags) => ParseSymbolEncoded(name, flags, rest, tail);
      case DoBindTimes(count, skip) => ParseTimesEncoded(count, skip, rest, tail);
      case SetAddend(v) => ParseAddendEncoded(v, rest, tail);
      case SetOrdinalUleb(v) => ParseUlebEncoded(i, v, rest, tail);
      case SetSegment(_, v) => ParseUlebEncoded(i, v, rest, tail);
      case AddAddr(v) => ParseUlebEncoded(i, v, rest, tail);
      case DoBindAddAddr(v) => ParseUlebEncoded(i, v, rest, tail);
      case _ => ParseByte(i, Encode(i) + rest, tail);
    }
  }

  lemma ParseUlebEncoded(i: Instr, v: uint64, rest: seq<byte>, tail: seq<byte>)
    requires i == SetOrdinalUleb(v) || (i.SetSegment? && i.offset == v) || i == AddAddr(v) || i == DoBindAddAddr(v)
    ensures Parse(Encode(i) + rest, tail) == Parsed(i, |Encode(i)|)
  {
    assert (Encode(i) + rest)[1..] == EncodeUleb(v) + rest;
    UlebRoundTrip(v, rest);
  }

  lemma RunHead(env: Env, i: Instr, rest: seq<byte>, tail: seq<byte>, r: Regs)
    requires Encodable(i)
    ensures Run(env, Encode(i) + rest, tail, r) ==
      if Halts(i) then Result(HaltOutcome(i), r, [])
      else var st := Exec(env, i, r); Run(env, rest, tail, st.regs).After(st.recs)
  {
    ParseEncoded(i, rest, tail);
    assert (Encode(i) + rest)[|Encode(i)|..] == rest;
  }

  /** Running the bytes of a program and then `rest` is running the program and then `rest`. */
  lemma {:induction false} RunEncoded(env: Env, prog: seq<Instr>, rest: seq<byte>, tail: seq<byte>, r: Regs)
    requires AllEncodable(prog) && Straight(prog)
    ensures var first := RunProgram(env, prog, r);
      Run(env, EncodeAll(prog) + rest, tail, r) == Run(env, rest, tail, first.regs).After(first.recs)
  {
    if prog == [] {
      assert EncodeAll(prog) + rest == rest;
      assert [] + Run(env, rest, tail, r).recs == Run(env, rest, tail, r).recs;
    } else {
      var more := EncodeAll(prog[1..]) + rest;
      assert EncodeAll(prog) + rest == Encode(prog[0]) + more;
      RunHead(env, prog[0], more, tail, r);
      var st := Exec(env, prog[0], r);
      RunEncoded(env, prog[1..], rest, tail, st.regs);
      var first := RunProgram(env, prog[1..], st.regs);
      AfterTwice(Run(env, rest, tail, first.regs), st.recs, first.recs);
    }
  }

  /** The same when the program may halt: nothing after the halting instruction is looked at. */
  lemma {:induction false} RunEncodedProgram(env: Env, prog: seq<Instr>, tail: seq<byte>, r: Regs)
    requires AllEncodable(prog)
    ensures Run(env, EncodeAll(prog), tail, r) == RunProgram(env, prog, r)
  {
    if prog != [] {
      RunHead(env, prog[0], EncodeAll(prog[1..]), tail, r);
      if !Halts(prog[0]) {
        RunEncodedProgram(env, prog[1..], tail, Exec(env, prog[0], r).regs);
      }
    }
  }

  // ------------------------------------------------------- nothing after the halt

  /** `s'` starts with the first `n` bytes of `s`. */
  predicate Agree(s: seq<byte>, s': seq<byte>, n: nat) {
    n <= |s| && n <= |s'| && s[..n] == s'[..n]
  }

  lemma {:induction false} UlebLocal(s: seq<byte>, s': seq<byte>, i: nat, acc: uint64)
    requires i <= |s| && UlebFrom(s, i, acc).used < |s| && Agree(s, s', UlebFrom(s, i, acc).used + 1)
    ensures UlebFrom(s', i, acc) == UlebFrom(s, i, acc)
    decreases |s| - i
  {
    var used := UlebFrom(s, i, acc).used;
    assert s[i] == s[..used + 1][i] == s'[..used + 1][i] == s'[i];
    var bit := 7 * i;
    var slice := s[i] % 0x80;
    if !(bit >= 64 || Shr64(Shl64(slice, bit), bit) != slice) && s[i] >= 0x80 {
      UlebLocal(s, s', i + 1, Or64(acc, Shl64(slice, bit)));
    }
  }

  lemma {:induction false} SlebLocal(s: seq<byte>, s': seq<byte>, i: nat, acc: uint64)
    requires i <= |s| && SlebFrom(s, i, acc).Sleb?
    requires SlebFrom(s, i, acc).used < |s| && Agree(s, s', SlebFrom(s, i, acc).used + 1)
    ensures SlebFrom(s', i, acc) == SlebFrom(s, i, acc)
    decreases |s| - i
  {
    var used := SlebFrom(s, i, acc).used;
    assert s[i] == s[..used + 1][i] == s'[..used + 1][i] == s'[i];
    if s[i] >= 0x80 {
      SlebLocal(s, s', i + 1, Or64(acc, Shl64(s[i] % 0x80, 7 * i)));
    }
  }

  lemma ScanLocal(s: seq<byte>, s': seq<byte>, k: nat)
    requires ScanNul(s) == Some(k) && Agree(s, s', k + 1)
    ensures ScanNul(s') == Some(k) && s'[..k] == s[..k]
  {}

  lemma DropAgree(s: seq<byte>, s': seq<byte>, n: nat, k: nat)
    requires k <= n && Agree(s, s', n)
    ensures Agree(s[k..], s'[k..], n - k)
  {
    assert s[k..][..n - k] == s[..n][k..] == s'[..n][k..] == s'[k..][..n - k];
  }

  lemma TakeAgree(s: seq<byte>, s': seq<byte>, n: nat, k: nat)
    requires k <= n && Agree(s, s', n)
    ensures Agree(s, s', k)
  {}

  /** An instruction with another one after it depends on its own bytes and the next one only. */
  lemma ParseLocal(s: seq<byte>, tail: seq<byte>, s': seq<byte>, tail': seq<byte>)
    requires s != [] && Parse(s, tail).instr != Stuck
    requires Parse(s, tail).used < |s| && Agree(s, s', Parse(s, tail).used + 1)
    ensures Parse(s', tail') == Parse(s, tail)
  {
    hide UlebFrom, SlebFrom, ScanNul;
    var used := Parse(s, tail).used;
    assert s'[0] == s'[..used + 1][0] == s[0];
    DropAgree(s, s', used + 1, 1);
    var op := s[0] / 0x10;
    if op == 0x4 {
      var k := ScanNul(s[1..] + tail).value;
      assert (s[1..] + tail)[..k + 1] == s[1..][..k + 1] == s'[1..][..k + 1] == (s'[1..] + tail')[..k + 1] by {
        TakeAgree(s[1..], s'[1..], used, k + 1);
      }
      ScanLocal(s[1..] + tail, s'[1..] + tail', k);
    } else if op == 0x6 {
      SlebLocal(s[1..], s'[1..], 0, 0);
    } else if op == 0xC {
      var u := ReadUleb(s[1..]).used;
      TakeAgree(s[1..], s'[1..], used, u + 1);
      UlebLocal(s[1..], s'[1..], 0, 0);
      DropAgree(s, s', used + 1, 1 + u);
      UlebLocal(s[1 + u..], s'[1 + u..], 0, 0);
    } else if op == 0x2 || op == 0x7 || op == 0x8 || op == 0xA {
      UlebLocal(s[1..], s'[1..], 0, 0);
    }
  }

  lemma ScanStops(s: seq<byte>, n: nat)
    requires n < |s| && s[n] == 0
    ensures ScanNul(s).Some? && ScanNul(s).value <= n
  {}

  lemma ParseTail(s: seq<byte>, tail: seq<byte>, tail': seq<byte>, n: nat)
    requires s != [] && n < |tail| && tail[n] == 0 && Agree(tail, tail', n + 1)
    ensures Parse(s, tail') == Parse(s, tail)
  {
    if s[0] / 0x10 == 0x4 {
      var a := s[1..];
      var text, text' := a + tail, a + tail';
      ScanStops(text, |a| + n);
      var k := ScanNul(text).value;
      assert text[..|a| + n + 1] == a + tail[..n + 1] == a + tail'[..n + 1] == text'[..|a| + n + 1];
      TakeAgree(text, text', |a| + n + 1, k + 1);
      ScanLocal(text, text', k);
    }
  }

  /** Behind the end of the stream nothing is looked at past the first NUL. */
  lemma {:induction false} TailOnlyToNul(env: Env, s: seq<byte>, tail: seq<byte>, tail': seq<byte>, n: nat, r: Regs)
    requires n < |tail| && tail[n] == 0 && Agree(tail, tail', n + 1)
    ensures Run(env, s, tail', r) == Run(env, s, tail, r)
    decreases |s|
  {
    if s != [] {
      ParseTail(s, tail, tail', n);
      var p := Parse(s, tail);
      if !Halts(p.instr) {
        TailOnlyToNul(env, s[p.used..], tail, tail', n, Exec(env, p.instr, r).regs);
      }
    }
  }

  /** The bytes up to and including the first DONE or bad opcode that is executed, if one is. */
  function HaltEnd(s: seq<byte>, tail: seq<byte>): (r: Option<nat>)
    ensures r.Some? ==> 1 <= r.value <= |s|
    decreases |s|
  {
    if s == [] then None
    else
      var p := Parse(s, tail);
      if p.instr.Stuck? then None
      else if Halts(p.instr) then Some(1)
      else match HaltEnd(s[p.used..], tail)
        case None => None
        case Some(k) => Some(p.used + k)
  }

  /** Nothing after the first executed DONE or bad opcode affects the result, whatever operands
      precede it. */
  lemma {:induction false} NothingAfterHalt(env: Env, s: seq<byte>, tail: seq<byte>,
                                            s': seq<byte>, tail': seq<byte>, r: Regs)
    requires HaltEnd(s, tail).Some? && Agree(s, s', HaltEnd(s, tail).value)
    ensures Run(env, s', tail', r) == Run(env, s, tail, r)
    decreases |s|
  {
    hide Exec;
    var n := HaltEnd(s, tail).value;
    var p := Parse(s, tail);
    assert s'[0] == s'[..n][0] == s[0];
    if !Halts(p.instr) {
      TakeAgree(s, s', n, p.used + 1);
      ParseLocal(s, tail, s', tail');
      DropAgree(s, s', n, p.used);
      NothingAfterHalt(env, s[p.used..], tail, s'[p.used..], tail', Exec(env, p.instr, r).regs);
    }
  }

  /** The outcome by the bytes: a run that halts in the stream does so at an opcode byte below 0x10,
      and is finished, or at one from 0xD0 on, and is bad; any other run uses the stream up, unless C
      leaves it undefined. */
  lemma {:induction false} HaltOutcomes(env: Env, s: seq<byte>, tail: seq<byte>, r: Regs)
    ensures match HaltEnd(s, tail)
      case Some(k) =>
        (s[k - 1] < 0x10 || s[k - 1] >= 0xD0) &&
        Run(env, s, tail, r).outcome == (if s[k - 1] < 0x10 then Finished else BadOpcode)
      case None => Run(env, s, tail, r).outcome == Exhausted || Run(env, s, tail, r).outcome == Undefined
    decreases |s|
  {
    hide Exec;
    if s != [] && !Halts(Parse(s, tail).instr) {
      HaltOutcomes(env, s[Parse(s, tail).used..], tail, Exec(env, Parse(s, tail).instr, r).regs);
    }
  }

  /** A symbol that ends in the mapping ends there however the mapping goes on. */
  lemma {:induction false} LongerTail(env: Env, s: seq<byte>, tail: seq<byte>, more: seq<byte>, r: Regs)
    requires Run(env, s, tail, r).outcome != Undefined
    ensures Run(env, s, tail + more, r) == Run(env, s, tail, r)
    decreases |s|
  {
    if s != [] {
      LongerTailParse(s, tail, more);
      var p := Parse(s, tail);
      if !Halts(p.instr) {
        LongerTail(env, s[p.used..], tail, more, Exec(env, p.instr, r).regs);
      }
    }
  }

  lemma LongerTailParse(s: seq<byte>, tail: seq<byte>, more: seq<byte>)
    requires s != [] && Parse(s, tail).instr != Stuck
    ensures Parse(s, tail + more) == Parse(s, tail)
  {
    if s[0] / 0x10 == 0x4 {
      var text := s[1..] + tail;
      assert s[1..] + (tail + more) == text + more;
      var k := ScanNul(text).value;
      ScanLocal(text, text + more, k);
    }
  }

  /** A run that C defines depends on nothing outside the mapping, even when the stream is said to
      go on behind it. */
  lemma NothingBeyondMapping(env: Env, mem: seq<byte>, more: seq<byte>, p: int, end: int, r: Regs)
    requires RunAt(env, mem, p, end, r).outcome != Undefined
    ensures RunAt(env, mem + more, p, end, r) == RunAt(env, mem, p, end, r)
  {
    if p < end {
      if end <= |mem| {
        assert (mem + more)[p..end] == mem[p..end] && (mem + more)[end..] == mem[end..] + more;
        LongerTail(env, mem[p..end], mem[end..], more, r);
      } else {
        HaltOutcomes(env, mem[p..], [], r);
        var s := if end <= |mem + more| then (mem + more)[p..end] else (mem + more)[p..];
        var tail := if end <= |mem + more| then (mem + more)[end..] else [];
        var n := HaltEnd(mem[p..], []).value;
        assert s[..n] == mem[p..][..n];
        NothingAfterHalt(env, mem[p..], [], s, tail, r);
      }
    }
  }

  // ----------------------------------------------------------- canonical form

  /** A run that C defines executes only instructions that have bytes of their own. */
  lemma {:induction false} ProgramEncodable(env: Env, s: seq<byte>, tail: seq<byte>, r: Regs)
    requires Run(env, s, tail, r).outcome != Undefined
    ensures AllEncodable(Program(s, tail))
    decreases |s|
  {
    if s != [] {
      var p := Parse(s, tail);
      ParsedEncodable(s, tail);
      if !Halts(p.instr) {
        ProgramEncodable(env, s[p.used..], tail, Exec(env, p.instr, r).regs);
      }
    }
  }

  lemma ParsedEncodable(s: seq<byte>, tail: seq<byte>)
    requires s != []
    ensures Parse(s, tail).instr == Stuck || Encodable(Parse(s, tail).instr)
  {}

  /** Any stream whose run C defines, malformed operands and all, decodes like the canonical
      bytes of the program it executes. */
  lemma CanonicalForm(env: Env, s: seq<byte>, tail: seq<byte>, r: Regs, tail': seq<byte>)
    requires Run(env, s, tail, r).outcome != Undefined
    ensures AllEncodable(Program(s, tail))
    ensures Run(env, EncodeAll(Program(s, tail)), tail', r) == Run(env, s, tail, r)
  {
    ProgramEncodable(env, s, tail, r);
    RunIsProgram(env, s, tail, r);
    RunEncodedProgram(env, Program(s, tail), tail', r);
  }
}
