/** The two LEB128 readers (section 7.6 of DWARF Version 5) and what they decode. */
module Leb128 {
  import opened Words

  /** A value and the number of bytes the cursor moved. */
  datatype Uleb = Uleb(value: uint64, used: nat)

  /** A shift of a 64-bit register by 64 or more has no meaning in C: `BadShift`. */
  datatype Sleb = Sleb(value: int64, used: nat) | BadShift

  // ---------------------------------------------------------------- unsigned

  /** The unsigned reader from its `i`-th byte on, with `acc` gathered so far. */
  function UlebFrom(s: seq<byte>, i: nat, acc: uint64): (u: Uleb)
    requires i <= |s|
    ensures i <= u.used <= |s|
    decreases |s| - i
  {
    if i == |s| then Uleb(0, i)
    else
      var slice := s[i] % 0x80;
      if 7 * i >= 64 || Shr64(Shl64(slice, 7 * i), 7 * i) != slice then Uleb(0, i)
      else
        var acc' := Or64(acc, Shl64(slice, 7 * i));
        if s[i] >= 0x80 then UlebFrom(s, i + 1, acc') else Uleb(acc', i + 1)
  }

  function ReadUleb(s: seq<byte>): (u: Uleb)
    ensures u.used <= |s|
  {
    UlebFrom(s, 0, 0)
  }

  /** The cursor `p` is advanced past the operand; a malformed operand reads as 0. */
  method ReadUleb128(mem: seq<byte>, p0: nat, end: nat) returns (result: uint64, p: nat)
    requires p0 <= end <= |mem|
    ensures p0 <= p <= end
    ensures Uleb(result, p - p0) == ReadUleb(mem[p0..end])
  {
    p := p0;
    result := 0;
    var bit := 0;
    ghost var s := mem[p0..end];
    while true
      invariant p0 <= p <= end
      invariant bit == 7 * (p - p0)
      invariant UlebFrom(s, p - p0, result) == ReadUleb(s)
      decreases end - p
    {
      if p == end {
        return 0, p;
      }
      var slice := mem[p] % 0x80;
      if bit >= 64 || Shr64(Shl64(slice, bit), bit) != slice {
        return 0, p;
      }
      result := Or64(result, Shl64(slice, bit));
      bit := bit + 7;
      p := p + 1;
      if mem[p - 1] < 0x80 {
        return;
      }
    }
  }

  /** The number that a run of 7-bit groups denotes, least significant group first. */
  function GroupSum(s: seq<byte>): nat {
    if s == [] then 0 else s[0] % 0x80 + 0x80 * GroupSum(s[1..])
  }

  /** Byte `t` is the first byte of `s` without the continuation bit. */
  predicate Terminator(s: seq<byte>, t: nat) {
    t < |s| && s[t] < 0x80 && forall k :: 0 <= k < t ==> s[k] >= 0x80
  }

  /** An operand that fits 64 bits: it ends within ten bytes and a tenth byte is at most 1. */
  predicate UlebFits(s: seq<byte>, t: nat) {
    Terminator(s, t) && t <= 9 && (t == 9 ==> s[9] <= 1)
  }

  /** Where the reader gives up on an operand that does not fit. */
  predicate UlebStop(s: seq<byte>, j: nat) {
    && j <= |s| && j <= 10
    && (forall k :: 0 <= k < j ==> s[k] >= 0x80)
    && (j == 10 ==> s[9] % 0x80 <= 1)
    && (j == |s| || j == 10 || (j == 9 && s[9] % 0x80 > 1))
  }

  /** The source's overflow test `slice << bit >> bit != slice`, in plain arithmetic. */
  lemma ShiftTest(slice: nat, i: nat)
    requires slice < 0x80 && i <= 9
    ensures Shr64(Shl64(slice, 7 * i), 7 * i) == slice <==> (i == 9 ==> slice <= 1)
    ensures (i == 9 ==> slice <= 1) ==> Shl64(slice, 7 * i) == Shift(slice, 7 * i)
  {
    Shl64Value(slice, 7 * i);
    if i <= 8 || slice <= 1 {
      GroupFits(slice, i);
      Shr64Undoes(slice, 7 * i);
    } else {
      TopGroup(slice);
      ShiftTable(slice % 2);
      Shr64Undoes(slice % 2, 63);
    }
  }

  /** Only the lowest bit of a tenth group survives the shift by 63. */
  lemma TopGroup(slice: nat)
    requires slice < 0x80
    ensures Shl64(slice, 63) == Shift(slice % 2, 63)
  {
    Shl64Value(slice, 63);
    ShiftTable(slice);
    ShiftTable(slice % 2);
    assert slice == 2 * (slice / 2) + slice % 2;
  }

  lemma GroupFits(slice: nat, i: nat)
    requires slice < 0x80 && i <= 9 && (i == 9 ==> slice <= 1)
    ensures Shift(slice, 7 * i) < U64
  {
    NextGroup(slice, i);
    ShiftPositive(7 * i);
    Below64(0, slice, i);
  }

  lemma Below64(acc: nat, w: nat, i: nat)
    requires i <= 9 && acc < Shift(1, 7 * i) && w < Shift(1, 64 - 7 * i)
    ensures acc + Shift(w, 7 * i) < U64
  {
    ShiftLess(w, Shift(1, 64 - 7 * i), 7 * i);
    ShiftTwice(1, 64 - 7 * i, 7 * i);
    ShiftTable(1);
  }

  /** One group joins the accumulator as an addition. */
  lemma AddGroup(acc: uint64, slice: nat, i: nat)
    requires slice < 0x80 && i <= 9 && (i == 9 ==> slice <= 1)
    requires acc < Shift(1, 7 * i)
    ensures Or64(acc, Shl64(slice, 7 * i)) == acc + Shift(slice, 7 * i)
    ensures acc + Shift(slice, 7 * i) < Shift(1, 7 * (i + 1))
  {
    ShiftTest(slice, i);
    OrDisjoint(acc, slice, 7 * i);
    GroupWeight(slice, i);
  }

  lemma GroupWeight(slice: nat, i: nat)
    requires slice < 0x80
    ensures Shift(slice, 7 * i) + Shift(1, 7 * i) <= Shift(1, 7 * (i + 1))
  {
    ShiftTable(1);
    ShiftTwice(1, 7, 7 * i);
    ShiftLess(slice, 0x80, 7 * i);
  }

  /** One turn of the unsigned reader's loop on a group that fits. */
  lemma UlebStep(s: seq<byte>, i: nat, acc: uint64)
    requires i < |s| && i <= 9 && (i == 9 ==> s[9] % 0x80 <= 1)
    requires acc < Shift(1, 7 * i)
    ensures acc + Shift(s[i] % 0x80, 7 * i) < Shift(1, 7 * (i + 1))
    ensures acc + Shift(s[i] % 0x80, 7 * i) < U64
    ensures UlebFrom(s, i, acc) ==
            if s[i] >= 0x80 then UlebFrom(s, i + 1, acc + Shift(s[i] % 0x80, 7 * i))
            else Uleb(acc + Shift(s[i] % 0x80, 7 * i), i + 1)
  {
    ShiftTest(s[i] % 0x80, i);
    AddGroup(acc, s[i] % 0x80, i);
  }

  /** The weight of a number is that of its lowest group plus that of the rest. */
  lemma WeighRest(w: nat, i: nat)
    ensures Shift(w, 7 * i) == Shift(w % 0x80, 7 * i) + Shift(w / 0x80, 7 * (i + 1))
  {
    var q := w / 0x80;
    ShiftTable(q);
    ShiftTwice(q, 7, 7 * i);
    ShiftAdd(w % 0x80, 0x80 * q, 7 * i);
  }

  /** After one group the rest of the number has seven bits less to fill. */
  lemma NextGroup(w: nat, i: nat)
    requires i <= 9
    ensures w < Shift(1, 64 - 7 * i) ==> (i == 9 ==> w <= 1)
    ensures w < 0x80 && (i == 9 ==> w <= 1) ==> w < Shift(1, 64 - 7 * i)
    ensures w >= 0x80 && w < Shift(1, 64 - 7 * i) ==> i <= 8 && w / 0x80 < Shift(1, 64 - 7 * (i + 1))
  {
    if i <= 8 {
      ShiftSeven(1, 57 - 7 * i);
      ShiftPositive(57 - 7 * i);
    } else {
      assert Shift(1, 1) == 2;
    }
  }

  lemma {:induction false} UlebFitsFrom(s: seq<byte>, t: nat, i: nat, acc: uint64)
    requires UlebFits(s, t) && i <= t && acc < Shift(1, 7 * i)
    ensures UlebFrom(s, i, acc).value == acc + Shift(GroupSum(s[i..t + 1]), 7 * i)
    ensures UlebFrom(s, i, acc).used == t + 1
    decreases t - i
  {
    UlebStep(s, i, acc);
    WeighGroups(s, t, i);
    if i < t {
      UlebFitsFrom(s, t, i + 1, acc + Shift(s[i] % 0x80, 7 * i));
    }
  }

  lemma WeighGroups(s: seq<byte>, t: nat, i: nat)
    requires i <= t < |s|
    ensures Shift(GroupSum(s[i..t + 1]), 7 * i)
         == Shift(s[i] % 0x80, 7 * i) + Shift(GroupSum(s[i + 1..t + 1]), 7 * (i + 1))
    ensures i == t ==> Shift(GroupSum(s[i + 1..t + 1]), 7 * (i + 1)) == 0
  {
    assert s[i..t + 1][1..] == s[i + 1..t + 1];
    WeighRest(GroupSum(s[i..t + 1]), i);
    if i == t {
      ShiftAdd(0, 0, 7 * (i + 1));
    }
  }

  lemma {:induction false} UlebStopFrom(s: seq<byte>, j: nat, i: nat, acc: uint64)
    requires UlebStop(s, j) && i <= j
    ensures UlebFrom(s, i, acc) == Uleb(0, j)
    decreases j - i
  {
    if i < |s| && i <= 9 {
      ShiftTest(s[i] % 0x80, i);
      if i < j {
        UlebStopFrom(s, j, i + 1, Or64(acc, Shl64(s[i] % 0x80, 7 * i)));
      }
    }
  }

  /** For arbitrary bytes the unsigned reader returns the sum of the 7-bit groups up to the
      first terminator when that operand fits, and 0 at the first offending byte otherwise. */
  lemma UlebMeaning(s: seq<byte>)
    ensures forall t: nat :: UlebFits(s, t) ==> ReadUleb(s).value == GroupSum(s[..t + 1]) && ReadUleb(s).used == t + 1
    ensures (forall t: nat :: !UlebFits(s, t)) ==> ReadUleb(s).value == 0 && UlebStop(s, ReadUleb(s).used)
  {
    ShiftTable(1);
    forall t: nat | UlebFits(s, t)
      ensures ReadUleb(s).value == GroupSum(s[..t + 1]) && ReadUleb(s).used == t + 1
    {
      UlebFitsFrom(s, t, 0, 0);
      assert s[0..t + 1] == s[..t + 1];
    }
    if forall t: nat :: !UlebFits(s, t) {
      var j := FindStop(s, 0);
      UlebStopFrom(s, j, 0, 0);
    }
  }

  lemma {:induction false} FindStop(s: seq<byte>, i: nat) returns (j: nat)
    requires forall t: nat :: !UlebFits(s, t)
    requires i <= |s| && i <= 10 && forall k :: 0 <= k < i ==> s[k] >= 0x80
    requires i == 10 ==> s[9] % 0x80 <= 1
    ensures UlebStop(s, j)
    decreases 10 - i
  {
    if i == |s| || i == 10 || (i == 9 && s[9] % 0x80 > 1) {
      j := i;
    } else {
      assert !UlebFits(s, i);
      j := FindStop(s, i + 1);
    }
  }

  /** The canonical unsigned encoding. */
  function EncodeUleb(v: nat): (s: seq<byte>)
    ensures |s| >= 1
  {
    if v < 0x80 then [v] else [v % 0x80 + 0x80] + EncodeUleb(v / 0x80)
  }

  /** The canonical encoding is the shortest: `n` bytes do exactly for the numbers below 2^(7n). */
  lemma {:induction false} EncodeUlebLength(v: nat, n: nat)
    requires n >= 1
    ensures |EncodeUleb(v)| <= n <==> v < Shift(1, 7 * n)
    decreases n
  {
    ShiftSeven(1, 7 * (n - 1));
    ShiftPositive(7 * (n - 1));
    if n == 1 {
      assert Shift(1, 0) == 1;
    } else if v >= 0x80 {
      EncodeUlebLength(v / 0x80, n - 1);
    }
  }

  lemma EncodeUlebHead(w: nat, s: seq<byte>)
    requires EncodeUleb(w) <= s
    ensures s[0] % 0x80 == w % 0x80 && (s[0] >= 0x80 <==> w >= 0x80)
    ensures w >= 0x80 ==> EncodeUleb(w / 0x80) <= s[1..]
  {}

  lemma {:induction false} UlebRoundTripFrom(s: seq<byte>, i: nat, w: nat, acc: uint64)
    requires i <= 9 && i <= |s| && EncodeUleb(w) <= s[i..]
    requires w < Shift(1, 64 - 7 * i) && acc < Shift(1, 7 * i)
    ensures UlebFrom(s, i, acc).value == acc + Shift(w, 7 * i)
    ensures UlebFrom(s, i, acc).used == i + |EncodeUleb(w)|
    decreases w
  {
    hide Shift, UlebFrom;
    NextGroup(w, i);
    WeighRest(w, i);
    EncodeUlebHead(w, s[i..]);
    UlebStep(s, i, acc);
    if w >= 0x80 {
      assert s[i..][1..] == s[i + 1..];
      UlebRoundTripFrom(s, i + 1, w / 0x80, acc + Shift(s[i] % 0x80, 7 * i));
    }
  }

  /** Decoding the canonical encoding of any 64-bit value, whatever follows it, gives the
      value back and consumes exactly the encoding. */
  lemma UlebRoundTrip(v: uint64, rest: seq<byte>)
    ensures ReadUleb(EncodeUleb(v) + rest) == Uleb(v, |EncodeUleb(v)|)
  {
    ShiftTable(1);
    UlebRoundTripFrom(EncodeUleb(v) + rest, 0, v, 0);
  }

  // ------------------------------------------------------------------ signed

  /** The signed reader from its `i`-th byte on, with the pattern `acc` gathered so far. */
  function SlebFrom(s: seq<byte>, i: nat, acc: uint64): (r: Sleb)
    requires i <= |s|
    ensures r.Sleb? ==> i <= r.used <= |s|
    decreases |s| - i
  {
    if i == |s| then Sleb(0, i)
    else if 7 * i >= 64 then BadShift
    else
      var acc' := Or64(acc, Shl64(s[i] % 0x80, 7 * i));
      if s[i] >= 0x80 then SlebFrom(s, i + 1, acc') else Finish(acc', s[i], 7 * (i + 1), i + 1)
  }

  /** Sign extension by the last byte read. */
  function Finish(acc: uint64, last: byte, bit: nat, used: nat): (r: Sleb)
    ensures r.Sleb? ==> r.used == used
  {
    if last % 0x80 < 0x40 then Sleb(ToInt64(acc), used)
    else if bit >= 64 then BadShift
    else Sleb(ToInt64(Or64(acc, Shl64(U64 - 1, bit))), used)
  }

  /** The reader succeeds with this number after this many bytes. */
  predicate Reads(r: Sleb, value: int, used: nat) {
    r.Sleb? && r.value == value && r.used == used
  }

  function ReadSleb(s: seq<byte>): (r: Sleb)
    ensures r.Sleb? ==> r.used <= |s|
  {
    SlebFrom(s, 0, 0)
  }

  /** The signed reader; `defined` is false when the source would shift by 64 or more. */
  method ReadSleb128(mem: seq<byte>, p0: nat, end: nat) returns (result: int64, p: nat, defined: bool)
    requires p0 <= end <= |mem|
    ensures p0 <= p <= end
    ensures ReadSleb(mem[p0..end]) == if defined then Sleb(result, p - p0) else BadShift
  {
    hide Or64, Shl64, ToInt64;
    p, defined := p0, true;
    var acc: uint64, bit: nat := 0, 0;
    var byt: byte := 0x80;
    ghost var s := mem[p0..end];
    while byt >= 0x80
      invariant p0 <= p <= end
      invariant bit == 7 * (p - p0)
      invariant byt >= 0x80 ==> SlebFrom(s, p - p0, acc) == ReadSleb(s)
      invariant byt < 0x80 ==> ReadSleb(s) == Finish(acc, byt, bit, p - p0)
      decreases end - p, byt
    {
      if p == end {
        return 0, p, true;
      }
      byt := mem[p];
      p := p + 1;
      if bit >= 64 {
        return 0, p, false;
      }
      acc := Or64(acc, Shl64(byt % 0x80, bit));
      bit := bit + 7;
    }
    if byt >= 0x40 {
      if bit >= 64 {
        return 0, p, false;
      }
      acc := Or64(acc, Shl64(U64 - 1, bit));
    }
    result := ToInt64(acc);
  }

  /** The number that a terminated run of groups denotes: bit 6 of the last group is the sign. */
  function SignedSum(s: seq<byte>): int
    requires s != []
  {
    Extended(GroupSum(s), s[|s| - 1], |s|)
  }

  /** What `result |= (-1LL) << bit` does: it fills the pattern with ones from `bit` up. */
  lemma SignFill(acc: uint64, b: nat)
    requires b <= 63 && acc < Shift(1, b)
    ensures Or64(acc, Shl64(U64 - 1, b)) == acc + (U64 - Shift(1, b))
  {
    hide Shift, Shl64, Or;
    OnesShifted(b);
    ShiftTable(1);
    ShiftTwice(1, 64 - b, b);
    ShiftPositive(64 - b);
    var ones := Shift(1, 64 - b) - 1;
    ShiftAdd(ones, 1, b);
    OrDisjoint(acc, ones, b);
  }

  lemma PowerFits(b: nat)
    requires b <= 64
    ensures 0 < Shift(1, b) <= U64 && (b == 64 <==> Shift(1, b) == U64)
  {
    hide Shift;
    ShiftTable(1);
    ShiftTwice(1, b, 64 - b);
    ShiftSelf(Shift(1, b), 64 - b);
    ShiftPositive(b);
    if b < 64 {
      ShiftTwice(1, b, 63 - b);
      ShiftSelf(Shift(1, b), 63 - b);
    }
  }

  lemma {:induction false} OnesShifted(b: nat)
    requires b <= 64
    ensures Shift(1, b) <= U64
    ensures Shl64(U64 - 1, b) == if b == 64 then 0 else U64 - Shift(1, b)
  {
    if b == 0 {
      ShiftTable(1);
    } else {
      OnesShifted(b - 1);
      ShiftPositive(b - 1);
    }
    PowerFits(b);
  }

  /** The signed value of `n` groups that sum to `total` and end in the byte `last`. */
  function Extended(total: nat, last: byte, n: nat): int {
    if last % 0x80 < 0x40 then total else total - Shift(1, 7 * n)
  }

  lemma FinishShort(acc: uint64, last: byte, n: nat)
    requires n <= 9 && acc < Shift(1, 7 * n)
    ensures Reads(Finish(acc, last, 7 * n, n), Extended(acc, last, n), n)
  {
    HalfRange(7 * n);
    SignFill(acc, 7 * n);
  }

  /** A signed operand of at most nine bytes is read exactly. */
  lemma {:induction false} SlebShortFrom(s: seq<byte>, t: nat, i: nat, acc: uint64)
    requires Terminator(s, t) && i <= t <= 8 && acc < Shift(1, 7 * i)
    ensures Reads(SlebFrom(s, i, acc), Extended(acc + Shift(GroupSum(s[i..t + 1]), 7 * i), s[t], t + 1), t + 1)
    decreases t - i
  {
    var slice := s[i] % 0x80;
    AddGroup(acc, slice, i);
    WeighGroups(s, t, i);
    if i < t {
      SlebShortFrom(s, t, i + 1, acc + Shift(slice, 7 * i));
    } else {
      FinishShort(acc + Shift(slice, 7 * i), s[t], t + 1);
    }
  }

  lemma HalfRange(b: nat)
    requires b <= 63
    ensures Shift(1, b) <= 0x8000_0000_0000_0000
  {
    ShiftTable(1);
    ShiftTwice(1, b, 63 - b);
    ShiftPositive(63 - b);
    ShiftSelf(Shift(1, b), 63 - b);
  }

  lemma {:induction false} ShiftSelf(x: nat, n: nat)
    ensures x <= Shift(x, n)
  {
    if n != 0 {
      ShiftSelf(x, n - 1);
    }
  }

  /** A ten-byte operand keeps its low 64 bits when its sign bit is clear, and otherwise
      asks for a shift by 70. */
  lemma {:induction false} SlebTenFrom(s: seq<byte>, i: nat, acc: uint64)
    requires Terminator(s, 9) && i <= 9 && acc < Shift(1, 7 * i)
    ensures s[9] >= 0x40 ==> SlebFrom(s, i, acc) == BadShift
    ensures s[9] < 0x40 ==>
      SlebFrom(s, i, acc) == Sleb(ToInt64((acc + Shift(GroupSum(s[i..10]), 7 * i)) % U64), 10)
    decreases 9 - i
  {
    hide Shift, GroupSum, Or64, Shl64, ToInt64;
    WeighGroups(s, 9, i);
    if i < 9 {
      AddGroup(acc, s[i] % 0x80, i);
      SlebTenFrom(s, i + 1, acc + Shift(s[i] % 0x80, 7 * i));
    } else {
      SlebLast(s, i, acc);
    }
  }

  lemma SlebLast(s: seq<byte>, i: nat, acc: uint64)
    requires i == 9 && Terminator(s, i) && acc < Shift(1, 7 * i)
    ensures SlebFrom(s, i, acc) ==
      if s[i] < 0x40 then Sleb(ToInt64((acc + Shift(s[i], 7 * i)) % U64), i + 1) else BadShift
  {
    var slice := s[i];
    assert s[i] % 0x80 == slice;
    if slice < 0x40 {
      AddTopGroup(acc, slice);
    }
  }

  lemma AddTopGroup(acc: uint64, last: nat)
    requires last < 0x80 && acc < Shift(1, 63)
    ensures Or64(acc, Shl64(last, 63)) == (acc + Shift(last, 63)) % U64
  {
    TopGroup(last);
    OrDisjoint(acc, last % 2, 63);
    TopGroupValue(acc, last);
  }

  lemma TopGroupValue(acc: uint64, last: nat)
    requires acc < Shift(1, 63)
    ensures acc + Shift(last % 2, 63) == (acc + Shift(last, 63)) % U64
  {
    var q, b := last / 2, last % 2;
    assert last == 2 * q + b;
    ShiftTable(1);
    ShiftTable(last);
    ShiftTable(b);
    var x := acc + Shift(b, 63);
    assert acc + Shift(last, 63) == x + U64 * q;
    AddMultiple64(x, q);
  }

  /** Without a terminator among the first ten bytes the reader runs out of bytes or of bits. */
  lemma {:induction false} SlebUnterminatedFrom(s: seq<byte>, i: nat, acc: uint64)
    requires i <= |s| && i <= 10 && forall k :: 0 <= k < Min(10, |s|) ==> s[k] >= 0x80
    ensures SlebFrom(s, i, acc) == if |s| <= 10 then Sleb(0, |s|) else BadShift
    decreases 10 - i
  {
    if i < |s| && i < 10 {
      SlebUnterminatedFrom(s, i + 1, Or64(acc, Shl64(s[i] % 0x80, 7 * i)));
    }
  }

  /** For arbitrary bytes, everything the signed reader can do. */
  lemma SlebMeaning(s: seq<byte>)
    ensures forall t: nat :: Terminator(s, t) && t <= 8 ==> Reads(ReadSleb(s), SignedSum(s[..t + 1]), t + 1)
    ensures Terminator(s, 9) ==>
      ReadSleb(s) == if s[9] < 0x40 then Sleb(ToInt64(GroupSum(s[..10]) % U64), 10) else BadShift
    ensures (forall t: nat :: t <= 9 ==> !Terminator(s, t)) ==>
      ReadSleb(s) == if |s| <= 10 then Sleb(0, |s|) else BadShift
  {
    ShiftTable(1);
    forall t: nat | Terminator(s, t) && t <= 8
      ensures Reads(ReadSleb(s), SignedSum(s[..t + 1]), t + 1)
    {
      SlebShortFrom(s, t, 0, 0);
      assert s[0..t + 1] == s[..t + 1];
    }
    if Terminator(s, 9) {
      SlebTenFrom(s, 0, 0);
      assert s[0..10] == s[..10];
    }
    if forall t: nat :: t <= 9 ==> !Terminator(s, t) {
      NoTerminator(s, 0);
      SlebUnterminatedFrom(s, 0, 0);
    }
  }

  lemma {:induction false} NoTerminator(s: seq<byte>, i: nat)
    requires forall t: nat :: t <= 9 ==> !Terminator(s, t)
    requires i <= |s| && i <= 10 && forall k :: 0 <= k < i ==> s[k] >= 0x80
    ensures forall k :: 0 <= k < Min(10, |s|) ==> s[k] >= 0x80
    decreases 10 - i
  {
    if i < |s| && i < 10 {
      assert !Terminator(s, i);
      NoTerminator(s, i + 1);
    }
  }

  /** The canonical signed encoding. */
  function EncodeSleb(w: int): (s: seq<byte>)
    ensures |s| >= 1
    decreases if w < 0 then -w else w
  {
    if -0x40 <= w < 0x40 then [w % 0x80] else [w % 0x80 + 0x80] + EncodeSleb(w / 0x80)
  }

  /** The canonical encoding is one terminated run and denotes its number. */
  lemma {:induction false} EncodeSlebDenotes(w: int)
    ensures Terminator(EncodeSleb(w), |EncodeSleb(w)| - 1)
    ensures SignedSum(EncodeSleb(w)) == w
    decreases if w < 0 then -w else w
  {
    hide Terminator, SignedSum;
    if -0x40 <= w < 0x40 {
      assert EncodeSleb(w) == [w % 0x80];
      SingleGroup(w % 0x80);
    } else {
      var rest := EncodeSleb(w / 0x80);
      assert EncodeSleb(w) == [w % 0x80 + 0x80] + rest;
      EncodeSlebDenotes(w / 0x80);
      ExtendByGroup(w % 0x80 + 0x80, rest);
      assert w == w % 0x80 + 0x80 * (w / 0x80);
    }
  }

  lemma SingleGroup(low: byte)
    requires low < 0x80
    ensures Terminator([low], 0)
    ensures SignedSum([low]) == if low < 0x40 then low else low - 0x80
  {
    assert [low][1..] == [];
    assert GroupSum([low]) == low;
    assert |[low]| == 1;
    ShiftTable(1);
  }

  lemma ExtendByGroup(low: byte, rest: seq<byte>)
    requires low >= 0x80 && rest != []
    ensures SignedSum([low] + rest) == low % 0x80 + 0x80 * SignedSum(rest)
    ensures Terminator(rest, |rest| - 1) ==> Terminator([low] + rest, |rest|)
  {
    var s := [low] + rest;
    assert s[1..] == rest;
    assert s[|s| - 1] == rest[|rest| - 1];
    ShiftSeven(1, 7 * |rest|);
  }

  /** A number takes at most n bytes exactly when it lies in the signed range of 7n bits. */
  lemma {:induction false} EncodeSlebLength(w: int, n: nat)
    requires n >= 1
    ensures |EncodeSleb(w)| <= n <==> -(Shift(1, 7 * n - 1) as int) <= w < Shift(1, 7 * n - 1)
    decreases n
  {
    if n == 1 {
      assert Shift(1, 6) == 0x40;
    } else {
      ShiftSeven(1, 7 * n - 8);
      ShiftPositive(7 * n - 8);
      if -0x40 <= w < 0x40 {
        HalfOfSeven(n);
      } else {
        EncodeSlebLength(w / 0x80, n - 1);
      }
    }
  }

  lemma HalfOfSeven(n: nat)
    requires n >= 1
    ensures Shift(1, 7 * n - 1) >= 0x40
  {
    assert Shift(1, 6) == 0x40;
    ShiftTwice(1, 6, 7 * n - 7);
    ShiftSelf(0x40, 7 * n - 7);
  }

  lemma {:induction false} GroupSumBound(s: seq<byte>)
    ensures GroupSum(s) < Shift(1, 7 * |s|)
  {
    if s != [] {
      GroupSumBound(s[1..]);
      ShiftSeven(1, 7 * (|s| - 1));
    }
  }

  /** How long the encodings of 64-bit numbers are. */
  lemma EncodeSlebLengths(w: int)
    ensures |EncodeSleb(w)| <= 9 <==> -0x4000_0000_0000_0000 <= w < 0x4000_0000_0000_0000
    ensures -0x8000_0000_0000_0000 <= w < U64 ==> |EncodeSleb(w)| <= 10
  {
    EncodeSlebLength(w, 9);
    EncodeSlebLength(w, 10);
    ShiftTable(1);
    ShiftTwice(1, 64, 5);
    ShiftSelf(U64, 5);
  }

  /** The signed reader on a canonical encoding followed by anything, for every number that
      fits 64 bits in some reading: exact down to -2^62, undefined below. */
  lemma SlebDecodesEncoding(w: int, rest: seq<byte>)
    requires -0x8000_0000_0000_0000 <= w < U64
    ensures ReadSleb(EncodeSleb(w) + rest) ==
      if w < -0x4000_0000_0000_0000 then BadShift else Sleb(ToInt64(w % U64), |EncodeSleb(w)|)
  {
    EncodeSlebLengths(w);
    if |EncodeSleb(w)| <= 9 {
      DecodesShort(w, rest);
    } else {
      DecodesLong(w, rest);
    }
  }

  lemma EncodingIsPrefix(w: int, rest: seq<byte>)
    ensures (EncodeSleb(w) + rest)[..|EncodeSleb(w)|] == EncodeSleb(w)
    ensures Terminator(EncodeSleb(w) + rest, |EncodeSleb(w)| - 1)
    ensures SignedSum(EncodeSleb(w)) == w
  {
    EncodeSlebDenotes(w);
  }

  lemma DecodesShort(w: int, rest: seq<byte>)
    requires |EncodeSleb(w)| <= 9
    ensures Reads(ReadSleb(EncodeSleb(w) + rest), w, |EncodeSleb(w)|)
    ensures ReadSleb(EncodeSleb(w) + rest) == Sleb(ToInt64(w % U64), |EncodeSleb(w)|)
  {
    EncodingIsPrefix(w, rest);
    SlebMeaning(EncodeSleb(w) + rest);
    SignedWrap(w);
  }

  lemma DecodesLong(w: int, rest: seq<byte>)
    requires |EncodeSleb(w)| == 10
    ensures ReadSleb(EncodeSleb(w) + rest) == if w < 0 then BadShift else Sleb(ToInt64(w % U64), 10)
  {
    hide EncodeSleb, ReadSleb, GroupSum;
    EncodingIsPrefix(w, rest);
    SlebMeaning(EncodeSleb(w) + rest);
    GroupSumBound(EncodeSleb(w));
  }

  /** The law of the format, and exactly where the source meets it: a 64-bit number survives
      encoding and decoding if and only if it is at least -2^62. */
  lemma SlebRoundTrip(v: int64, rest: seq<byte>)
    ensures ReadSleb(EncodeSleb(v) + rest) == Sleb(v, |EncodeSleb(v)|) <==> v >= -0x4000_0000_0000_0000
  {
    SlebDecodesEncoding(v, rest);
    SignedWrap(v);
  }

  lemma SignedWrap(v: int64)
    ensures ToInt64(v % U64) == v
  {}
}
