/** Machine words of the 32-bit build, written out over the unbounded integers. */
module Words {

  const U32: nat := 0x1_0000_0000
  const U64: nat := 0x1_0000_0000_0000_0000

  type byte = x: int | 0 <= x < 0x100
  type nibble = x: int | 0 <= x < 0x10
  type uint32 = x: int | 0 <= x < 0x1_0000_0000
  type uint64 = x: int | 0 <= x < 0x1_0000_0000_0000_0000
  type int32 = x: int | -0x8000_0000 <= x < 0x8000_0000
  type int64 = x: int | -0x8000_0000_0000_0000 <= x < 0x8000_0000_0000_0000

  datatype Option<+T> = None | Some(value: T)

  /** Two's complement reading of a 64-bit pattern. */
  function ToInt64(x: uint64): int64 {
    if x < 0x8000_0000_0000_0000 then x else x - U64
  }

  /** Conversion of a 64-bit pattern to `int`: the low 32 bits, read as two's complement. */
  function ToInt32(x: uint64): int32 {
    var low := x % U32;
    if low < 0x8000_0000 then low else low - U32
  }

  function Min(a: nat, b: nat): nat {
    if a <= b then a else b
  }

  // ------------------------------------------------------------------ shifts

  /** x * 2^n, by doubling. */
  function Shift(x: nat, n: nat): nat {
    if n == 0 then x else 2 * Shift(x, n - 1)
  }

  /** `x << n` in a 64-bit register: `n` doublings, each dropping the carry. */
  function Shl64(x: uint64, n: nat): uint64 {
    if n == 0 then x else 2 * Shl64(x, n - 1) % U64
  }

  /** `x >> n` of an unsigned 64-bit register. */
  function Shr64(x: uint64, n: nat): uint64 {
    if n == 0 then x else Shr64(x / 2, n - 1)
  }

  lemma {:induction false} ShiftAdd(a: nat, b: nat, n: nat)
    ensures Shift(a + b, n) == Shift(a, n) + Shift(b, n)
  {
    if n != 0 {
      ShiftAdd(a, b, n - 1);
    }
  }

  lemma {:induction false} ShiftTwice(x: nat, a: nat, b: nat)
    ensures Shift(Shift(x, a), b) == Shift(x, a + b)
  {
    if b != 0 {
      ShiftTwice(x, a, b - 1);
    }
  }

  lemma ShiftLess(a: nat, b: nat, n: nat)
    requires a < b
    ensures Shift(a, n) + Shift(1, n) <= Shift(b, n)
  {}

  lemma {:induction false} ShiftPositive(n: nat)
    ensures Shift(1, n) >= 1
  {
    if n != 0 {
      ShiftPositive(n - 1);
    }
  }

  lemma ShiftSeven(x: nat, n: nat)
    ensures Shift(x, n + 7) == 0x80 * Shift(x, n)
  {
    var y := Shift(x, n);
    assert Shift(x, n + 2) == 4 * y;
    assert Shift(x, n + 4) == 16 * y;
    assert Shift(x, n + 6) == 64 * y;
  }

  lemma ShiftTable(x: nat)
    ensures Shift(x, 0) == x && Shift(x, 7) == 0x80 * x
    ensures Shift(x, 56) == 0x100_0000_0000_0000 * x
    ensures Shift(x, 62) == 0x4000_0000_0000_0000 * x
    ensures Shift(x, 63) == 0x8000_0000_0000_0000 * x
    ensures Shift(x, 64) == U64 * x
  {
    ShiftSeven(x, 0);
    ShiftSeven(x, 7);
    ShiftSeven(x, 14);
    ShiftSeven(x, 21);
    ShiftSeven(x, 28);
    ShiftSeven(x, 35);
    ShiftSeven(x, 42);
    ShiftSeven(x, 49);
    assert Shift(x, 58) == 4 * Shift(x, 56);
    assert Shift(x, 60) == 4 * Shift(x, 58);
  }

  lemma AddMultiple64(x: int, q: int)
    ensures (x + U64 * q) % U64 == x % U64
  {}

  lemma DoubleMod(a: nat)
    ensures 2 * (a % U64) % U64 == 2 * a % U64
  {
    var q, r := a / U64, a % U64;
    assert a == U64 * q + r;
    if 2 * r < U64 {
      AddMultiple64(2 * r, 2 * q);
    } else {
      AddMultiple64(2 * r - U64, 2 * q + 1);
      AddMultiple64(2 * r - U64, 1);
    }
  }

  lemma {:induction false} Shl64Value(x: uint64, n: nat)
    ensures Shl64(x, n) == Shift(x, n) % U64
  {
    if n != 0 {
      Shl64Value(x, n - 1);
      DoubleMod(Shift(x, n - 1));
    }
  }

  lemma {:induction false} Shr64Undoes(x: nat, n: nat)
    requires Shift(x, n) < U64
    ensures x < U64 && Shr64(Shift(x, n), n) == x
  {
    if n != 0 {
      Shr64Undoes(x, n - 1);
    }
  }

  // ------------------------------------------------------------- bitwise or

  /** Bitwise or of two non-negative integers. */
  function Or(a: nat, b: nat): nat {
    if a == 0 && b == 0 then 0
    else (if a % 2 == 1 || b % 2 == 1 then 1 else 0) + 2 * Or(a / 2, b / 2)
  }

  lemma {:induction false} OrBound(a: nat, b: nat, k: nat)
    requires a < Shift(1, k) && b < Shift(1, k)
    ensures Or(a, b) < Shift(1, k)
  {
    if k != 0 {
      OrBound(a / 2, b / 2, k - 1);
    }
  }

  /** Bitwise or of two 64-bit patterns. */
  function Or64(a: uint64, b: uint64): uint64 {
    ShiftTable(1);
    OrBound(a, b, 64);
    Or(a, b)
  }

  lemma {:induction false} OrZero(b: nat)
    ensures Or(0, b) == b
  {
    if b != 0 {
      OrZero(b / 2);
    }
  }

  /** Or of a number below 2^k with a multiple of 2^k adds them. */
  lemma {:induction false} OrDisjoint(a: nat, m: nat, k: nat)
    requires a < Shift(1, k)
    ensures Or(a, Shift(m, k)) == a + Shift(m, k)
  {
    if k == 0 {
      OrZero(m);
    } else {
      OrDisjoint(a / 2, m, k - 1);
    }
  }
}
