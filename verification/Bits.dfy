/** Bitwise operators on integers read as two's complement words. The words are unbounded, so one
    definition serves every width: sign extension does not change the bits of a number, and InRange
    shows that the operators keep any range that holds both operands. A right shift is a floor division. */
module Bits {
  function Pow2(n: nat): (r: int)
    ensures r > 0
  {
    if n == 0 then 1 else 2 * Pow2(n - 1)
  }

  lemma {:induction false} Pow2Add(m: nat, n: nat)
    ensures Pow2(m) * Pow2(n) == Pow2(m + n)
  {
    if m > 0 { Pow2Add(m - 1, n); }
  }

  lemma Pow2Values()
    ensures Pow2(2) == 4 && Pow2(3) == 8 && Pow2(5) == 32 && Pow2(6) == 64 && Pow2(7) == 128 && Pow2(8) == 0x100
    ensures Pow2(23) == 0x80_0000 && Pow2(31) == 0x8000_0000
    ensures Pow2(25) == 0x200_0000 && Pow2(26) == 0x400_0000
  {
    assert Pow2(8) == 0x100;
    assert Pow2(16) == 0x1_0000;
    assert Pow2(20) == 0x10_0000;
    assert Pow2(24) == 0x100_0000;
    assert Pow2(28) == 0x1000_0000;
  }

  datatype Op = AND | OR | XOR

  function Apply(op: Op, x: bool, y: bool): bool {
    match op
    case AND => x && y
    case OR => x || y
    case XOR => x != y
  }

  function Abs(x: int): nat { if x < 0 then -x else x }

  /** Digit by digit, least significant first; the sign digits repeat for ever. */
  function Bitwise(op: Op, a: int, b: int): int
    decreases Abs(a) + Abs(b)
  {
    if -1 <= a <= 0 && -1 <= b <= 0 then
      (if Apply(op, a == -1, b == -1) then -1 else 0)
    else
      2 * Bitwise(op, a / 2, b / 2) + (if Apply(op, a % 2 == 1, b % 2 == 1) then 1 else 0)
  }

  function And(a: int, b: int): int { Bitwise(AND, a, b) }

  function Or(a: int, b: int): int { Bitwise(OR, a, b) }

  function Xor(a: int, b: int): int { Bitwise(XOR, a, b) }

  /** Bitwise is a homomorphism on every digit, sign positions included. */
  lemma Digit(op: Op, a: int, b: int)
    ensures Bitwise(op, a, b) / 2 == Bitwise(op, a / 2, b / 2)
    ensures (Bitwise(op, a, b) % 2 == 1) == Apply(op, a % 2 == 1, b % 2 == 1)
  {}

  lemma {:induction false} InRange(op: Op, a: int, b: int, n: nat)
    requires -Pow2(n) <= a < Pow2(n) && -Pow2(n) <= b < Pow2(n)
    ensures -Pow2(n) <= Bitwise(op, a, b) < Pow2(n)
    decreases n
  {
    if n > 0 && !(-1 <= a <= 0 && -1 <= b <= 0) {
      InRange(op, a / 2, b / 2, n - 1);
    }
  }

  /** Masking with the n low ones keeps the remainder modulo 2^n. */
  lemma {:induction false} AndLow(a: int, n: nat)
    ensures And(a, Pow2(n) - 1) == a % Pow2(n)
    decreases n
  {
    if n == 0 {
      AndZero(a);
    } else {
      Digit(AND, a, Pow2(n) - 1);
      OnesHalf(n);
      hide Pow2;
      AndLow(a / 2, n - 1);
      HalfMod(a, n);
    }
  }

  lemma OnesHalf(n: nat)
    requires n > 0
    ensures (Pow2(n) - 1) / 2 == Pow2(n - 1) - 1 && (Pow2(n) - 1) % 2 == 1
  {}

  lemma HalfMod(a: int, n: nat)
    requires n > 0
    ensures a % Pow2(n) == 2 * (a / 2 % Pow2(n - 1)) + a % 2
  {
    var m := Pow2(n - 1);
    var q, r := a / 2 / m, a / 2 % m;
    assert a == (2 * m) * q + (2 * r + a % 2);
    ModIs(a, 2 * m, q, 2 * r + a % 2);
  }

  lemma ModIs(a: int, m: int, q: int, r: int)
    requires 0 <= r < m && a == m * q + r
    ensures a % m == r && a / m == q
  {
    var d := a / m - q;
    assert m * d == r - a % m;
    assert d >= 1 ==> m * d >= m;
    assert d <= -1 ==> m * d <= -m;
  }

  lemma {:induction false} AndZero(a: int)
    ensures And(a, 0) == 0
    decreases Abs(a)
  {
    if !(-1 <= a <= 0) { AndZero(a / 2); }
  }

  /** Masking with all ones above the n low digits clears the remainder modulo 2^n. */
  lemma {:induction false} AndHigh(a: int, n: nat)
    ensures And(a, -Pow2(n)) == a - a % Pow2(n)
    decreases n
  {
    if n == 0 {
      AndOnes(a);
    } else {
      Digit(AND, a, -Pow2(n));
      AndHigh(a / 2, n - 1);
      HalfMod(a, n);
    }
  }

  lemma {:induction false} AndOnes(a: int)
    ensures And(a, -1) == a
    decreases Abs(a)
  {
    if !(-1 <= a <= 0) { AndOnes(a / 2); }
  }

  /** When the n low digits of one operand are zero, the operator works on the high parts alone. */
  lemma {:induction false} HighPart(op: Op, a: int, b: int, c: int, n: nat)
    requires 0 <= a < Pow2(n)
    ensures Bitwise(op, a + Pow2(n) * b, Pow2(n) * c) == Pow2(n) * Bitwise(op, b, c) + (if op == AND then 0 else a)
    decreases n
  {
    hide Bitwise;
    if n > 0 {
      var m, d := Pow2(n - 1), Bitwise(op, b, c);
      var mb, mc, md := m * b, m * c, m * d;
      Doubling(m, b);
      Doubling(m, c);
      Doubling(m, d);
      var x, y := a / 2 + mb, mc;
      Digit(op, 2 * x + a % 2, 2 * y);
      HighPart(op, a / 2, b, c, n - 1);
    }
  }

  lemma Doubling(m: int, b: int)
    ensures (2 * m) * b == 2 * (m * b)
  {}

  /** Numbers without a common digit one: the union is the sum. */
  lemma OrDisjoint(a: int, b: int, n: nat)
    requires 0 <= a < Pow2(n)
    ensures Or(a, Pow2(n) * b) == a + Pow2(n) * b
  {
    HighPart(OR, a, 0, b, n);
    OrZero(b);
  }

  lemma {:induction false} OrZero(b: int)
    ensures Or(0, b) == b
    decreases Abs(b)
  {
    if !(-1 <= b <= 0) { OrZero(b / 2); }
  }

  /** The exclusive-or swap: x ^ (x ^ y) is y. */
  lemma {:induction false} XorCancel(x: int, y: int)
    ensures Xor(x, Xor(x, y)) == y
    ensures Xor(y, Xor(x, y)) == x
    decreases Abs(x) + Abs(y)
  {
    var d := Xor(x, y);
    Digit(XOR, x, y);
    Digit(XOR, x, d);
    Digit(XOR, y, d);
    if !(-1 <= x <= 0 && -1 <= y <= 0) {
      XorCancel(x / 2, y / 2);
    }
  }

  lemma {:induction false} XorZero(x: int)
    ensures Xor(x, 0) == x
    decreases Abs(x)
  {
    if !(-1 <= x <= 0) { XorZero(x / 2); }
  }

  lemma {:induction false} OrIsZero(a: int, b: int)
    requires 0 <= a && 0 <= b
    ensures Or(a, b) == 0 <==> a == 0 && b == 0
    ensures Or(a, b) >= 0
    decreases a + b
  {
    if a != 0 || b != 0 {
      Digit(OR, a, b);
      OrIsZero(a / 2, b / 2);
    }
  }

  lemma {:induction false} XorIsZero(a: int, b: int)
    ensures Xor(a, b) == 0 <==> a == b
    decreases Abs(a) + Abs(b)
  {
    if !(-1 <= a <= 0 && -1 <= b <= 0) {
      Digit(XOR, a, b);
      XorIsZero(a / 2, b / 2);
    }
  }
}
