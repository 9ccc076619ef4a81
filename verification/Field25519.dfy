/** Ten-limb representation of the field elements of Curve25519 (fw/common/curve25519.c) and the
    meaning of its multiplication, carries and canonical form, on unbounded integers. */
module Field25519 {
  import opened Rfc7748

  /** Limb i has weight 2^ceil(25.5 i): 1, 2^26, 2^51, 2^77, ..., 2^230. */
  datatype Limbs = Limbs(h0: int, h1: int, h2: int, h3: int, h4: int, h5: int, h6: int, h7: int, h8: int, h9: int)

  type Index = i: int | 0 <= i < 10

  function Value(l: Limbs): int {
    l.h0 + l.h1 * 0x400_0000 + l.h2 * 0x8_0000_0000_0000 + l.h3 * 0x2000_0000_0000_0000_0000
    + l.h4 * 0x40_0000_0000_0000_0000_0000_0000
    + l.h5 * 0x1_0000_0000_0000_0000_0000_0000_0000_0000
    + l.h6 * 0x200_0000_0000_0000_0000_0000_0000_0000_0000_0000
    + l.h7 * 0x8_0000_0000_0000_0000_0000_0000_0000_0000_0000_0000_0000
    + l.h8 * 0x1000_0000_0000_0000_0000_0000_0000_0000_0000_0000_0000_0000_0000
    + l.h9 * 0x40_0000_0000_0000_0000_0000_0000_0000_0000_0000_0000_0000_0000_0000_0000
  }

  /** The field element that the limbs stand for. */
  function Elem(l: Limbs): int { Value(l) % P }

  /** Even limbs are at most e in absolute value, odd limbs at most o. */
  predicate Within(l: Limbs, e: int, o: int) {
    && -e <= l.h0 <= e && -o <= l.h1 <= o && -e <= l.h2 <= e && -o <= l.h3 <= o && -e <= l.h4 <= e
    && -o <= l.h5 <= o && -e <= l.h6 <= e && -o <= l.h7 <= o && -e <= l.h8 <= e && -o <= l.h9 <= o
  }

  /** 1.01 * 2^25 and 1.01 * 2^24: what a multiplication returns. */
  predicate Tight(l: Limbs) { Within(l, 33889976, 16944988) }

  /** 1.1 * 2^25 and 1.1 * 2^24: what an addition accepts. */
  predicate Addable(l: Limbs) { Within(l, 36909875, 18454937) }

  /** 1.1 * 2^26 and 1.1 * 2^25: what an addition returns. */
  predicate Loose(l: Limbs) { Within(l, 73819750, 36909875) }

  /** 1.65 * 2^26 and 1.65 * 2^25: what a multiplication accepts. */
  predicate Mulable(l: Limbs) { Within(l, 110729625, 55364812) }

  // ---- Congruence modulo the prime ----

  lemma ModUnique(a: int, b: int, k: int)
    requires a == b + k * P
    ensures a % P == b % P
  {
    assert a % P - b % P == (b / P - a / P + k) * P;
  }

  lemma ModMul(a: int, b: int)
    ensures Mul(a % P, b % P) == (a * b) % P
  {
    var qa, qb := a / P, b / P;
    var ra, rb := a % P, b % P;
    assert a * b == ra * rb + (qa * rb + ra * qb + qa * P * qb) * P;
    ModUnique(a * b, ra * rb, qa * rb + ra * qb + qa * P * qb);
  }

  lemma ModAdd(a: int, b: int)
    ensures Add(a % P, b % P) == (a + b) % P
    ensures Sub(a % P, b % P) == (a - b) % P
  {
    var qa, qb := a / P, b / P;
    assert a + b == a % P + b % P + (qa + qb) * P;
    ModUnique(a + b, a % P + b % P, qa + qb);
    assert a - b == a % P - b % P + (qa - qb) * P;
    ModUnique(a - b, a % P - b % P, qa - qb);
  }

  // ---- Schoolbook multiplication ----

  function Plus(l: Limbs, m: Limbs): Limbs {
    Limbs(l.h0 + m.h0, l.h1 + m.h1, l.h2 + m.h2, l.h3 + m.h3, l.h4 + m.h4,
          l.h5 + m.h5, l.h6 + m.h6, l.h7 + m.h7, l.h8 + m.h8, l.h9 + m.h9)
  }

  function Times(x: int, m: Limbs): Limbs {
    Limbs(x * m.h0, x * m.h1, x * m.h2, x * m.h3, x * m.h4, x * m.h5, x * m.h6, x * m.h7, x * m.h8, x * m.h9)
  }

  /** Multiplication by 2^51: two limbs up. */
  function Up2(m: Limbs): Limbs {
    Limbs(19 * m.h8, 19 * m.h9, m.h0, m.h1, m.h2, m.h3, m.h4, m.h5, m.h6, m.h7)
  }

  /** s + 2^26 t. One limb up, an odd limb is doubled, because two odd weights multiply to twice
      a weight, and 2^255 wraps to 19. */
  function Pair(s: Limbs, t: Limbs): Limbs {
    Limbs(s.h0 + 38 * t.h9, s.h1 + t.h0, s.h2 + 2 * t.h1, s.h3 + t.h2, s.h4 + 2 * t.h3,
          s.h5 + t.h4, s.h6 + 2 * t.h5, s.h7 + t.h6, s.h8 + 2 * t.h7, s.h9 + t.h8)
  }

  /** t0 + 2^26 t1 + 2^51 t2 + ... + 2^230 t9, by Horner's rule over pairs. */
  function Combine(t0: Limbs, t1: Limbs, t2: Limbs, t3: Limbs, t4: Limbs,
                   t5: Limbs, t6: Limbs, t7: Limbs, t8: Limbs, t9: Limbs): Limbs {
    Plus(Pair(t0, t1), Up2(Plus(Pair(t2, t3), Up2(Plus(Pair(t4, t5), Up2(Plus(Pair(t6, t7), Up2(Pair(t8, t9)))))))))
  }

  /** Column k of the schoolbook product. */
  function Column(k: Index, f: Limbs, g: Limbs): int {
    match k
    case 0 => ((f.h0 * g.h0) + 38 * (f.h1 * g.h9) + 19 * (f.h2 * g.h8) + 38 * (f.h3 * g.h7) + 19 * (f.h4 * g.h6)
      + 38 * (f.h5 * g.h5) + 19 * (f.h6 * g.h4) + 38 * (f.h7 * g.h3) + 19 * (f.h8 * g.h2) + 38 * (f.h9 * g.h1))
    case 1 => ((f.h0 * g.h1) + (f.h1 * g.h0) + 19 * (f.h2 * g.h9) + 19 * (f.h3 * g.h8) + 19 * (f.h4 * g.h7)
      + 19 * (f.h5 * g.h6) + 19 * (f.h6 * g.h5) + 19 * (f.h7 * g.h4) + 19 * (f.h8 * g.h3) + 19 * (f.h9 * g.h2))
    case 2 => ((f.h0 * g.h2) + 2 * (f.h1 * g.h1) + (f.h2 * g.h0) + 38 * (f.h3 * g.h9) + 19 * (f.h4 * g.h8)
      + 38 * (f.h5 * g.h7) + 19 * (f.h6 * g.h6) + 38 * (f.h7 * g.h5) + 19 * (f.h8 * g.h4) + 38 * (f.h9 * g.h3))
    case 3 => ((f.h0 * g.h3) + (f.h1 * g.h2) + (f.h2 * g.h1) + (f.h3 * g.h0) + 19 * (f.h4 * g.h9)
      + 19 * (f.h5 * g.h8) + 19 * (f.h6 * g.h7) + 19 * (f.h7 * g.h6) + 19 * (f.h8 * g.h5) + 19 * (f.h9 * g.h4))
    case 4 => ((f.h0 * g.h4) + 2 * (f.h1 * g.h3) + (f.h2 * g.h2) + 2 * (f.h3 * g.h1) + (f.h4 * g.h0)
      + 38 * (f.h5 * g.h9) + 19 * (f.h6 * g.h8) + 38 * (f.h7 * g.h7) + 19 * (f.h8 * g.h6) + 38 * (f.h9 * g.h5))
    case 5 => ((f.h0 * g.h5) + (f.h1 * g.h4) + (f.h2 * g.h3) + (f.h3 * g.h2) + (f.h4 * g.h1)
      + (f.h5 * g.h0) + 19 * (f.h6 * g.h9) + 19 * (f.h7 * g.h8) + 19 * (f.h8 * g.h7) + 19 * (f.h9 * g.h6))
    case 6 => ((f.h0 * g.h6) + 2 * (f.h1 * g.h5) + (f.h2 * g.h4) + 2 * (f.h3 * g.h3) + (f.h4 * g.h2)
      + 2 * (f.h5 * g.h1) + (f.h6 * g.h0) + 38 * (f.h7 * g.h9) + 19 * (f.h8 * g.h8) + 38 * (f.h9 * g.h7))
    case 7 => ((f.h0 * g.h7) + (f.h1 * g.h6) + (f.h2 * g.h5) + (f.h3 * g.h4) + (f.h4 * g.h3)
      + (f.h5 * g.h2) + (f.h6 * g.h1) + (f.h7 * g.h0) + 19 * (f.h8 * g.h9) + 19 * (f.h9 * g.h8))
    case 8 => ((f.h0 * g.h8) + 2 * (f.h1 * g.h7) + (f.h2 * g.h6) + 2 * (f.h3 * g.h5) + (f.h4 * g.h4)
      + 2 * (f.h5 * g.h3) + (f.h6 * g.h2) + 2 * (f.h7 * g.h1) + (f.h8 * g.h0) + 38 * (f.h9 * g.h9))
    case 9 => ((f.h0 * g.h9) + (f.h1 * g.h8) + (f.h2 * g.h7) + (f.h3 * g.h6) + (f.h4 * g.h5)
      + (f.h5 * g.h4) + (f.h6 * g.h3) + (f.h7 * g.h2) + (f.h8 * g.h1) + (f.h9 * g.h0))
  }

  function Product(f: Limbs, g: Limbs): Limbs {
    Limbs(Column(0, f, g), Column(1, f, g), Column(2, f, g), Column(3, f, g), Column(4, f, g),
          Column(5, f, g), Column(6, f, g), Column(7, f, g), Column(8, f, g), Column(9, f, g))
  }

  lemma CombineColumns(t0: Limbs, t1: Limbs, t2: Limbs, t3: Limbs, t4: Limbs,
                       t5: Limbs, t6: Limbs, t7: Limbs, t8: Limbs, t9: Limbs)
    ensures Combine(t0, t1, t2, t3, t4, t5, t6, t7, t8, t9) == Limbs(
        t0.h0 + 38 * t1.h9 + 19 * t2.h8 + 38 * t3.h7 + 19 * t4.h6 + 38 * t5.h5 + 19 * t6.h4 + 38 * t7.h3 + 19 * t8.h2
          + 38 * t9.h1,
        t0.h1 + t1.h0 + 19 * t2.h9 + 19 * t3.h8 + 19 * t4.h7 + 19 * t5.h6 + 19 * t6.h5 + 19 * t7.h4 + 19 * t8.h3
          + 19 * t9.h2,
        t0.h2 + 2 * t1.h1 + t2.h0 + 38 * t3.h9 + 19 * t4.h8 + 38 * t5.h7 + 19 * t6.h6 + 38 * t7.h5 + 19 * t8.h4
          + 38 * t9.h3,
        t0.h3 + t1.h2 + t2.h1 + t3.h0 + 19 * t4.h9 + 19 * t5.h8 + 19 * t6.h7 + 19 * t7.h6 + 19 * t8.h5 + 19 * t9.h4,
        t0.h4 + 2 * t1.h3 + t2.h2 + 2 * t3.h1 + t4.h0 + 38 * t5.h9 + 19 * t6.h8 + 38 * t7.h7 + 19 * t8.h6 + 38 * t9.h5,
        t0.h5 + t1.h4 + t2.h3 + t3.h2 + t4.h1 + t5.h0 + 19 * t6.h9 + 19 * t7.h8 + 19 * t8.h7 + 19 * t9.h6,
        t0.h6 + 2 * t1.h5 + t2.h4 + 2 * t3.h3 + t4.h2 + 2 * t5.h1 + t6.h0 + 38 * t7.h9 + 19 * t8.h8 + 38 * t9.h7,
        t0.h7 + t1.h6 + t2.h5 + t3.h4 + t4.h3 + t5.h2 + t6.h1 + t7.h0 + 19 * t8.h9 + 19 * t9.h8,
        t0.h8 + 2 * t1.h7 + t2.h6 + 2 * t3.h5 + t4.h4 + 2 * t5.h3 + t6.h2 + 2 * t7.h1 + t8.h0 + 38 * t9.h9,
        t0.h9 + t1.h8 + t2.h7 + t3.h6 + t4.h5 + t5.h4 + t6.h3 + t7.h2 + t8.h1 + t9.h0)
  {}

  lemma ProductRows(f: Limbs, g: Limbs)
    ensures Product(f, g) == Combine(Times(f.h0, g), Times(f.h1, g), Times(f.h2, g), Times(f.h3, g), Times(f.h4, g),
                                     Times(f.h5, g), Times(f.h6, g), Times(f.h7, g), Times(f.h8, g), Times(f.h9, g))
  {
    hide Combine;
    CombineColumns(Times(f.h0, g), Times(f.h1, g), Times(f.h2, g), Times(f.h3, g), Times(f.h4, g),
                   Times(f.h5, g), Times(f.h6, g), Times(f.h7, g), Times(f.h8, g), Times(f.h9, g));
  }

  lemma PlusValue(l: Limbs, m: Limbs)
    ensures Value(Plus(l, m)) == Value(l) + Value(m)
    ensures Value(Up2(m)) == 0x8_0000_0000_0000 * Value(m) - P * (m.h8 + 0x400_0000 * m.h9)
  {}

  function PairValue(a: int, b: int): int { a + b * 0x400_0000 }

  lemma Scale(x: int, g: Limbs)
    ensures x * Value(g) == Value(Times(x, g))
  {}

  lemma PairElem(a: int, b: int, g: Limbs)
    ensures Value(Pair(Times(a, g), Times(b, g))) == PairValue(a, b) * Value(g) - P * (2 * (b * g.h9))
  {
    var v := Value(g);
    Scale(a, g);
    Scale(b, g);
    PairShift(Times(a, g), Times(b, g));
    assert PairValue(a, b) * v == a * v + 0x400_0000 * (b * v);
  }

  lemma PairShift(s: Limbs, t: Limbs)
    ensures Value(Pair(s, t)) == Value(s) + 0x400_0000 * Value(t) - P * (2 * t.h9)
  {}

  /** One Horner step: if rest stands for hi * g, the step stands for (a + 2^26 b + 2^51 hi) * g. */
  lemma HornerStep(a: int, b: int, g: Limbs, rest: Limbs, hi: int)
    requires Elem(rest) == (hi * Value(g)) % P
    ensures Elem(Plus(Pair(Times(a, g), Times(b, g)), Up2(rest))) ==
      ((PairValue(a, b) + 0x8_0000_0000_0000 * hi) * Value(g)) % P
  {
    hide Value, PairValue, Pair, Up2;
    PairElem(a, b, g);
    PlusValue(Pair(Times(a, g), Times(b, g)), Up2(rest));
    PlusValue(rest, rest);
    HornerArithmetic(PairValue(a, b), hi, Value(g), Value(rest), 2 * (b * g.h9), rest.h8 + 0x400_0000 * rest.h9);
  }

  lemma HornerArithmetic(p: int, hi: int, v: int, r: int, t: int, u: int)
    requires r % P == (hi * v) % P
    ensures (p * v - P * t + (0x8_0000_0000_0000 * r - P * u)) % P == ((p + 0x8_0000_0000_0000 * hi) * v) % P
  {
    var x := hi * v;
    var k := r / P - x / P;
    assert r == x + k * P;
    assert (p + 0x8_0000_0000_0000 * hi) * v == p * v + 0x8_0000_0000_0000 * x;
    ModUnique(p * v - P * t + (0x8_0000_0000_0000 * r - P * u), p * v + 0x8_0000_0000_0000 * x,
              0x8_0000_0000_0000 * k - t - u);
  }

  /** Schoolbook multiplication of limb vectors is multiplication of field elements. */
  lemma ProductElem(f: Limbs, g: Limbs)
    ensures Elem(Product(f, g)) == Mul(Elem(f), Elem(g))
  {
    hide Product;
    HornerValue(f);
    var v8 := PairValue(f.h8, f.h9);
    var v6 := PairValue(f.h6, f.h7) + 0x8_0000_0000_0000 * v8;
    var v4 := PairValue(f.h4, f.h5) + 0x8_0000_0000_0000 * v6;
    var v2 := PairValue(f.h2, f.h3) + 0x8_0000_0000_0000 * v4;
    ProductHorner(f, g, v8, v6, v4, v2);
    ModMul(Value(f), Value(g));
  }

  lemma HornerValue(f: Limbs)
    ensures Value(f) == PairValue(f.h0, f.h1) + 0x8_0000_0000_0000 * (PairValue(f.h2, f.h3)
                        + 0x8_0000_0000_0000 * (PairValue(f.h4, f.h5)
                        + 0x8_0000_0000_0000 * (PairValue(f.h6, f.h7)
                        + 0x8_0000_0000_0000 * PairValue(f.h8, f.h9))))
  {}

  lemma ProductHorner(f: Limbs, g: Limbs, v8: int, v6: int, v4: int, v2: int)
    requires v8 == PairValue(f.h8, f.h9)
    requires v6 == PairValue(f.h6, f.h7) + 0x8_0000_0000_0000 * v8
    requires v4 == PairValue(f.h4, f.h5) + 0x8_0000_0000_0000 * v6
    requires v2 == PairValue(f.h2, f.h3) + 0x8_0000_0000_0000 * v4
    ensures Elem(Product(f, g)) == ((PairValue(f.h0, f.h1) + 0x8_0000_0000_0000 * v2) * Value(g)) % P
  {
    hide Value, PairValue, Pair, Up2, Plus, Times, Product;
    ProductRows(f, g);
    var r8 := Pair(Times(f.h8, g), Times(f.h9, g));
    PairElem(f.h8, f.h9, g);
    ModUnique(Value(r8), v8 * Value(g), -2 * (f.h9 * g.h9));
    var r6 := Plus(Pair(Times(f.h6, g), Times(f.h7, g)), Up2(r8));
    HornerStep(f.h6, f.h7, g, r8, v8);
    var r4 := Plus(Pair(Times(f.h4, g), Times(f.h5, g)), Up2(r6));
    HornerStep(f.h4, f.h5, g, r6, v6);
    var r2 := Plus(Pair(Times(f.h2, g), Times(f.h3, g)), Up2(r4));
    HornerStep(f.h2, f.h3, g, r4, v4);
    HornerStep(f.h0, f.h1, g, r2, v2);
  }

  // ---- Carries ----

  /** Nearest integer to x / 2^26, as computed by (x + 2^25) >> 26. */
  function Round26(x: int): int { (x + 0x200_0000) / 0x400_0000 }

  /** Nearest integer to x / 2^25, as computed by (x + 2^24) >> 25. */
  function Round25(x: int): int { (x + 0x100_0000) / 0x200_0000 }

  /** Moves the rounded excess of limb i to limb i+1; from limb 9 it wraps to limb 0 times 19. */
  function Carry(i: Index, l: Limbs): Limbs {
    match i
    case 0 => l.(h0 := l.h0 - 0x400_0000 * Round26(l.h0), h1 := l.h1 + Round26(l.h0))
    case 1 => l.(h1 := l.h1 - 0x200_0000 * Round25(l.h1), h2 := l.h2 + Round25(l.h1))
    case 2 => l.(h2 := l.h2 - 0x400_0000 * Round26(l.h2), h3 := l.h3 + Round26(l.h2))
    case 3 => l.(h3 := l.h3 - 0x200_0000 * Round25(l.h3), h4 := l.h4 + Round25(l.h3))
    case 4 => l.(h4 := l.h4 - 0x400_0000 * Round26(l.h4), h5 := l.h5 + Round26(l.h4))
    case 5 => l.(h5 := l.h5 - 0x200_0000 * Round25(l.h5), h6 := l.h6 + Round25(l.h5))
    case 6 => l.(h6 := l.h6 - 0x400_0000 * Round26(l.h6), h7 := l.h7 + Round26(l.h6))
    case 7 => l.(h7 := l.h7 - 0x200_0000 * Round25(l.h7), h8 := l.h8 + Round25(l.h7))
    case 8 => l.(h8 := l.h8 - 0x400_0000 * Round26(l.h8), h9 := l.h9 + Round26(l.h8))
    case 9 => l.(h9 := l.h9 - 0x200_0000 * Round25(l.h9), h0 := l.h0 + 19 * Round25(l.h9))
  }

  lemma CarryElem(i: Index, l: Limbs)
    ensures Elem(Carry(i, l)) == Elem(l)
  {
    hide Round25, Round26;
    match i
    case 0 => case 1 => case 2 => case 3 => case 4 => case 5 => case 6 => case 7 => case 8 =>
    case 9 =>
      assert Value(Carry(9, l)) == Value(l) - P * Round25(l.h9);
      ModUnique(Value(Carry(9, l)), Value(l), -Round25(l.h9));
  }

  /** The first eight of the twelve carries that end a multiplication: two interleaved chains. */
  function ReducedOnce(l: Limbs): Limbs {
    Carry(7, Carry(3, Carry(6, Carry(2, Carry(5, Carry(1, Carry(4, Carry(0, l))))))))
  }

  /** All twelve. */
  function Reduced(l: Limbs): Limbs {
    Carry(0, Carry(9, Carry(8, Carry(4, ReducedOnce(l)))))
  }

  /** The carries of fe_frombytes and fe_mul121666: odd limbs from the top, then even limbs. */
  function ReducedSmall(l: Limbs): Limbs {
    Carry(8, Carry(6, Carry(4, Carry(2, Carry(0, Carry(7, Carry(5, Carry(3, Carry(1, Carry(9, l))))))))))
  }

  lemma TwoCarries(i: Index, j: Index, l: Limbs)
    ensures Elem(Carry(j, Carry(i, l))) == Elem(l)
  {
    hide Carry, Elem;
    CarryElem(i, l);
    CarryElem(j, Carry(i, l));
  }

  /** The carry chains do not change the field element. */
  lemma ReducedElem(l: Limbs)
    ensures Elem(Reduced(l)) == Elem(l) == Elem(ReducedSmall(l))
  {
    hide Carry, Elem;
    var a := Carry(4, Carry(0, l));
    var b := Carry(5, Carry(1, a));
    var c := Carry(6, Carry(2, b));
    var d := Carry(7, Carry(3, c));
    var e := Carry(8, Carry(4, d));
    TwoCarries(0, 4, l);
    TwoCarries(1, 5, a);
    TwoCarries(2, 6, b);
    TwoCarries(3, 7, c);
    TwoCarries(4, 8, d);
    TwoCarries(9, 0, e);
    var f := Carry(1, Carry(9, l));
    var g := Carry(5, Carry(3, f));
    var h := Carry(0, Carry(7, g));
    var i := Carry(4, Carry(2, h));
    TwoCarries(9, 1, l);
    TwoCarries(3, 5, f);
    TwoCarries(7, 0, g);
    TwoCarries(2, 4, h);
    TwoCarries(6, 8, i);
  }

  function Minus(l: Limbs, m: Limbs): Limbs {
    Limbs(l.h0 - m.h0, l.h1 - m.h1, l.h2 - m.h2, l.h3 - m.h3, l.h4 - m.h4,
          l.h5 - m.h5, l.h6 - m.h6, l.h7 - m.h7, l.h8 - m.h8, l.h9 - m.h9)
  }

  lemma MinusValue(l: Limbs, m: Limbs)
    ensures Value(Minus(l, m)) == Value(l) - Value(m)
  {}

  lemma SumElem(l: Limbs, m: Limbs)
    ensures Elem(Plus(l, m)) == Add(Elem(l), Elem(m))
    ensures Elem(Minus(l, m)) == Sub(Elem(l), Elem(m))
  {
    hide Value, Plus, Minus;
    PlusValue(l, m);
    MinusValue(l, m);
    ModAdd(Value(l), Value(m));
  }

  lemma SmallMod(x: int)
    requires 0 <= x < P
    ensures x % P == x
  {}

  lemma TimesElem(x: int, l: Limbs)
    requires 0 <= x < P
    ensures Elem(Times(x, l)) == Mul(x, Elem(l))
  {
    hide Value, Times;
    Scale(x, l);
    SmallMod(x);
    ModMul(x, Value(l));
  }

  lemma SmallElem(l: Limbs)
    requires l.h1 == l.h2 == l.h3 == l.h4 == l.h5 == l.h6 == l.h7 == l.h8 == l.h9 == 0 <= l.h0 <= 1
    ensures Elem(l) == l.h0
  {}

  // ---- Canonical form ----

  /** All limbs nonnegative and below their radix. */
  predicate Canonical(l: Limbs) {
    && 0 <= l.h0 < 0x400_0000 && 0 <= l.h1 < 0x200_0000 && 0 <= l.h2 < 0x400_0000 && 0 <= l.h3 < 0x200_0000
    && 0 <= l.h4 < 0x400_0000 && 0 <= l.h5 < 0x200_0000 && 0 <= l.h6 < 0x400_0000 && 0 <= l.h7 < 0x200_0000
    && 0 <= l.h8 < 0x400_0000 && 0 <= l.h9 < 0x200_0000
  }

  // x >> 26 and x & kBottom26Bits, x >> 25 and x & kBottom25Bits.

  function High26(x: int): (q: int)
    ensures 0x400_0000 * q <= x < 0x400_0000 * q + 0x400_0000
  {
    x / 0x400_0000
  }

  function Low26(x: int): (r: int)
    ensures x == 0x400_0000 * High26(x) + r && 0 <= r < 0x400_0000
  {
    x % 0x400_0000
  }

  function High25(x: int): (q: int)
    ensures 0x200_0000 * q <= x < 0x200_0000 * q + 0x200_0000
  {
    x / 0x200_0000
  }

  function Low25(x: int): (r: int)
    ensures x == 0x200_0000 * High25(x) + r && 0 <= r < 0x200_0000
  {
    x % 0x200_0000
  }

  /** The carry into limb i+1 when x is the carry into limb 0 and every limb is floored to its radix. */
  function CarryOut(l: Limbs, x: int, i: Index): int
    decreases i
  {
    match i
    case 0 => High26(l.h0 + x)
    case 1 => High25(l.h1 + CarryOut(l, x, 0))
    case 2 => High26(l.h2 + CarryOut(l, x, 1))
    case 3 => High25(l.h3 + CarryOut(l, x, 2))
    case 4 => High26(l.h4 + CarryOut(l, x, 3))
    case 5 => High25(l.h5 + CarryOut(l, x, 4))
    case 6 => High26(l.h6 + CarryOut(l, x, 5))
    case 7 => High25(l.h7 + CarryOut(l, x, 6))
    case 8 => High26(l.h8 + CarryOut(l, x, 7))
    case 9 => High25(l.h9 + CarryOut(l, x, 8))
  }

  lemma CarrySteps(l: Limbs, x: int)
    ensures CarryOut(l, x, 0) == High26(l.h0 + x)
    ensures CarryOut(l, x, 1) == High25(l.h1 + CarryOut(l, x, 0))
    ensures CarryOut(l, x, 2) == High26(l.h2 + CarryOut(l, x, 1))
    ensures CarryOut(l, x, 3) == High25(l.h3 + CarryOut(l, x, 2))
    ensures CarryOut(l, x, 4) == High26(l.h4 + CarryOut(l, x, 3))
    ensures CarryOut(l, x, 5) == High25(l.h5 + CarryOut(l, x, 4))
    ensures CarryOut(l, x, 6) == High26(l.h6 + CarryOut(l, x, 5))
    ensures CarryOut(l, x, 7) == High25(l.h7 + CarryOut(l, x, 6))
    ensures CarryOut(l, x, 8) == High26(l.h8 + CarryOut(l, x, 7))
    ensures CarryOut(l, x, 9) == High25(l.h9 + CarryOut(l, x, 8))
  {
    hide High25, High26;
  }

  /** What the limbs keep. */
  function Floored(l: Limbs, x: int): Limbs {
    Limbs(Low26(l.h0 + x), Low25(l.h1 + CarryOut(l, x, 0)),
          Low26(l.h2 + CarryOut(l, x, 1)), Low25(l.h3 + CarryOut(l, x, 2)),
          Low26(l.h4 + CarryOut(l, x, 3)), Low25(l.h5 + CarryOut(l, x, 4)),
          Low26(l.h6 + CarryOut(l, x, 5)), Low25(l.h7 + CarryOut(l, x, 6)),
          Low26(l.h8 + CarryOut(l, x, 7)), Low25(l.h9 + CarryOut(l, x, 8)))
  }

  /** 2^255 */
  const RADIX: int := 0x8000_0000_0000_0000_0000_0000_0000_0000_0000_0000_0000_0000_0000_0000_0000_0000

  lemma CanonicalRange(l: Limbs)
    requires Canonical(l)
    ensures 0 <= Value(l) < RADIX
  {}

  lemma FloorSum(l: Limbs, x: int, r: Limbs, c0: int, c1: int, c2: int, c3: int, c4: int,
                 c5: int, c6: int, c7: int, c8: int, c9: int)
    requires l.h0 + x == r.h0 + 0x400_0000 * c0 && l.h1 + c0 == r.h1 + 0x200_0000 * c1
    requires l.h2 + c1 == r.h2 + 0x400_0000 * c2 && l.h3 + c2 == r.h3 + 0x200_0000 * c3
    requires l.h4 + c3 == r.h4 + 0x400_0000 * c4 && l.h5 + c4 == r.h5 + 0x200_0000 * c5
    requires l.h6 + c5 == r.h6 + 0x400_0000 * c6 && l.h7 + c6 == r.h7 + 0x200_0000 * c7
    requires l.h8 + c7 == r.h8 + 0x400_0000 * c8 && l.h9 + c8 == r.h9 + 0x200_0000 * c9
    ensures Value(l) + x == Value(r) + RADIX * c9
  {}

  /** Nested floors divide the whole number by 2^255. */
  lemma NestedFloors(l: Limbs, x: int)
    ensures Canonical(Floored(l, x))
    ensures Value(l) + x == Value(Floored(l, x)) + RADIX * CarryOut(l, x, 9)
  {
    hide Value, High25, High26, Low25, Low26;
    FloorSum(l, x, Floored(l, x), CarryOut(l, x, 0), CarryOut(l, x, 1), CarryOut(l, x, 2), CarryOut(l, x, 3),
             CarryOut(l, x, 4), CarryOut(l, x, 5), CarryOut(l, x, 6), CarryOut(l, x, 7), CarryOut(l, x, 8),
             CarryOut(l, x, 9));
  }

  /** The estimate of the quotient that fe_tobytes starts its nested floors with. */
  function Estimate(l: Limbs): int { High25(19 * l.h9 + 0x100_0000) }

  /** The nested floors find the exact quotient by the prime. */
  lemma QuotientExact(l: Limbs)
    requires Loose(l)
    ensures CarryOut(l, Estimate(l), 9) == Value(l) / P
  {
    hide Canonical, Floored, CarryOut;
    var v, q, r := Value(l), Value(l) / P, Value(l) % P;
    var x := Estimate(l);
    NestedFloors(l, x);
    CanonicalRange(Floored(l, x));
    HighLimb(l);
    var low := v - 0x40_0000_0000_0000_0000_0000_0000_0000_0000_0000_0000_0000_0000_0000_0000 * l.h9;
    assert v == P * q + r;
    assert 0 <= r - 19 * q + x < RADIX;
  }

  lemma HighLimb(l: Limbs)
    requires Loose(l)
    ensures -0x80_0000_0000_0000_0000_0000_0000_0000_0000_0000_0000_0000_0000_0000_0000
      < Value(l) - 0x40_0000_0000_0000_0000_0000_0000_0000_0000_0000_0000_0000_0000_0000_0000 * l.h9
      < 0x80_0000_0000_0000_0000_0000_0000_0000_0000_0000_0000_0000_0000_0000_0000
  {}

  /** Adding 19 q and flooring every limb leaves the representative in [0, P). */
  lemma CanonicalValue(l: Limbs, q: int)
    requires q == Value(l) / P
    ensures Canonical(Floored(l, 19 * q)) && Value(Floored(l, 19 * q)) == Elem(l)
  {
    hide Value, Canonical, Floored, CarryOut;
    NestedFloors(l, 19 * q);
    CanonicalRange(Floored(l, 19 * q));
    assert Value(l) == P * q + Value(l) % P;
  }
}
