/** The field arithmetic of fw/common/curve25519.c on arrays of ten 32-bit limbs, overwritten in place,
    with 64-bit intermediates. The integer types prove that nothing overflows. */
module Curve25519 {
  import opened MachineInts
  import opened Bits
  import opened Rfc7748
  import opened Field25519

  /** The limbs stored in an array. */
  function Load(a: array<int32>): Limbs
    requires a.Length == 10
    reads a
  {
    Limbs(a[0] as int, a[1] as int, a[2] as int, a[3] as int, a[4] as int,
          a[5] as int, a[6] as int, a[7] as int, a[8] as int, a[9] as int)
  }

  // ---- Products of 32-bit factors ----

  predicate Factors(a: int32, b: int32) {
    -221459250 <= a <= 221459250 && -2103862875 <= b <= 2103862875
  }

  lemma ProductBound(a: int, b: int, m: int, n: int)
    requires -m <= a <= m && -n <= b <= n
    ensures -(m * n) <= a * b <= m * n
  {
    NonNegative(m - a, n + b);
    NonNegative(m + a, n - b);
    NonNegative(m - a, n - b);
    NonNegative(m + a, n + b);
    assert (m - a) * (n + b) == m * n + m * b - a * n - a * b;
    assert (m + a) * (n - b) == m * n - m * b + a * n - a * b;
    assert (m - a) * (n - b) == m * n - m * b - a * n + a * b;
    assert (m + a) * (n + b) == m * n + m * b + a * n + a * b;
  }

  lemma NonNegative(x: int, y: int)
    requires 0 <= x && 0 <= y
    ensures 0 <= x * y
  {}

  function Times1(a: int, b: int): int { a * b }

  /** a * (int64_t) b */
  function Wide(a: int32, b: int32): (r: int64)
    requires Factors(a, b)
    ensures r as int == Times1(a as int, b as int)
    ensures -466_000_000_000_000_000 <= r <= 466_000_000_000_000_000
  {
    ProductBound(a as int, b as int, 221459250, 2103862875);
    a as int64 * b as int64
  }

  function Dot5(a0: int, b0: int, a1: int, b1: int, a2: int, b2: int, a3: int, b3: int, a4: int, b4: int): int {
    a0 * b0 + a1 * b1 + a2 * b2 + a3 * b3 + a4 * b4
  }

  /** Five wide products summed in 64 bits: half a column of fe_mul. */
  function WideDot5(a0: int32, b0: int32, a1: int32, b1: int32, a2: int32, b2: int32,
                    a3: int32, b3: int32, a4: int32, b4: int32): (r: int64)
    requires Factors(a0, b0) && Factors(a1, b1) && Factors(a2, b2) && Factors(a3, b3) && Factors(a4, b4)
    ensures r as int == Dot5(a0 as int, b0 as int, a1 as int, b1 as int, a2 as int, b2 as int,
                             a3 as int, b3 as int, a4 as int, b4 as int)
    ensures -2_330_000_000_000_000_000 <= r <= 2_330_000_000_000_000_000
  {
    Wide(a0, b0) + Wide(a1, b1) + Wide(a2, b2) + Wide(a3, b3) + Wide(a4, b4)
  }

  // ---- Carries ----

  /** c & kTop38Bits */
  function Top38(c: int64): (r: int64)
    ensures r == 0x400_0000 * (c / 0x400_0000)
  {
    hide And;
    Pow2Values();
    AndHigh(c as int, 26);
    And(c as int, -0x400_0000) as int64
  }

  /** c & kTop39Bits */
  function Top39(c: int64): (r: int64)
    ensures r == 0x200_0000 * (c / 0x200_0000)
  {
    hide And;
    Pow2Values();
    AndHigh(c as int, 25);
    And(c as int, -0x200_0000) as int64
  }

  const COLUMN_MAX: int64 := 4_700_000_000_000_000_000

  /** carry = lo + 2^25; hi += carry >> 26; lo -= carry & kTop38Bits */
  method Carry26(lo: int64, hi: int64) returns (lo': int64, hi': int64)
    requires -COLUMN_MAX <= lo <= COLUMN_MAX && -COLUMN_MAX <= hi <= COLUMN_MAX
    ensures lo' as int == lo as int - 0x400_0000 * Round26(lo as int)
    ensures hi' as int == hi as int + Round26(lo as int)
    ensures -0x200_0000 <= lo' <= 0x200_0000
  {
    var carry := lo + 0x200_0000;
    hi' := hi + carry / 0x400_0000;
    lo' := lo - Top38(carry);
  }

  /** carry = lo + 2^24; hi += (carry >> 25) * wrap; lo -= carry & kTop39Bits */
  method Carry25(lo: int64, hi: int64, wrap: int64) returns (lo': int64, hi': int64)
    requires -COLUMN_MAX <= lo <= COLUMN_MAX && -COLUMN_MAX <= hi <= COLUMN_MAX
    requires wrap == 1 || wrap == 19
    ensures lo' as int == lo as int - 0x200_0000 * Round25(lo as int)
    ensures hi' as int == hi as int + wrap as int * Round25(lo as int)
    ensures -0x100_0000 <= lo' <= 0x100_0000
  {
    var carry := lo + 0x100_0000;
    hi' := hi + (carry / 0x200_0000) * wrap;
    lo' := lo - Top39(carry);
  }

  /** The first eight carries of the chain that ends fe_mul and fe_sq. */
  method ReduceOnce(x0: int64, x1: int64, x2: int64, x3: int64, x4: int64,
                    x5: int64, x6: int64, x7: int64, x8: int64, x9: int64, ghost l: Limbs)
    returns (h0: int64, h1: int64, h2: int64, h3: int64, h4: int64,
             h5: int64, h6: int64, h7: int64, h8: int64, h9: int64)
    requires l == Limbs(x0 as int, x1 as int, x2 as int, x3 as int, x4 as int,
                        x5 as int, x6 as int, x7 as int, x8 as int, x9 as int)
    requires Within(l, 4_660_000_000_000_000_000, 4_660_000_000_000_000_000)
    ensures ReducedOnce(l) == Limbs(h0 as int, h1 as int, h2 as int, h3 as int, h4 as int,
                                    h5 as int, h6 as int, h7 as int, h8 as int, h9 as int)
    ensures -0x200_0000 <= h0 <= 0x200_0000 && -0x100_0000 <= h1 <= 0x100_0000 && -0x200_0000 <= h2 <= 0x200_0000
    ensures -0x100_0000 <= h3 <= 0x100_0000 && -141_000_000_000 <= h4 <= 141_000_000_000
    ensures -0x100_0000 <= h5 <= 0x100_0000 && -0x200_0000 <= h6 <= 0x200_0000 && -0x100_0000 <= h7 <= 0x100_0000
    ensures -COLUMN_MAX <= h8 <= COLUMN_MAX && h9 == x9
  {
    hide Round25, Round26;
    h0, h1, h2, h3, h4, h5, h6, h7, h8, h9 := x0, x1, x2, x3, x4, x5, x6, x7, x8, x9;
    h0, h1 := Carry26(h0, h1);
    h4, h5 := Carry26(h4, h5);
    h1, h2 := Carry25(h1, h2, 1);
    h5, h6 := Carry25(h5, h6, 1);
    h2, h3 := Carry26(h2, h3);
    h6, h7 := Carry26(h6, h7);
    h3, h4 := Carry25(h3, h4, 1);
    h7, h8 := Carry25(h7, h8, 1);
  }

  /** The whole chain. */
  method Reduce(h: array<int32>, x0: int64, x1: int64, x2: int64, x3: int64, x4: int64,
                x5: int64, x6: int64, x7: int64, x8: int64, x9: int64, ghost l: Limbs)
    requires h.Length == 10
    requires l == Limbs(x0 as int, x1 as int, x2 as int, x3 as int, x4 as int,
                        x5 as int, x6 as int, x7 as int, x8 as int, x9 as int)
    requires Within(l, 4_660_000_000_000_000_000, 4_660_000_000_000_000_000)
    modifies h
    ensures Load(h) == Reduced(l)
    ensures Tight(Load(h))
  {
    hide Round25, Round26, ReducedOnce;
    var h0, h1, h2, h3, h4, h5, h6, h7, h8, h9 := ReduceOnce(x0, x1, x2, x3, x4, x5, x6, x7, x8, x9, l);
    h4, h5 := Carry26(h4, h5);
    h8, h9 := Carry26(h8, h9);
    h9, h0 := Carry25(h9, h0, 19);
    h0, h1 := Carry26(h0, h1);
    h[0], h[1], h[2], h[3], h[4] := h0 as int32, h1 as int32, h2 as int32, h3 as int32, h4 as int32;
    h[5], h[6], h[7], h[8], h[9] := h5 as int32, h6 as int32, h7 as int32, h8 as int32, h9 as int32;
  }

  // ---- fe_mul ----

  // The columns that fe_mul sums, with its pre-scaled factors, are the columns of the product.

  lemma MulColumns0(f: Limbs, g: Limbs)
    ensures Column(0, f, g) ==
      Dot5(f.h0, g.h0, 2 * f.h1, 19 * g.h9, f.h2, 19 * g.h8, 2 * f.h3, 19 * g.h7, f.h4, 19 * g.h6)
      + Dot5(2 * f.h5, 19 * g.h5, f.h6, 19 * g.h4, 2 * f.h7, 19 * g.h3, f.h8, 19 * g.h2, 2 * f.h9, 19 * g.h1)
    ensures Column(1, f, g) ==
      Dot5(f.h0, g.h1, f.h1, g.h0, f.h2, 19 * g.h9, f.h3, 19 * g.h8, f.h4, 19 * g.h7)
      + Dot5(f.h5, 19 * g.h6, f.h6, 19 * g.h5, f.h7, 19 * g.h4, f.h8, 19 * g.h3, f.h9, 19 * g.h2)
  {}

  lemma MulColumns2(f: Limbs, g: Limbs)
    ensures Column(2, f, g) ==
      Dot5(f.h0, g.h2, 2 * f.h1, g.h1, f.h2, g.h0, 2 * f.h3, 19 * g.h9, f.h4, 19 * g.h8)
      + Dot5(2 * f.h5, 19 * g.h7, f.h6, 19 * g.h6, 2 * f.h7, 19 * g.h5, f.h8, 19 * g.h4, 2 * f.h9, 19 * g.h3)
    ensures Column(3, f, g) ==
      Dot5(f.h0, g.h3, f.h1, g.h2, f.h2, g.h1, f.h3, g.h0, f.h4, 19 * g.h9)
      + Dot5(f.h5, 19 * g.h8, f.h6, 19 * g.h7, f.h7, 19 * g.h6, f.h8, 19 * g.h5, f.h9, 19 * g.h4)
  {}

  lemma MulColumns4(f: Limbs, g: Limbs)
    ensures Column(4, f, g) ==
      Dot5(f.h0, g.h4, 2 * f.h1, g.h3, f.h2, g.h2, 2 * f.h3, g.h1, f.h4, g.h0)
      + Dot5(2 * f.h5, 19 * g.h9, f.h6, 19 * g.h8, 2 * f.h7, 19 * g.h7, f.h8, 19 * g.h6, 2 * f.h9, 19 * g.h5)
    ensures Column(5, f, g) ==
      Dot5(f.h0, g.h5, f.h1, g.h4, f.h2, g.h3, f.h3, g.h2, f.h4, g.h1)
      + Dot5(f.h5, g.h0, f.h6, 19 * g.h9, f.h7, 19 * g.h8, f.h8, 19 * g.h7, f.h9, 19 * g.h6)
  {}

  lemma MulColumns6(f: Limbs, g: Limbs)
    ensures Column(6, f, g) ==
      Dot5(f.h0, g.h6, 2 * f.h1, g.h5, f.h2, g.h4, 2 * f.h3, g.h3, f.h4, g.h2)
      + Dot5(2 * f.h5, g.h1, f.h6, g.h0, 2 * f.h7, 19 * g.h9, f.h8, 19 * g.h8, 2 * f.h9, 19 * g.h7)
    ensures Column(7, f, g) ==
      Dot5(f.h0, g.h7, f.h1, g.h6, f.h2, g.h5, f.h3, g.h4, f.h4, g.h3)
      + Dot5(f.h5, g.h2, f.h6, g.h1, f.h7, g.h0, f.h8, 19 * g.h9, f.h9, 19 * g.h8)
  {}

  lemma MulColumns8(f: Limbs, g: Limbs)
    ensures Column(8, f, g) ==
      Dot5(f.h0, g.h8, 2 * f.h1, g.h7, f.h2, g.h6, 2 * f.h3, g.h5, f.h4, g.h4)
      + Dot5(2 * f.h5, g.h3, f.h6, g.h2, 2 * f.h7, g.h1, f.h8, g.h0, 2 * f.h9, 19 * g.h9)
    ensures Column(9, f, g) ==
      Dot5(f.h0, g.h9, f.h1, g.h8, f.h2, g.h7, f.h3, g.h6, f.h4, g.h5)
      + Dot5(f.h5, g.h4, f.h6, g.h3, f.h7, g.h2, f.h8, g.h1, f.h9, g.h0)
  {}

  /** The ten column sums of fe_mul. */
  method MulSums(f0: int32, f1: int32, f2: int32, f3: int32, f4: int32,
                 f5: int32, f6: int32, f7: int32, f8: int32, f9: int32,
                 g0: int32, g1: int32, g2: int32, g3: int32, g4: int32,
                 g5: int32, g6: int32, g7: int32, g8: int32, g9: int32, ghost f: Limbs, ghost g: Limbs)
    returns (h0: int64, h1: int64, h2: int64, h3: int64, h4: int64,
             h5: int64, h6: int64, h7: int64, h8: int64, h9: int64)
    requires f == Limbs(f0 as int, f1 as int, f2 as int, f3 as int, f4 as int,
                        f5 as int, f6 as int, f7 as int, f8 as int, f9 as int)
    requires g == Limbs(g0 as int, g1 as int, g2 as int, g3 as int, g4 as int,
                        g5 as int, g6 as int, g7 as int, g8 as int, g9 as int)
    requires Mulable(f) && Mulable(g)
    ensures Product(f, g) == Limbs(h0 as int, h1 as int, h2 as int, h3 as int, h4 as int,
                                   h5 as int, h6 as int, h7 as int, h8 as int, h9 as int)
    ensures Within(Product(f, g), 4_660_000_000_000_000_000, 4_660_000_000_000_000_000)
  {
    hide Wide, WideDot5, Dot5, Times1, Column;
    var g1_19, g2_19, g3_19 := 19 * g1, 19 * g2, 19 * g3;
    var g4_19, g5_19, g6_19 := 19 * g4, 19 * g5, 19 * g6;
    var g7_19, g8_19, g9_19 := 19 * g7, 19 * g8, 19 * g9;
    var f1_2, f3_2, f5_2, f7_2, f9_2 := 2 * f1, 2 * f3, 2 * f5, 2 * f7, 2 * f9;
    h0 := WideDot5(f0, g0, f1_2, g9_19, f2, g8_19, f3_2, g7_19, f4, g6_19)
      + WideDot5(f5_2, g5_19, f6, g4_19, f7_2, g3_19, f8, g2_19, f9_2, g1_19);
    h1 := WideDot5(f0, g1, f1, g0, f2, g9_19, f3, g8_19, f4, g7_19)
      + WideDot5(f5, g6_19, f6, g5_19, f7, g4_19, f8, g3_19, f9, g2_19);
    h2 := WideDot5(f0, g2, f1_2, g1, f2, g0, f3_2, g9_19, f4, g8_19)
      + WideDot5(f5_2, g7_19, f6, g6_19, f7_2, g5_19, f8, g4_19, f9_2, g3_19);
    h3 := WideDot5(f0, g3, f1, g2, f2, g1, f3, g0, f4, g9_19)
      + WideDot5(f5, g8_19, f6, g7_19, f7, g6_19, f8, g5_19, f9, g4_19);
    h4 := WideDot5(f0, g4, f1_2, g3, f2, g2, f3_2, g1, f4, g0)
      + WideDot5(f5_2, g9_19, f6, g8_19, f7_2, g7_19, f8, g6_19, f9_2, g5_19);
    h5 := WideDot5(f0, g5, f1, g4, f2, g3, f3, g2, f4, g1)
      + WideDot5(f5, g0, f6, g9_19, f7, g8_19, f8, g7_19, f9, g6_19);
    h6 := WideDot5(f0, g6, f1_2, g5, f2, g4, f3_2, g3, f4, g2)
      + WideDot5(f5_2, g1, f6, g0, f7_2, g9_19, f8, g8_19, f9_2, g7_19);
    h7 := WideDot5(f0, g7, f1, g6, f2, g5, f3, g4, f4, g3) + WideDot5(f5, g2, f6, g1, f7, g0, f8, g9_19, f9, g8_19);
    h8 := WideDot5(f0, g8, f1_2, g7, f2, g6, f3_2, g5, f4, g4)
      + WideDot5(f5_2, g3, f6, g2, f7_2, g1, f8, g0, f9_2, g9_19);
    h9 := WideDot5(f0, g9, f1, g8, f2, g7, f3, g6, f4, g5) + WideDot5(f5, g4, f6, g3, f7, g2, f8, g1, f9, g0);
    MulColumns0(f, g);
    MulColumns2(f, g);
    MulColumns4(f, g);
    MulColumns6(f, g);
    MulColumns8(f, g);
  }

  /** h = f * g; h may be the same array as f or g. */
  method FeMul(h: array<int32>, f: array<int32>, g: array<int32>)
    requires h.Length == f.Length == g.Length == 10
    requires Mulable(Load(f)) && Mulable(Load(g))
    modifies h
    ensures Load(h) == Reduced(Product(old(Load(f)), old(Load(g))))
    ensures Tight(Load(h))
    ensures Elem(Load(h)) == Mul(old(Elem(Load(f))), old(Elem(Load(g))))
  {
    hide Product, Reduced, Elem;
    var fl, gl := Load(f), Load(g);
    var h0, h1, h2, h3, h4, h5, h6, h7, h8, h9 := MulSums(
      f[0], f[1], f[2], f[3], f[4], f[5], f[6], f[7], f[8], f[9],
      g[0], g[1], g[2], g[3], g[4], g[5], g[6], g[7], g[8], g[9], fl, gl);
    ProductElem(fl, gl);
    ReducedElem(Product(fl, gl));
    Reduce(h, h0, h1, h2, h3, h4, h5, h6, h7, h8, h9, Product(fl, gl));
  }

  // ---- fe_sq ----

  // fe_sq sums each pair of equal products once, doubled; the columns are those of fe_mul.

  lemma SqColumns0(f: Limbs)
    ensures Column(0, f, f) ==
      Dot5(f.h0, f.h0, 2 * f.h1, 38 * f.h9, 2 * f.h2, 19 * f.h8, 2 * f.h3, 38 * f.h7, 2 * f.h4, 19 * f.h6)
      + Times1(f.h5, 38 * f.h5)
    ensures Column(1, f, f) ==
      Dot5(2 * f.h0, f.h1, f.h2, 38 * f.h9, 2 * f.h3, 19 * f.h8, f.h4, 38 * f.h7, 2 * f.h5, 19 * f.h6)
  {}

  lemma SqColumns2(f: Limbs)
    ensures Column(2, f, f) ==
      Dot5(2 * f.h0, f.h2, 2 * f.h1, f.h1, 2 * f.h3, 38 * f.h9, 2 * f.h4, 19 * f.h8, 2 * f.h5, 38 * f.h7)
      + Times1(f.h6, 19 * f.h6)
    ensures Column(3, f, f) ==
      Dot5(2 * f.h0, f.h3, 2 * f.h1, f.h2, f.h4, 38 * f.h9, 2 * f.h5, 19 * f.h8, f.h6, 38 * f.h7)
  {}

  lemma SqColumns4(f: Limbs)
    ensures Column(4, f, f) ==
      Dot5(2 * f.h0, f.h4, 2 * f.h1, 2 * f.h3, f.h2, f.h2, 2 * f.h5, 38 * f.h9, 2 * f.h6, 19 * f.h8)
      + Times1(f.h7, 38 * f.h7)
    ensures Column(5, f, f) ==
      Dot5(2 * f.h0, f.h5, 2 * f.h1, f.h4, 2 * f.h2, f.h3, f.h6, 38 * f.h9, 2 * f.h7, 19 * f.h8)
  {}

  lemma SqColumns6(f: Limbs)
    ensures Column(6, f, f) ==
      Dot5(2 * f.h0, f.h6, 2 * f.h1, 2 * f.h5, 2 * f.h2, f.h4, 2 * f.h3, f.h3, 2 * f.h7, 38 * f.h9)
      + Times1(f.h8, 19 * f.h8)
    ensures Column(7, f, f) ==
      Dot5(2 * f.h0, f.h7, 2 * f.h1, f.h6, 2 * f.h2, f.h5, 2 * f.h3, f.h4, f.h8, 38 * f.h9)
  {}

  lemma SqColumns8(f: Limbs)
    ensures Column(8, f, f) ==
      Dot5(2 * f.h0, f.h8, 2 * f.h1, 2 * f.h7, 2 * f.h2, f.h6, 2 * f.h3, 2 * f.h5, f.h4, f.h4)
      + Times1(f.h9, 38 * f.h9)
    ensures Column(9, f, f) ==
      Dot5(2 * f.h0, f.h9, 2 * f.h1, f.h8, 2 * f.h2, f.h7, 2 * f.h3, f.h6, 2 * f.h4, f.h5)
  {}

  /** The ten column sums of fe_sq. */
  method SqSums(f0: int32, f1: int32, f2: int32, f3: int32, f4: int32,
                f5: int32, f6: int32, f7: int32, f8: int32, f9: int32, ghost f: Limbs)
    returns (h0: int64, h1: int64, h2: int64, h3: int64, h4: int64,
             h5: int64, h6: int64, h7: int64, h8: int64, h9: int64)
    requires f == Limbs(f0 as int, f1 as int, f2 as int, f3 as int, f4 as int,
                        f5 as int, f6 as int, f7 as int, f8 as int, f9 as int)
    requires Mulable(f)
    ensures Product(f, f) == Limbs(h0 as int, h1 as int, h2 as int, h3 as int, h4 as int,
                                   h5 as int, h6 as int, h7 as int, h8 as int, h9 as int)
    ensures Within(Product(f, f), 4_660_000_000_000_000_000, 4_660_000_000_000_000_000)
  {
    hide Wide, WideDot5, Dot5, Times1, Column;
    var f0_2, f1_2, f2_2, f3_2, f4_2, f5_2 := 2 * f0, 2 * f1, 2 * f2, 2 * f3, 2 * f4, 2 * f5;
    var f6_2, f7_2, f5_38, f6_19 := 2 * f6, 2 * f7, 38 * f5, 19 * f6;
    var f7_38, f8_19, f9_38 := 38 * f7, 19 * f8, 38 * f9;
    h0 := WideDot5(f0, f0, f1_2, f9_38, f2_2, f8_19, f3_2, f7_38, f4_2, f6_19) + Wide(f5, f5_38);
    h1 := WideDot5(f0_2, f1, f2, f9_38, f3_2, f8_19, f4, f7_38, f5_2, f6_19);
    h2 := WideDot5(f0_2, f2, f1_2, f1, f3_2, f9_38, f4_2, f8_19, f5_2, f7_38) + Wide(f6, f6_19);
    h3 := WideDot5(f0_2, f3, f1_2, f2, f4, f9_38, f5_2, f8_19, f6, f7_38);
    h4 := WideDot5(f0_2, f4, f1_2, f3_2, f2, f2, f5_2, f9_38, f6_2, f8_19) + Wide(f7, f7_38);
    h5 := WideDot5(f0_2, f5, f1_2, f4, f2_2, f3, f6, f9_38, f7_2, f8_19);
    h6 := WideDot5(f0_2, f6, f1_2, f5_2, f2_2, f4, f3_2, f3, f7_2, f9_38) + Wide(f8, f8_19);
    h7 := WideDot5(f0_2, f7, f1_2, f6, f2_2, f5, f3_2, f4, f8, f9_38);
    h8 := WideDot5(f0_2, f8, f1_2, f7_2, f2_2, f6, f3_2, f5_2, f4, f4) + Wide(f9, f9_38);
    h9 := WideDot5(f0_2, f9, f1_2, f8, f2_2, f7, f3_2, f6, f4_2, f5);
    SqColumns0(f);
    SqColumns2(f);
    SqColumns4(f);
    SqColumns6(f);
    SqColumns8(f);
  }

  /** h = f * f; h may be the same array as f. */
  method FeSq(h: array<int32>, f: array<int32>)
    requires h.Length == f.Length == 10
    requires Mulable(Load(f))
    modifies h
    ensures Load(h) == Reduced(Product(old(Load(f)), old(Load(f))))
    ensures Tight(Load(h))
    ensures Elem(Load(h)) == Mul(old(Elem(Load(f))), old(Elem(Load(f))))
  {
    hide Product, Reduced, Elem;
    var fl := Load(f);
    var h0, h1, h2, h3, h4, h5, h6, h7, h8, h9 := SqSums(
      f[0], f[1], f[2], f[3], f[4], f[5], f[6], f[7], f[8], f[9], fl);
    ProductElem(fl, fl);
    ReducedElem(Product(fl, fl));
    Reduce(h, h0, h1, h2, h3, h4, h5, h6, h7, h8, h9, Product(fl, fl));
  }

  // ---- fe_mul121666 and the short carry chain ----

  /** The five odd carries of fe_frombytes and fe_mul121666. */
  method ReduceOdd(x0: int64, x1: int64, x2: int64, x3: int64, x4: int64,
                   x5: int64, x6: int64, x7: int64, x8: int64, x9: int64, ghost l: Limbs)
    returns (h0: int64, h1: int64, h2: int64, h3: int64, h4: int64,
             h5: int64, h6: int64, h7: int64, h8: int64, h9: int64)
    requires l == Limbs(x0 as int, x1 as int, x2 as int, x3 as int, x4 as int,
                        x5 as int, x6 as int, x7 as int, x8 as int, x9 as int)
    requires Within(l, 9_000_000_000_000, 9_000_000_000_000)
    ensures Carry(7, Carry(5, Carry(3, Carry(1, Carry(9, l)))))
         == Limbs(h0 as int, h1 as int, h2 as int, h3 as int, h4 as int,
                  h5 as int, h6 as int, h7 as int, h8 as int, h9 as int)
    ensures -9_010_000_000_000 <= h0 <= 9_010_000_000_000 && -9_010_000_000_000 <= h2 <= 9_010_000_000_000
    ensures -9_010_000_000_000 <= h4 <= 9_010_000_000_000 && -9_010_000_000_000 <= h6 <= 9_010_000_000_000
    ensures -9_010_000_000_000 <= h8 <= 9_010_000_000_000
    ensures -0x100_0000 <= h1 <= 0x100_0000 && -0x100_0000 <= h3 <= 0x100_0000 && -0x100_0000 <= h5 <= 0x100_0000
    ensures -0x100_0000 <= h7 <= 0x100_0000 && -0x100_0000 <= h9 <= 0x100_0000
  {
    hide Round25, Round26;
    h0, h1, h2, h3, h4, h5, h6, h7, h8, h9 := x0, x1, x2, x3, x4, x5, x6, x7, x8, x9;
    h9, h0 := Carry25(h9, h0, 19);
    h1, h2 := Carry25(h1, h2, 1);
    h3, h4 := Carry25(h3, h4, 1);
    h5, h6 := Carry25(h5, h6, 1);
    h7, h8 := Carry25(h7, h8, 1);
  }

  /** The whole short chain: odd limbs, then even limbs. */
  method ReduceSmall(h: array<int32>, x0: int64, x1: int64, x2: int64, x3: int64, x4: int64,
                     x5: int64, x6: int64, x7: int64, x8: int64, x9: int64, ghost l: Limbs)
    requires h.Length == 10
    requires l == Limbs(x0 as int, x1 as int, x2 as int, x3 as int, x4 as int,
                        x5 as int, x6 as int, x7 as int, x8 as int, x9 as int)
    requires Within(l, 9_000_000_000_000, 9_000_000_000_000)
    modifies h
    ensures Load(h) == ReducedSmall(l)
    ensures Tight(Load(h))
  {
    hide Round25, Round26;
    var h0, h1, h2, h3, h4, h5, h6, h7, h8, h9 := ReduceOdd(x0, x1, x2, x3, x4, x5, x6, x7, x8, x9, l);
    h0, h1 := Carry26(h0, h1);
    h2, h3 := Carry26(h2, h3);
    h4, h5 := Carry26(h4, h5);
    h6, h7 := Carry26(h6, h7);
    h8, h9 := Carry26(h8, h9);
    h[0], h[1], h[2], h[3], h[4] := h0 as int32, h1 as int32, h2 as int32, h3 as int32, h4 as int32;
    h[5], h[6], h[7], h[8], h[9] := h5 as int32, h6 as int32, h7 as int32, h8 as int32, h9 as int32;
  }

  /** h = f * 121666; h may be the same array as f. */
  method FeMul121666(h: array<int32>, f: array<int32>)
    requires h.Length == f.Length == 10
    requires Loose(Load(f))
    modifies h
    ensures Tight(Load(h))
    ensures Elem(Load(h)) == Mul(121666, old(Elem(Load(f))))
  {
    hide Elem, Value, ReducedSmall;
    ghost var fl := Load(f);
    ghost var l := Times(121666, fl);
    var h0, h1, h2, h3, h4 := f[0] as int64 * 121666, f[1] as int64 * 121666, f[2] as int64 * 121666,
                              f[3] as int64 * 121666, f[4] as int64 * 121666;
    var h5, h6, h7, h8, h9 := f[5] as int64 * 121666, f[6] as int64 * 121666, f[7] as int64 * 121666,
                              f[8] as int64 * 121666, f[9] as int64 * 121666;
    TimesElem(121666, fl);
    ReducedElem(l);
    ReduceSmall(h, h0, h1, h2, h3, h4, h5, h6, h7, h8, h9, l);
  }

  // ---- Addition, subtraction, copies, constants ----

  /** The limb bounds, entry by entry. */
  lemma AddableEntries(f: array<int32>)
    requires f.Length == 10 && Addable(Load(f))
    ensures forall j :: 0 <= j < 10 ==> -36909875 <= f[j] <= 36909875
  {
    forall j | 0 <= j < 10
      ensures -36909875 <= f[j] <= 36909875
    {
      if j == 0 {} else if j == 1 {} else if j == 2 {} else if j == 3 {} else if j == 4 {}
      else if j == 5 {} else if j == 6 {} else if j == 7 {} else if j == 8 {} else {}
    }
  }

  /** h = f + g; h may be the same array as f or g. */
  method FeAdd(h: array<int32>, f: array<int32>, g: array<int32>)
    requires h.Length == f.Length == g.Length == 10
    requires Addable(Load(f)) && Addable(Load(g))
    modifies h
    ensures Loose(Load(h))
    ensures Elem(Load(h)) == Add(old(Elem(Load(f))), old(Elem(Load(g))))
  {
    hide Elem;
    AddableEntries(f);
    AddableEntries(g);
    ghost var fl, gl := Load(f), Load(g);
    var i := 0;
    while i < 10
      invariant 0 <= i <= 10
      invariant forall j :: 0 <= j < i ==> h[j] as int == old(f[j]) as int + old(g[j]) as int
      invariant forall j :: i <= j < 10 ==> f[j] == old(f[j]) && g[j] == old(g[j])
    {
      h[i] := f[i] + g[i];
      i := i + 1;
    }
    SumElem(fl, gl);
    assert Load(h) == Plus(fl, gl);
  }

  /** h = f - g; h may be the same array as f or g. */
  method FeSub(h: array<int32>, f: array<int32>, g: array<int32>)
    requires h.Length == f.Length == g.Length == 10
    requires Addable(Load(f)) && Addable(Load(g))
    modifies h
    ensures Loose(Load(h))
    ensures Elem(Load(h)) == Sub(old(Elem(Load(f))), old(Elem(Load(g))))
  {
    hide Elem;
    AddableEntries(f);
    AddableEntries(g);
    ghost var fl, gl := Load(f), Load(g);
    var i := 0;
    while i < 10
      invariant 0 <= i <= 10
      invariant forall j :: 0 <= j < i ==> h[j] as int == old(f[j]) as int - old(g[j]) as int
      invariant forall j :: i <= j < 10 ==> f[j] == old(f[j]) && g[j] == old(g[j])
    {
      h[i] := f[i] - g[i];
      i := i + 1;
    }
    SumElem(fl, gl);
    assert Load(h) == Minus(fl, gl);
  }

  /** h = f */
  method FeCopy(h: array<int32>, f: array<int32>)
    requires h.Length == f.Length == 10
    modifies h
    ensures Load(h) == old(Load(f))
  {
    forall i | 0 <= i < 10 { h[i] := f[i]; }
  }

  /** h = 0 */
  method Fe0(h: array<int32>)
    requires h.Length == 10
    modifies h
    ensures Load(h) == Limbs(0, 0, 0, 0, 0, 0, 0, 0, 0, 0)
  {
    forall i | 0 <= i < 10 { h[i] := 0; }
  }

  /** h = 1 */
  method Fe1(h: array<int32>)
    requires h.Length == 10
    modifies h
    ensures Load(h) == Limbs(1, 0, 0, 0, 0, 0, 0, 0, 0, 0)
  {
    forall i | 0 <= i < 10 { h[i] := 0; }
    h[0] := 1;
  }

  /** x ^ y on 32-bit words. */
  function Xor32(x: int32, y: int32): (r: int32)
    ensures r as int == Xor(x as int, y as int)
  {
    Pow2Values();
    InRange(XOR, x as int, y as int, 31);
    Xor(x as int, y as int) as int32
  }

  /** x & m for a mask of all zeros or all ones. */
  function Mask32(x: int32, m: int32): (r: int32)
    requires m == 0 || m == -1
    ensures r == if m == 0 then 0 else x
  {
    AndZero(x as int);
    AndOnes(x as int);
    And(x as int, m as int) as int32
  }

  /** Swaps f and g if b is 1, without a branch on b. */
  method FeCswap(f: array<int32>, g: array<int32>, b: int32)
    requires f.Length == g.Length == 10 && f != g
    requires b == 0 || b == 1
    modifies f, g
    ensures Load(f) == if b == 1 then old(Load(g)) else old(Load(f))
    ensures Load(g) == if b == 1 then old(Load(f)) else old(Load(g))
  {
    hide Xor;
    var mask := 0 - b;
    var i := 0;
    while i < 10
      invariant 0 <= i <= 10
      invariant forall j :: 0 <= j < i ==> f[j] == (if b == 1 then old(g[j]) else old(f[j]))
      invariant forall j :: 0 <= j < i ==> g[j] == (if b == 1 then old(f[j]) else old(g[j]))
      invariant forall j :: i <= j < 10 ==> f[j] == old(f[j]) && g[j] == old(g[j])
    {
      var x := Xor32(f[i], g[i]);
      x := Mask32(x, mask);
      XorCancel(f[i] as int, g[i] as int);
      XorZero(f[i] as int);
      XorZero(g[i] as int);
      f[i] := Xor32(f[i], x);
      g[i] := Xor32(g[i], x);
      i := i + 1;
    }
  }
}
