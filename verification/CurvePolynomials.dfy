/** Identities of polynomials about the curve v^2 = u^3 + a u^2 + u. */
module CurvePolynomials {
  /** The curve's right side. */
  function Cubic(a: int, u: int): int { u * u * u + a * u * u + u }

  lemma Tangent(a: int, u: int)
    ensures (3 * u * u + 2 * a * u + 1) * (3 * u * u + 2 * a * u + 1) - (a + u + u) * (4 * Cubic(a, u))
         == (u * u - 1) * (u * u - 1)
  {}

  /** What the slopes of two chords, to a point and to its negative, multiply to. */
  lemma Chords(a: int, x: int, y: int)
    ensures var s := Cubic(a, x) + Cubic(a, y) - (a + x + y) * ((y - x) * (y - x));
      s * s - 4 * (Cubic(a, x) * Cubic(a, y)) == (x * y - 1) * (x * y - 1) * ((y - x) * (y - x))
  {
    var n, p := x + y, x * y;
    CubicSum(a, x, y);
    CubicProduct(a, x, y);
    SquaredDifference(x, y);
    hide Cubic;
    Symmetric(a, n, p);
  }

  lemma CubicSum(a: int, x: int, y: int)
    ensures Cubic(a, x) + Cubic(a, y) - (a + x + y) * ((y - x) * (y - x))
         == (x + y) * (x * y) + 2 * a * (x * y) + (x + y)
  {}

  lemma SquaredDifference(x: int, y: int)
    ensures (y - x) * (y - x) == (x + y) * (x + y) - 4 * (x * y)
  {}

  lemma CubicProduct(a: int, x: int, y: int)
    ensures var n, p := x + y, x * y;
      Cubic(a, x) * Cubic(a, y) == p * (p * p + a * p * n + n * n - 2 * p + a * a * p + a * n + 1)
  {
    CubicFactors(a, x);
    CubicFactors(a, y);
    hide Cubic;
    Exchange(x, x * x + a * x + 1, y, y * y + a * y + 1);
    FactorProduct(a, x, y);
  }

  lemma CubicFactors(a: int, x: int)
    ensures Cubic(a, x) == x * (x * x + a * x + 1)
  {}

  lemma Exchange(x: int, f: int, y: int, g: int)
    ensures (x * f) * (y * g) == (x * y) * (f * g)
  {}

  lemma FactorProduct(a: int, x: int, y: int)
    ensures var n, p := x + y, x * y;
      (x * x + a * x + 1) * (y * y + a * y + 1) == p * p + a * p * n + n * n - 2 * p + a * a * p + a * n + 1
  {
    NineTerms(x * x, a * x, y * y, a * y);
    PairedTerms(a, x, y);
  }

  lemma NineTerms(b: int, c: int, d: int, e: int)
    ensures (b + c + 1) * (d + e + 1) == b * d + b * e + b + c * d + c * e + c + d + e + 1
  {}

  lemma PairedTerms(a: int, x: int, y: int)
    ensures (x * x) * (y * y) == (x * y) * (x * y)
    ensures (x * x) * (a * y) + (a * x) * (y * y) == a * (x * y) * (x + y)
    ensures (a * x) * (a * y) == a * a * (x * y)
    ensures x * x + y * y == (x + y) * (x + y) - 2 * (x * y)
    ensures a * x + a * y == a * (x + y)
  {}

  lemma Symmetric(a: int, n: int, p: int)
    ensures var s := n * p + 2 * a * p + n;
      s * s - 4 * (p * (p * p + a * p * n + n * n - 2 * p + a * a * p + a * n + 1))
        == (p - 1) * (p - 1) * (n * n - 4 * p)
  {
    var k, nn := 2 * a * p, n * n;
    assert n * p + k + n == n * (p + 1) + k;
    SquaredSum(n, p + 1, k);
    Distribute(p, p * p, a * p * n, nn, a * a * p, a * n);
    MixedTerms(a, n, p);
    EvenTerms(p, nn);
  }

  lemma SquaredSum(n: int, h: int, k: int)
    ensures (n * h + k) * (n * h + k) == n * n * (h * h) + 2 * (k * n * h) + k * k
  {}

  lemma Distribute(p: int, b: int, c: int, d: int, e: int, f: int)
    ensures p * (b + c + d - 2 * p + e + f + 1) == p * b + p * c + p * d - 2 * (p * p) + p * e + p * f + p
  {}

  lemma MixedTerms(a: int, n: int, p: int)
    ensures var k := 2 * a * p;
      && 2 * (k * n * (p + 1)) == 4 * (p * (a * p * n)) + 4 * (p * (a * n))
      && k * k == 4 * (p * (a * a * p))
  {}

  lemma EvenTerms(p: int, nn: int)
    ensures nn * ((p + 1) * (p + 1)) - 4 * (p * nn) - 4 * (p * (p * p)) + 8 * (p * p) - 4 * p
         == (p - 1) * (p - 1) * (nn - 4 * p)
  {}

  lemma Conjugates(v: int, w: int, k: int)
    ensures ((v - w) * (v - w) - k) * ((v + w) * (v + w) - k)
         == (v * v + w * w - k) * (v * v + w * w - k) - 4 * ((v * v) * (w * w))
  {}

  // ---- With u * z for x ----

  lemma DoubleX(u: int, z: int)
    ensures ((u * z) * (u * z) - z * z) * ((u * z) * (u * z) - z * z) == (u * u - 1) * (u * u - 1) * (z * z * (z * z))
  {
    assert (u * z) * (u * z) - z * z == (u * u - 1) * (z * z);
    Exchange(u * u - 1, z * z, u * u - 1, z * z);
  }

  lemma DoubleZ(a: int, u: int, z: int)
    ensures 4 * z * (u * z) * ((u * z) * (u * z) + (u * z) * (a * z) + z * z) == 4 * Cubic(a, u) * (z * z * (z * z))
  {
    FactoredForm(a, u, z);
    FourthPower(u, u * u + a * u + 1, z);
    CubicFactors(a, u);
  }

  lemma FactoredForm(a: int, u: int, z: int)
    ensures (u * z) * (u * z) + (u * z) * (a * z) + z * z == (u * u + a * u + 1) * (z * z)
  {}

  lemma FourthPower(u: int, m: int, z: int)
    ensures 4 * z * (u * z) * (m * (z * z)) == 4 * (u * m) * (z * z * (z * z))
  {}

  lemma CrossX(u: int, z: int, u': int, z': int)
    ensures (u * z) * (u' * z') - z * z' == (u * u' - 1) * (z * z')
  {}

  lemma CrossZ(u: int, z: int, u': int, z': int)
    ensures (u * z) * z' - z * (u' * z') == (u - u') * (z * z')
  {}
}
