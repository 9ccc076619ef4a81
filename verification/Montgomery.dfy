/** What the ladder of section 5 of RFC 7748 computes: multiples of a point of the curve
    v^2 = u^3 + 486662 u^2 + u over the integers modulo 2^255 - 19, by their u-coordinates alone. */
module Montgomery {
  import opened Bits
  import opened Rfc7748
  import opened LittleEndian
  import opened Field25519
  import opened CurvePolynomials

  const A: int := 486662

  /** A u-coordinate as a fraction x / z; the point at infinity has z = 0. */
  datatype Fraction = Fraction(x: int, z: int)

  /** The u-coordinate of twice the point with u-coordinate q. */
  function Double(q: Fraction): Fraction {
    Fraction((q.x * q.x - q.z * q.z) * (q.x * q.x - q.z * q.z),
             4 * q.x * q.z * (q.x * q.x + A * q.x * q.z + q.z * q.z))
  }

  /** The u-coordinate of the sum of the points with q and r, when that of their difference is u. */
  function SumOf(u: int, q: Fraction, r: Fraction): Fraction {
    Fraction(4 * (q.x * r.x - q.z * r.z) * (q.x * r.x - q.z * r.z),
             4 * u * (q.x * r.z - q.z * r.x) * (q.x * r.z - q.z * r.x))
  }

  // ---- Congruence ----

  function Multiple(k: int): int { P * k }

  /** The same element of the field. */
  ghost predicate Cong(a: int, b: int) { exists k :: a == b + Multiple(k) }

  lemma CongIs(a: int, b: int)
    ensures Cong(a, b) <==> a % P == b % P
  {
    if Cong(a, b) {
      var k :| a == b + Multiple(k);
      ModUnique(a, b, k);
    }
    if a % P == b % P { assert a == b + Multiple(a / P - b / P); }
  }

  lemma CongMul(a: int, b: int, c: int, d: int)
    requires Cong(a, b) && Cong(c, d)
    ensures Cong(a * c, b * d)
  {
    var k :| a == b + Multiple(k);
    var l :| c == d + Multiple(l);
    assert a * c == b * d + P * (b * l + k * d + k * (P * l));
    assert a * c == b * d + Multiple(b * l + k * d + k * (P * l));
  }

  lemma CongTimes(k: int, a: int, b: int)
    requires Cong(a, b)
    ensures Cong(k * a, k * b)
  {
    hide Cong;
    Reflexive(k);
    CongMul(k, k, a, b);
  }

  lemma CongAdd(a: int, b: int, c: int, d: int)
    requires Cong(a, b) && Cong(c, d)
    ensures Cong(a + c, b + d) && Cong(a - c, b - d)
  {
    var k :| a == b + Multiple(k);
    var l :| c == d + Multiple(l);
    assert a + c == b + d + Multiple(k + l);
    assert a - c == b - d + Multiple(k - l);
  }

  lemma Reflexive(a: int)
    ensures Cong(a, a)
  {
    assert a == a + Multiple(0);
  }

  lemma Reversed(a: int, b: int)
    requires Cong(a, b)
    ensures Cong(b, a)
  {
    var k :| a == b + Multiple(k);
    assert b == a + Multiple(0 - k);
  }

  lemma Trans(a: int, b: int, c: int)
    requires (Cong(a, b) || Cong(b, a)) && (Cong(b, c) || Cong(c, b))
    ensures Cong(a, c) && Cong(c, a)
  {
    CongIs(a, b);
    CongIs(b, a);
    CongIs(b, c);
    CongIs(c, b);
    CongIs(a, c);
    CongIs(c, a);
  }

  // ---- A step of the ladder ----

  /** The field operations, on representatives. */
  lemma Sums(a: int, x: int, b: int, y: int)
    requires Cong(a, x) && Cong(b, y)
    ensures Cong(Add(a, b), x + y) && Cong(Sub(a, b), x - y)
  {
    CongAdd(a, x, b, y);
    CongRest(a + b);
    CongRest(a - b);
    hide Cong;
    Trans(Add(a, b), a + b, x + y);
    Trans(Sub(a, b), a - b, x - y);
  }

  lemma Products(a: int, x: int, b: int, y: int)
    requires Cong(a, x) && Cong(b, y)
    ensures Cong(Mul(a, b), x * y)
  {
    CongMul(a, x, b, y);
    CongRest(a * b);
    hide Cong;
    Trans(Mul(a, b), a * b, x * y);
  }

  lemma CongRest(a: int)
    ensures Cong(a % P, a)
  {
    CongIs(a % P, a);
  }

  ghost predicate SameFraction(q: Fraction, r: Fraction) { Cong(q.x, r.x) && Cong(q.z, r.z) }

  /** One step doubles the first point and adds the two. */
  lemma StepDoublesAndAdds(u: int, s: Ladder)
    requires s.swap == 0
    ensures var l, q, r := Step(u, 0, s), Fraction(s.x2, s.z2), Fraction(s.x3, s.z3);
      SameFraction(Fraction(l.x2, l.z2), Double(q)) && SameFraction(Fraction(l.x3, l.z3), SumOf(u, q, r)) && l.swap == 0
  {
    hide Add, Sub, Mul, Cong;
    var x, z, x', z' := s.x2, s.z2, s.x3, s.z3;
    Reflexive(x);
    Reflexive(z);
    Reflexive(x');
    Reflexive(z');
    Reflexive(u);
    Reflexive(A24);
    Sums(x, x, z, z);
    Sums(x', x', z', z');
    var a, b, c, d := Add(x, z), Sub(x, z), Add(x', z'), Sub(x', z');
    Products(a, x + z, a, x + z);
    Products(b, x - z, b, x - z);
    Doubled(Mul(a, a), Mul(b, b), x, z);
    Products(d, x' - z', a, x + z);
    Products(c, x' + z', b, x - z);
    Added(Mul(d, a), Mul(c, b), u, x, z, x', z');
  }

  lemma Doubled(aa: int, bb: int, x: int, z: int)
    requires Cong(aa, (x + z) * (x + z)) && Cong(bb, (x - z) * (x - z))
    ensures var e := Sub(aa, bb);
      SameFraction(Fraction(Mul(aa, bb), Mul(e, Add(aa, Mul(A24, e)))), Double(Fraction(x, z)))
  {
    hide Add, Sub, Mul, Cong;
    var m, n := (x + z) * (x + z), (x - z) * (x - z);
    var e := Sub(aa, bb);
    Sums(aa, m, bb, n);
    Products(aa, m, bb, n);
    Reflexive(A24);
    Products(A24, A24, e, m - n);
    Sums(aa, m, Mul(A24, e), A24 * (m - n));
    Products(e, m - n, Add(aa, Mul(A24, e)), m + A24 * (m - n));
    DoublingPolynomials(x, z);
  }

  lemma DoublingPolynomials(x: int, z: int)
    ensures var m, n := (x + z) * (x + z), (x - z) * (x - z);
      && m * n == (x * x - z * z) * (x * x - z * z)
      && (m - n) * (m + A24 * (m - n)) == 4 * x * z * (x * x + A * x * z + z * z)
  {
    var m, n := x + z, x - z;
    assert m * n == x * x - z * z;
    assert (m * m) * (n * n) == (m * n) * (m * n);
    assert m * m - n * n == 4 * (x * z);
    assert m * m + A24 * (m * m - n * n) == x * x + A * (x * z) + z * z;
  }

  lemma Added(da: int, cb: int, u: int, x: int, z: int, x': int, z': int)
    requires Cong(da, (x' - z') * (x + z)) && Cong(cb, (x' + z') * (x - z))
    ensures var sum, diff := Add(da, cb), Sub(da, cb);
      SameFraction(Fraction(Mul(sum, sum), Mul(u, Mul(diff, diff))), SumOf(u, Fraction(x, z), Fraction(x', z')))
  {
    hide Add, Sub, Mul, Cong;
    var m, n := (x' - z') * (x + z), (x' + z') * (x - z);
    var sum, diff := Add(da, cb), Sub(da, cb);
    Sums(da, m, cb, n);
    Products(sum, m + n, sum, m + n);
    Products(diff, m - n, diff, m - n);
    Reflexive(u);
    Products(u, u, Mul(diff, diff), (m - n) * (m - n));
    AddingPolynomials(u, x, z, x', z');
  }

  lemma AddingPolynomials(u: int, x: int, z: int, x': int, z': int)
    ensures var m, n := (x' - z') * (x + z), (x' + z') * (x - z);
      && (m + n) * (m + n) == 4 * (x * x' - z * z') * (x * x' - z * z')
      && u * ((m - n) * (m - n)) == 4 * u * (x * z' - z * x') * (x * z' - z * x')
  {
    var m, n := (x' - z') * (x + z), (x' + z') * (x - z);
    var p, q := x * x' - z * z', x * z' - z * x';
    assert m + n == 2 * p;
    assert m - n == 0 - 2 * q;
    assert (2 * p) * (2 * p) == 4 * (p * p);
    assert (0 - 2 * q) * (0 - 2 * q) == 4 * (q * q);
    assert 4 * p * p == 4 * (p * p);
    assert u * (4 * (q * q)) == 4 * u * q * q;
  }

  // ---- The group law ----

  datatype Point = Infinity | Affine(u: int, v: int)

  ghost predicate OnCurve(p: Point) {
    p.Affine? ==> Cong(p.v * p.v, p.u * p.u * p.u + A * p.u * p.u + p.u)
  }

  ghost predicate Same(p: Point, q: Point) {
    (p.Infinity? && q.Infinity?) || (p.Affine? && q.Affine? && Cong(p.u, q.u) && Cong(p.v, q.v))
  }

  function Negative(p: Point): Point {
    match p
    case Infinity => Infinity
    case Affine(u, v) => Affine(u, 0 - v)
  }

  /** w is the inverse of the denominator of the tangent's slope, and of the chord's. */
  ghost predicate IsTangent(p: Point, w: int)
    requires p.Affine?
  {
    Cong(2 * p.v * w, 1)
  }

  ghost predicate IsChord(p: Point, q: Point, w: int)
    requires p.Affine? && q.Affine?
  {
    Cong((q.u - p.u) * w, 1)
  }

  /** d is p + p, by the tangent in p. */
  ghost predicate IsDouble(p: Point, d: Point) {
    if p.Infinity? || Cong(2 * p.v, 0) then d.Infinity?
    else exists w :: IsTangent(p, w) && OnLine(p, p, (3 * p.u * p.u + 2 * A * p.u + 1) * w, d)
  }

  /** s is p + q, by the chord through both. */
  ghost predicate IsSum(p: Point, q: Point, s: Point) {
    if p.Infinity? then Same(s, q)
    else if q.Infinity? then Same(s, p)
    else if Cong(p.u, q.u) then
      if Cong(p.v + q.v, 0) then s.Infinity? else Cong(p.v, q.v) && IsDouble(p, s)
    else exists w :: IsChord(p, q, w) && OnLine(p, q, (q.v - p.v) * w, s)
  }

  /** The line through p and q with this slope meets the curve a third time in the negative of s. */
  ghost predicate OnLine(p: Point, q: Point, slope: int, s: Point)
    requires p.Affine? && q.Affine?
  {
    && s.Affine? && Cong(s.u, slope * slope - A - p.u - q.u)
    && Cong(s.v, slope * (p.u - s.u) - p.v)
  }

  /** q is the u-coordinate of p. */
  ghost predicate Is(q: Fraction, p: Point) {
    match p
    case Infinity => Cong(q.z, 0)
    case Affine(u, _) => Cong(q.x, u * q.z)
  }

  // ---- The formulas follow the group law ----

  /** Doubling, with u * z for x. */
  lemma DoubleAffine(x: int, z: int, u: int)
    requires Cong(x, u * z)
    ensures Cong(Double(Fraction(x, z)).x, (u * u - 1) * (u * u - 1) * (z * z * (z * z)))
    ensures Cong(Double(Fraction(x, z)).z, 4 * Cubic(A, u) * (z * z * (z * z)))
  {
    DoubleX(u, z);
    DoubleZ(A, u, z);
    hide Cubic, Cong;
    DoubleNumerator(x, u * z, z * z);
    DoubleDenominator(x, u * z, z, A * z);
    assert A * x * z == x * (A * z);
  }

  lemma DoubleNumerator(x: int, y: int, zz: int)
    requires Cong(x, y)
    ensures Cong((x * x - zz) * (x * x - zz), (y * y - zz) * (y * y - zz))
  {
    hide Cong;
    CongMul(x, y, x, y);
    Reflexive(zz);
    CongAdd(x * x, y * y, zz, zz);
    CongMul(x * x - zz, y * y - zz, x * x - zz, y * y - zz);
  }

  lemma DoubleDenominator(x: int, y: int, z: int, a: int)
    requires Cong(x, y)
    ensures Cong(4 * x * z * (x * x + x * a + z * z), 4 * z * y * (y * y + y * a + z * z))
  {
    hide Cong;
    var zz := z * z;
    Quadratic(x, y, a, zz);
    CongTimes(4 * z, x, y);
    CongMul(4 * z * x, 4 * z * y, x * x + x * a + zz, y * y + y * a + zz);
    assert 4 * x * z == 4 * z * x;
  }

  lemma Quadratic(x: int, y: int, a: int, zz: int)
    requires Cong(x, y)
    ensures Cong(x * x + x * a + zz, y * y + y * a + zz)
  {
    hide Cong;
    CongMul(x, y, x, y);
    Reflexive(a);
    CongMul(x, y, a, a);
    CongAdd(x * x, y * y, x * a, y * a);
    Reflexive(zz);
    CongAdd(x * x + x * a, y * y + y * a, zz, zz);
  }

  /** Adding, with u * z for x in both. */
  lemma SumAffine(d: int, q: Fraction, u: int, r: Fraction, u': int)
    requires Cong(q.x, u * q.z) && Cong(r.x, u' * r.z)
    ensures var c := q.z * r.z;
      && Cong(SumOf(d, q, r).x, 4 * ((u * u' - 1) * c) * ((u * u' - 1) * c))
      && Cong(SumOf(d, q, r).z, 4 * d * ((u - u') * c) * ((u - u') * c))
  {
    CrossX(u, q.z, u', r.z);
    CrossZ(u, q.z, u', r.z);
    hide Cong;
    var x, x', z, z' := q.x, r.x, q.z, r.z;
    var y, y' := u * z, u' * z';
    CongMul(x, y, x', y');
    Reflexive(z * z');
    CongAdd(x * x', y * y', z * z', z * z');
    SquareTimes(4, x * x' - z * z', (u * u' - 1) * (z * z'));
    CongTimes(z', x, y);
    CongTimes(z, x', y');
    CongAdd(z' * x, z' * y, z * x', z * y');
    assert z' * x == x * z' && z' * y == y * z';
    SquareTimes(4 * d, x * z' - z * x', (u - u') * (z * z'));
  }

  lemma SquareTimes(k: int, a: int, b: int)
    requires Cong(a, b)
    ensures Cong(k * a * a, k * b * b)
  {
    hide Cong;
    CongTimes(k, a, b);
    CongMul(k * a, k * b, a, b);
  }

  /** A slope n / m, squared, for m with inverse w: what comes of clearing the denominator. */
  lemma ClearSlope(n: int, m: int, w: int, c: int, s: int)
    requires Cong(m * w, 1) && Cong(s, n * w * (n * w) - c)
    ensures Cong(s * (m * m), n * n - c * (m * m))
  {
    hide Cong;
    var mm, e := m * m, m * w;
    Reflexive(mm);
    CongMul(s, n * w * (n * w) - c, mm, mm);
    SlopeTerms(n, m, w, c);
    CongMul(e, 1, e, 1);
    CongTimes(n * n, e * e, 1);
    Reflexive(c * mm);
    CongAdd(n * n * (e * e), n * n * 1, c * mm, c * mm);
    Trans(s * mm, n * n * (e * e) - c * mm, n * n - c * mm);
  }

  lemma SlopeTerms(n: int, m: int, w: int, c: int)
    ensures (n * w * (n * w) - c) * (m * m) == n * n * ((m * w) * (m * w)) - c * (m * m)
  {
    assert n * w * (n * w) == n * n * (w * w);
    assert (m * w) * (m * w) == (m * m) * (w * w);
    assert n * n * (w * w) * (m * m) == n * n * ((m * m) * (w * w));
    assert (n * n * (w * w) - c) * (m * m) == n * n * (w * w) * (m * m) - c * (m * m);
  }

  /** The tangent at a point (u, v) that is not its own negative. */
  lemma TangentLaw(a: int, u: int, v: int, w: int, s: int)
    requires Cong(v * v, Cubic(a, u)) && Cong(2 * v * w, 1)
    requires var n := 3 * u * u + 2 * a * u + 1; Cong(s, n * w * (n * w) - (a + u + u))
    ensures Cong((u * u - 1) * (u * u - 1), s * (4 * Cubic(a, u)))
  {
    Tangent(a, u);
    hide Cong, Cubic;
    ClearSlope(3 * u * u + 2 * a * u + 1, 2 * v, w, a + u + u, s);
    FourTimesSquare(v);
    CongTimes(4, v * v, Cubic(a, u));
    var n := 3 * u * u + 2 * a * u + 1;
    Substitute(s, 2 * v * (2 * v), n * n, a + u + u, 4 * Cubic(a, u), (u * u - 1) * (u * u - 1));
  }

  lemma FourTimesSquare(v: int)
    ensures 2 * v * (2 * v) == 4 * (v * v)
  {}

  lemma Substitute(s: int, m: int, n: int, c: int, f: int, e: int)
    requires Cong(m, f) && Cong(s * m, n - c * m) && n - c * f == e
    ensures Cong(e, s * f)
  {
    hide Cong;
    CongTimes(s, m, f);
    CongTimes(c, m, f);
    Reflexive(n);
    CongAdd(n, n, c * m, c * f);
    Trans(s * f, s * m, n - c * m);
    Trans(s * f, n - c * m, e);
  }

  /** The chords from (u1, v1) to (u2, v2) and to its negative. */
  lemma ChordLaw(a: int, u1: int, v1: int, u2: int, v2: int, w: int, s: int, w': int, t: int)
    requires Cong(v1 * v1, Cubic(a, u1)) && Cong(v2 * v2, Cubic(a, u2))
    requires Cong((u2 - u1) * w, 1) && Cong(s, (v2 - v1) * w * ((v2 - v1) * w) - (a + u1 + u2))
    requires Cong((u2 - u1) * w', 1) && Cong(t, (v2 + v1) * w' * ((v2 + v1) * w') - (a + u1 + u2))
    ensures Cong((u1 * u2 - 1) * (u1 * u2 - 1), s * t * ((u2 - u1) * (u2 - u1)))
  {
    hide Cong, Cubic;
    var m, c := u2 - u1, a + u1 + u2;
    ClearSlope(v2 - v1, m, w, c, s);
    ClearSlope(v2 + v1, m, w', c, t);
    ChordProduct(a, u1, v1, u2, v2);
    Multiply(s, t, m, w, (v2 - v1) * (v2 - v1) - c * (m * m), (v2 + v1) * (v2 + v1) - c * (m * m),
             (u1 * u2 - 1) * (u1 * u2 - 1));
  }

  lemma Multiply(s: int, t: int, m: int, w: int, b: int, b': int, e: int)
    requires Cong(m * w, 1) && Cong(s * (m * m), b) && Cong(t * (m * m), b') && Cong(b * b', e * (m * m))
    ensures Cong(e, s * t * (m * m))
  {
    hide Cong;
    var mm := m * m;
    CongMul(s * mm, b, t * mm, b');
    Trans(s * mm * (t * mm), b * b', e * mm);
    Exchange(s, mm, t, mm);
    assert s * mm * (t * mm) == s * t * mm * (m * m);
    CancelSquare(s * t * mm, e, m, w);
  }

  /** An invertible square cancels. */
  lemma CancelSquare(a: int, b: int, m: int, w: int)
    requires Cong(m * w, 1) && Cong(a * (m * m), b * (m * m))
    ensures Cong(b, a)
  {
    hide Cong;
    var mm, ww, e := m * m, w * w, m * w;
    CongTimes(ww, a * mm, b * mm);
    Exchange(m, w, m, w);
    CongMul(e, 1, e, 1);
    CongTimes(a, e * e, 1);
    CongTimes(b, e * e, 1);
    assert ww * (a * mm) == a * (mm * ww) && ww * (b * mm) == b * (mm * ww);
    Trans(a, a * (e * e), b * (e * e));
    Trans(a, b * (e * e), b);
  }

  lemma ChordProduct(a: int, u1: int, v1: int, u2: int, v2: int)
    requires Cong(v1 * v1, Cubic(a, u1)) && Cong(v2 * v2, Cubic(a, u2))
    ensures var k := (a + u1 + u2) * ((u2 - u1) * (u2 - u1));
      Cong(((v2 - v1) * (v2 - v1) - k) * ((v2 + v1) * (v2 + v1) - k),
           (u1 * u2 - 1) * (u1 * u2 - 1) * ((u2 - u1) * (u2 - u1)))
  {
    Chords(a, u1, u2);
    hide Cong, Cubic;
    var k := (a + u1 + u2) * ((u2 - u1) * (u2 - u1));
    Conjugates(v2, v1, k);
    SubstituteBoth(v2 * v2, v1 * v1, k, Cubic(a, u2), Cubic(a, u1));
    assert Cubic(a, u2) * Cubic(a, u1) == Cubic(a, u1) * Cubic(a, u2);
    assert Cubic(a, u2) + Cubic(a, u1) - k == Cubic(a, u1) + Cubic(a, u2) - k;
  }

  lemma SubstituteBoth(f: int, f': int, k: int, g: int, g': int)
    requires Cong(f, g) && Cong(f', g')
    ensures Cong((f + f' - k) * (f + f' - k) - 4 * (f * f'), (g + g' - k) * (g + g' - k) - 4 * (g * g'))
  {
    hide Cong;
    Reflexive(k);
    CongAdd(f, g, f', g');
    CongAdd(f + f', g + g', k, k);
    CongMul(f + f' - k, g + g' - k, f + f' - k, g + g' - k);
    CongMul(f, g, f', g');
    CongTimes(4, f * f', g * g');
    CongAdd((f + f' - k) * (f + f' - k), (g + g' - k) * (g + g' - k), 4 * (f * f'), 4 * (g * g'));
  }

  /** The doubling formula gives the double. */
  lemma DoubleIs(q: Fraction, p: Point, d: Point)
    requires OnCurve(p) && Is(q, p) && IsDouble(p, d)
    ensures Is(Double(q), d)
  {
    var z4 := q.z * q.z * (q.z * q.z);
    if p.Infinity? {
      DoubleInfinity(q);
    } else if Cong(2 * p.v, 0) {
      DoubleAffine(q.x, q.z, p.u);
      NoDouble(p.u, p.v, z4);
      Trans(Double(q).z, 4 * Cubic(A, p.u) * z4, 0);
    } else {
      var w :| IsTangent(p, w) && OnLine(p, p, (3 * p.u * p.u + 2 * A * p.u + 1) * w, d);
      DoubleAffine(q.x, q.z, p.u);
      TangentLaw(A, p.u, p.v, w, d.u);
      hide Cong, Cubic;
      Project(Double(q), (p.u * p.u - 1) * (p.u * p.u - 1), 4 * Cubic(A, p.u), z4, d.u);
    }
  }

  lemma DoubleInfinity(q: Fraction)
    requires Cong(q.z, 0)
    ensures Cong(Double(q).z, 0)
  {
    hide Cong;
    var x, z := q.x, q.z;
    var k := 4 * x * (x * x + A * x * z + z * z);
    ZeroFactor(k, z);
    assert k * z == 4 * x * z * (x * x + A * x * z + z * z);
  }

  /** Numerator and denominator have a common factor k. */
  lemma Project(q: Fraction, e: int, f: int, k: int, u: int)
    requires Cong(q.x, e * k) && Cong(q.z, f * k) && Cong(e, u * f)
    ensures Cong(q.x, u * q.z)
  {
    hide Cong;
    CongTimes(k, e, u * f);
    assert k * e == e * k && k * (u * f) == u * (f * k);
    CongTimes(u, q.z, f * k);
    Trans(q.x, e * k, u * (f * k));
    Trans(q.x, u * (f * k), u * q.z);
  }

  lemma ZeroFactor(k: int, a: int)
    requires Cong(a, 0)
    ensures Cong(k * a, 0)
  {
    hide Cong;
    CongTimes(k, a, 0);
  }

  lemma NoDouble(u: int, v: int, z4: int)
    requires Cong(v * v, Cubic(A, u)) && Cong(2 * v, 0)
    ensures Cong(4 * Cubic(A, u) * z4, 0)
  {
    hide Cong, Cubic;
    CongMul(2 * v, 0, 2 * v, 0);
    FourTimesSquare(v);
    CongTimes(4, v * v, Cubic(A, u));
    Trans(4 * Cubic(A, u), 4 * (v * v), 0);
    ZeroFactor(z4, 4 * Cubic(A, u));
    assert z4 * (4 * Cubic(A, u)) == 4 * Cubic(A, u) * z4;
  }

  /** The addition formula gives the sum, if the difference has coordinate u. */
  lemma SumIs(u: int, q: Fraction, r: Fraction, p: Point, p': Point, s: Point, difference: Point)
    ensures OnCurve(p) && OnCurve(p') && Is(q, p) && Is(r, p') && IsSum(p, p', s) &&
            IsSum(p', Negative(p), difference) && difference.Affine? && Cong(difference.u, u) ==>
              Is(SumOf(u, q, r), s)
  {
    if OnCurve(p) && OnCurve(p') && Is(q, p) && Is(r, p') && IsSum(p, p', s)
       && IsSum(p', Negative(p), difference) && difference.Affine? && Cong(difference.u, u)
    {
      hide SumOf, OnLine, IsDouble, Cong;
      if p.Infinity? {
        SameIs(r, p', s);
        Trans(s.u, p'.u, difference.u);
        Trans(s.u, difference.u, u);
        WithInfinity(u, q, r, s.u);
      } else if p'.Infinity? {
        SumSymmetric(u, q, r);
        SameIs(q, p, s);
        Trans(s.u, p.u, difference.u);
        Trans(s.u, difference.u, u);
        WithInfinity(u, r, q, s.u);
      } else if Cong(p.u, p'.u) {
        if !Cong(p.v + p'.v, 0) { NotItself(p, p', difference); }
        Opposite(u, q, r, p, p');
      } else {
        ChordIs(u, q, r, p, p', s, difference);
      }
    }
  }

  lemma SameIs(q: Fraction, p: Point, s: Point)
    requires Is(q, p) && Same(s, p)
    ensures Is(q, s)
  {
    hide Cong;
    if p.Affine? {
      CongTimes(q.z, s.u, p.u);
      assert q.z * s.u == s.u * q.z && q.z * p.u == p.u * q.z;
      Trans(q.x, p.u * q.z, s.u * q.z);
    }
  }

  lemma NotItself(p: Point, p': Point, difference: Point)
    requires p.Affine? && p'.Affine? && Cong(p.u, p'.u) && Cong(p.v, p'.v)
    requires IsSum(p', Negative(p), difference)
    ensures difference.Infinity?
  {
    hide IsDouble, OnLine, Cong;
    Reflexive(p.v);
    Reversed(p.u, p'.u);
    Reversed(p.v, p'.v);
    CongAdd(p'.v, p.v, p.v, p.v);
  }

  lemma SumSymmetric(u: int, q: Fraction, r: Fraction)
    ensures SumOf(u, q, r) == SumOf(u, r, q)
  {
    var a, b := q.x * r.z - q.z * r.x, q.x * r.x - q.z * r.z;
    assert r.x * q.z - r.z * q.x == 0 - a;
    assert r.x * q.x - r.z * q.z == b;
    assert 4 * u * a * a == 4 * u * (0 - a) * (0 - a);
  }

  lemma WithInfinity(u: int, q: Fraction, r: Fraction, u': int)
    requires Cong(q.z, 0) && Cong(r.x, u' * r.z) && Cong(u', u)
    ensures Cong(SumOf(u, q, r).x, u' * SumOf(u, q, r).z)
  {
    hide Cong;
    var c := q.x * r.z;
    CongTimes(q.x, r.x, u' * r.z);
    ZeroFactor(r.z, q.z);
    assert r.z * q.z == q.z * r.z && q.x * (u' * r.z) == u' * c;
    CongAdd(q.x * r.x, u' * c, q.z * r.z, 0);
    SquareTimes(4, q.x * r.x - q.z * r.z, u' * c);
    ZeroFactor(r.x, q.z);
    assert r.x * q.z == q.z * r.x;
    Reflexive(c);
    CongAdd(c, c, q.z * r.x, 0);
    SquareTimes(4 * u, c - q.z * r.x, c);
    SwapFactors(u', u, c);
    CongTimes(u', u', u);
    Project(SumOf(u, q, r), u' * u', u, 4 * c * c, u');
  }

  lemma SwapFactors(u': int, u: int, c: int)
    ensures 4 * (u' * c) * (u' * c) == u' * u' * (4 * c * c) && 4 * u * c * c == u * (4 * c * c)
  {}

  lemma Opposite(u: int, q: Fraction, r: Fraction, p: Point, p': Point)
    requires p.Affine? && p'.Affine? && Is(q, p) && Is(r, p') && Cong(p.u, p'.u)
    ensures Cong(SumOf(u, q, r).z, 0)
  {
    SumAffine(u, q, p.u, r, p'.u);
    hide Cong;
    var m, c := p.u - p'.u, q.z * r.z;
    Reflexive(p'.u);
    CongAdd(p.u, p'.u, p'.u, p'.u);
    ZeroFactor(4 * u * (m * c) * c, m);
    assert 4 * u * (m * c) * c * m == 4 * u * (m * c) * (m * c);
    Trans(SumOf(u, q, r).z, 4 * u * (m * c) * (m * c), 0);
  }

  lemma ChordIs(u: int, q: Fraction, r: Fraction, p: Point, p': Point, s: Point, difference: Point)
    requires p.Affine? && p'.Affine?
    ensures OnCurve(p) && OnCurve(p') && Is(q, p) && Is(r, p') && !Cong(p.u, p'.u) && IsSum(p, p', s) &&
            IsSum(p', Negative(p), difference) && difference.Affine? && Cong(difference.u, u) ==>
              s.Affine? && Cong(SumOf(u, q, r).x, s.u * SumOf(u, q, r).z)
  {
    if OnCurve(p) && OnCurve(p') && Is(q, p) && Is(r, p') && !Cong(p.u, p'.u) && IsSum(p, p', s)
       && IsSum(p', Negative(p), difference) && difference.Affine? && Cong(difference.u, u)
    {
      ChordSlopes(p, p', s, difference);
      SumAffine(u, q, p.u, r, p'.u);
      hide Cong, IsSum, OnCurve, SumOf;
      var mm, c := (p'.u - p.u) * (p'.u - p.u), q.z * r.z;
      var e := (p.u * p'.u - 1) * (p.u * p'.u - 1);
      CommonFactor(p.u, p'.u, u, c);
      Finish(SumOf(u, q, r), e, mm, s.u, difference.u, u, 4 * c * c);
    }
  }

  lemma Finish(q: Fraction, e: int, m: int, s: int, d: int, u: int, k: int)
    requires Cong(e, s * d * m) && Cong(d, u) && Cong(q.x, e * k) && Cong(q.z, u * m * k)
    ensures Cong(q.x, s * q.z)
  {
    hide Cong;
    CongTimes(s * m, d, u);
    assert s * m * d == s * d * m && s * m * u == s * (u * m);
    Trans(e, s * d * m, s * (u * m));
    Project(q, e, u * m, k, s);
  }

  lemma ChordSlopes(p: Point, p': Point, s: Point, difference: Point)
    requires p.Affine? && p'.Affine? && OnCurve(p) && OnCurve(p') && !Cong(p.u, p'.u)
    requires IsSum(p, p', s) && IsSum(p', Negative(p), difference) && difference.Affine?
    ensures s.Affine?
    ensures Cong((p.u * p'.u - 1) * (p.u * p'.u - 1),
                 s.u * difference.u * ((p'.u - p.u) * (p'.u - p.u)))
  {
    hide IsDouble, Cong;
    var n := Negative(p);
    if Cong(p'.u, n.u) { Reversed(p'.u, p.u); }
    var w :| IsChord(p, p', w) && OnLine(p, p', (p'.v - p.v) * w, s);
    var w' :| IsChord(p', n, w') && OnLine(p', n, (n.v - p'.v) * w', difference);
    NegativeSlope(p.u, p'.u, p.v, p'.v, w');
    ChordLaw(A, p.u, p.v, p'.u, p'.v, w, s.u, 0 - w', difference.u);
  }

  lemma NegativeSlope(u: int, u': int, v: int, v': int, w: int)
    ensures (u - u') * w == (u' - u) * (0 - w)
    ensures (0 - v - v') * w * ((0 - v - v') * w) == (v' + v) * (0 - w) * ((v' + v) * (0 - w))
  {
    assert (0 - v - v') * w == (v' + v) * (0 - w);
  }

  lemma CommonFactor(u: int, u': int, d: int, c: int)
    ensures 4 * ((u * u' - 1) * c) * ((u * u' - 1) * c) == (u * u' - 1) * (u * u' - 1) * (4 * c * c)
    ensures 4 * d * ((u - u') * c) * ((u - u') * c) == d * ((u' - u) * (u' - u)) * (4 * c * c)
  {
    var m := u - u';
    assert (u' - u) * (u' - u) == m * m;
    assert 4 * d * (m * c) * (m * c) == d * (m * m) * (4 * c * c);
  }

  // ---- The ladder ----

  /** The laws of the multiples at n. */
  ghost predicate LawsAt(T: nat -> Point, n: nat) {
    && OnCurve(T(n)) && IsDouble(T(n), T(2 * n)) && IsSum(T(n), T(n + 1), T(2 * n + 1))
    && IsSum(T(n + 1), Negative(T(n)), T(1))
  }

  /** T(n) is n times T(1), whose coordinate is u. */
  ghost predicate Multiples(T: nat -> Point, u: int) {
    T(0).Infinity? && T(1).Affine? && Cong(T(1).u, u) && forall n: nat :: LawsAt(T, n)
  }

  /** The two points of the ladder, with the pending swap made, are T(n) and T(n + 1). */
  ghost predicate Holds(T: nat -> Point, s: Ladder, n: nat) {
    && (s.swap == 0 || s.swap == 1)
    && Is(Fraction(Swap(s.swap, s).x2, Swap(s.swap, s).z2), T(n))
    && Is(Fraction(Swap(s.swap, s).x3, Swap(s.swap, s).z3), T(n + 1))
  }

  lemma Laws(T: nat -> Point, u: int, n: nat)
    requires Multiples(T, u)
    ensures LawsAt(T, n) && T(1).Affine? && Cong(T(1).u, u)
  {
    hide LawsAt;
  }

  /** An iteration of the ladder is a swap followed by the arithmetic. */
  lemma StepSplit(u: int, kt: int, s: Ladder)
    requires s.swap == 0 || s.swap == 1
    requires kt == 0 || kt == 1
    ensures Step(u, kt, s) == Step(u, 0, Swap(if s.swap == kt then 0 else 1, s).(swap := 0)).(swap := kt)
  {
    hide Add, Sub, Mul;
  }

  /** A step for bit b goes from n to 2 n + b. */
  lemma StepMultiplies(T: nat -> Point, u: int, b: int, s: Ladder, n: nat)
    requires Multiples(T, u) && Holds(T, s, n) && (b == 0 || b == 1)
    ensures Holds(T, Step(u, b, s), 2 * n + b)
  {
    hide Multiples, OnCurve, IsDouble, IsSum, Is, Cong, Double, SumOf, Step, SameFraction;
    var r := Swap(if s.swap == b then 0 else 1, s).(swap := 0);
    StepSplit(u, b, s);
    StepDoublesAndAdds(u, r);
    var q, q' := Fraction(Swap(s.swap, s).x2, Swap(s.swap, s).z2), Fraction(Swap(s.swap, s).x3, Swap(s.swap, s).z3);
    Laws(T, u, n);
    Laws(T, u, n + 1);
    SumIs(u, q, q', T(n), T(n + 1), T(2 * n + 1), T(1));
    SumSymmetric(u, q, q');
    var l := Step(u, 0, r);
    SameFractionIs(Fraction(l.x3, l.z3), SumOf(u, q, q'), T(2 * n + 1));
    if b == 0 {
      DoubleIs(q, T(n), T(2 * n));
      SameFractionIs(Fraction(l.x2, l.z2), Double(q), T(2 * n));
    } else {
      DoubleIs(q', T(n + 1), T(2 * (n + 1)));
      SameFractionIs(Fraction(l.x2, l.z2), Double(q'), T(2 * (n + 1)));
    }
  }

  lemma SameFractionIs(q: Fraction, r: Fraction, p: Point)
    requires SameFraction(q, r) && Is(r, p)
    ensures Is(q, p)
  {
    hide Cong;
    if p.Affine? {
      CongTimes(p.u, q.z, r.z);
      Trans(q.x, r.x, p.u * r.z);
      Trans(q.x, p.u * r.z, p.u * q.z);
    } else {
      Trans(q.z, r.z, 0);
    }
  }

  /** The number with the t low bits of k after those of n. */
  function Extended(n: nat, k: nat, t: nat): nat { n * Pow2(t) + k % Pow2(t) }

  /** So the loop goes on from n to the bits of k below t. */
  lemma {:induction false} LoopMultiplies(T: nat -> Point, u: int, k: nat, t: nat, s: Ladder, n: nat)
    ensures Multiples(T, u) && Holds(T, s, n) ==> Holds(T, Loop(k, u, t, s), Extended(n, k, t))
    decreases t
  {
    hide Multiples, Holds, Step, Extended, Bit;
    NoBits(n, k);
    if t > 0 && Multiples(T, u) && Holds(T, s, n) {
      NextBits(k, t, n);
      var b := Bit(k, t - 1);
      StepMultiplies(T, u, b, s, n);
      LoopMultiplies(T, u, k, t - 1, Step(u, b, s), 2 * n + b);
    }
  }

  lemma NoBits(n: nat, k: nat)
    ensures Extended(n, k, 0) == n
  {}

  lemma AllBits(k: nat, t: nat)
    requires k < Pow2(t)
    ensures Extended(0, k, t) == k
  {
    ModIs(k, Pow2(t), 0, k);
  }

  lemma NextBits(k: nat, t: nat, n: nat)
    requires t > 0
    ensures Bit(k, t - 1) == 0 || Bit(k, t - 1) == 1
    ensures Extended(n, k, t) == Extended(2 * n + Bit(k, t - 1), k, t - 1)
  {
    var m := Pow2(t - 1);
    var q, r := k / m, k % m;
    assert k == (2 * m) * (q / 2) + (m * (q % 2) + r);
    assert 0 <= m * (q % 2) <= m;
    ModIs(k, 2 * m, q / 2, m * (q % 2) + r);
    assert (2 * n + q % 2) * m == n * (2 * m) + m * (q % 2);
  }

  /** The whole ladder: x2 / z2 is the coordinate of k times the point, for every k of 255 bits. */
  lemma LadderMultiplies(T: nat -> Point, u: int, k: nat)
    requires Multiples(T, u) && k < Pow2(255)
    ensures var l := Loop(k, u, 255, Ladder(1, 0, u, 1, 0));
      Is(Fraction(Swap(l.swap, l).x2, Swap(l.swap, l).z2), T(k))
  {
    hide Loop, Pow2, Multiples, Is, Extended;
    Starts(T, u);
    AllBits(k, 255);
    LoopMultiplies(T, u, k, 255, Ladder(1, 0, u, 1, 0), 0);
  }

  lemma Starts(T: nat -> Point, u: int)
    requires Multiples(T, u)
    ensures Holds(T, Ladder(1, 0, u, 1, 0), 0)
  {
    Reversed(T(1).u, u);
    Reflexive(0);
  }

  /** There are such points: the one with coordinate 0 is its own negative. */
  function OrderTwo(n: nat): Point { if n % 2 == 0 then Infinity else Affine(0, 0) }

  lemma OrderTwoMultiplies()
    ensures Multiples(OrderTwo, 0)
  {
    hide OnCurve, IsDouble, IsSum, Negative, OrderTwo;
    OrderTwoStarts();
    forall n: nat
      ensures LawsAt(OrderTwo, n)
    {
      OrderTwoLaws();
      OrderTwoAt(n);
    }
  }

  lemma OrderTwoStarts()
    ensures OrderTwo(0) == Infinity && OrderTwo(1) == Affine(0, 0) && Cong(0, 0)
  {
    Reflexive(0);
  }

  lemma OrderTwoAt(n: nat)
    ensures OrderTwo(2 * n) == Infinity && OrderTwo(2 * n + 1) == OrderTwo(1) == Affine(0, 0)
    ensures (OrderTwo(n) == Infinity && OrderTwo(n + 1) == Affine(0, 0))
         || (OrderTwo(n) == Affine(0, 0) && OrderTwo(n + 1) == Infinity)
  {
    Parity(n);
  }

  lemma OrderTwoLaws()
    ensures var p := Affine(0, 0);
      && OnCurve(Infinity) && OnCurve(p) && IsDouble(Infinity, Infinity) && IsDouble(p, Infinity)
      && IsSum(Infinity, p, p) && IsSum(p, Infinity, p)
      && IsSum(p, Negative(Infinity), p) && IsSum(Infinity, Negative(p), p)
  {
    Reflexive(0);
    hide Cong;
  }

  lemma Parity(n: nat)
    ensures (2 * n) % 2 == 0 && (2 * n + 1) % 2 == 1 && (n + 1) % 2 == 1 - n % 2
  {
    ModIs(2 * n, 2, n, 0);
    ModIs(2 * n + 1, 2, n, 1);
    if n % 2 == 0 { ModIs(n + 1, 2, n / 2, 1); } else { ModIs(n + 1, 2, n / 2 + 1, 0); }
  }

  // ---- The function ----

  /** The coordinate before the division. */
  function Quotient(k: int, u: int): Fraction {
    var l := Loop(k, u, 255, Ladder(1, 0, u, 1, 0));
    Fraction(Swap(l.swap, l).x2, Swap(l.swap, l).z2)
  }

  /** The function of RFC 7748 gives the coordinate of as many times the point as the scalar says; for the point at
      infinity it gives 0. */
  lemma X25519Multiplies(T: nat -> Point, k: seq<int>, u: seq<int>)
    requires |k| == |u| == 32 && IsBytes(k) && Multiples(T, DecodeU(u) % P)
    ensures DecodeScalar(k) >= 0
    ensures var q, p := Quotient(DecodeScalar(k), DecodeU(u) % P), T(DecodeScalar(k));
      && Is(q, p)
      && X25519(k, u) == EncodeU(Mul(q.x, Pow(q.z, P - 2)))
      && (p.Infinity? ==> X25519(k, u) == EncodeU(0))
      && (p.Affine? && Mul(q.z, Pow(q.z, P - 2)) == 1 ==> X25519(k, u) == EncodeU(p.u))
  {
    hide Multiples, Is, Mul, Pow, DecodeScalar, DecodeU, EncodeU, Loop, Quotient, Cong, Pow2, X25519;
    ScalarIs(k);
    var n, v := DecodeScalar(k), DecodeU(u) % P;
    LadderMultiplies(T, v, n);
    FunctionIs(k, u);
    QuotientIs(T, v, n);
    Divided(Quotient(n, v), T(n), Pow(Quotient(n, v).z, P - 2));
    ZeroPower(Quotient(n, v).z, P - 2);
  }

  lemma FunctionIs(k: seq<int>, u: seq<int>)
    requires |k| == |u| == 32
    ensures var q := Quotient(DecodeScalar(k), DecodeU(u) % P);
      X25519(k, u) == EncodeU(Mul(q.x, Pow(q.z, P - 2)))
  {
    hide Mul, Pow, DecodeScalar, DecodeU, EncodeU, Loop;
  }

  lemma QuotientIs(T: nat -> Point, u: int, k: nat)
    requires var l := Loop(k, u, 255, Ladder(1, 0, u, 1, 0));
      Is(Fraction(Swap(l.swap, l).x2, Swap(l.swap, l).z2), T(k))
    ensures Is(Quotient(k, u), T(k))
  {
    hide Loop, Is, Swap;
  }

  lemma ZeroPower(z: int, n: nat)
    requires n > 0
    ensures Cong(z, 0) ==> Pow(z, n) == 0
  {
    var r := Pow(z, n - 1);
    if Cong(z, 0) {
      ZeroFactor(r, z);
      assert r * z == z * r;
    }
  }

  lemma Divided(q: Fraction, p: Point, w: int)
    requires Is(q, p)
    ensures p.Affine? && Mul(q.z, w) == 1 ==> EncodeU(Mul(q.x, w)) == EncodeU(p.u)
    ensures p.Infinity? ==> Cong(q.z, 0)
    ensures w == 0 ==> EncodeU(Mul(q.x, w)) == EncodeU(0)
  {
    if p.Affine? && Mul(q.z, w) == 1 {
      InverseIs(q.z, w);
      ProductIs(q, p.u, w);
      EncodesRest(q.x * w, p.u);
    }
    hide EncodeU, Is, Cong;
  }

  lemma InverseIs(z: int, w: int)
    requires Mul(z, w) == 1
    ensures Cong(z * w, 1)
  {
    ModIs(1, P, 0, 1);
    CongIs(z * w, 1);
  }

  lemma ProductIs(q: Fraction, u: int, w: int)
    requires Cong(q.x, u * q.z) && Cong(q.z * w, 1)
    ensures Cong(q.x * w, u)
  {
    hide Cong;
    CongTimes(w, q.x, u * q.z);
    CongTimes(u, q.z * w, 1);
    assert w * q.x == q.x * w && w * (u * q.z) == u * (q.z * w);
    Trans(q.x * w, u * (q.z * w), u);
  }

  lemma EncodeUIs(u: int)
    ensures EncodeU(u) == EncodeLittleEndian(u % P, 32)
  {
    hide EncodeLittleEndian;
  }

  lemma EncodesRest(a: int, u: int)
    requires Cong(a, u)
    ensures EncodeU(a % P) == EncodeU(u)
  {
    hide EncodeLittleEndian, Cong;
    CongIs(a, u);
    CongRest(a);
    CongIs(a % P, a);
    EncodeUIs(a % P);
    EncodeUIs(u);
  }
}
