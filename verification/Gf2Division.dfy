/** Division of polynomials over GF(2) by the generator polynomial of clause 3.2.9 of IEEE 802.3.
    A polynomial is the list of its coefficients, highest power first. */
module Gf2Division {
  type Poly = seq<bool>

  /** The generator has degree 32; these are the powers with coefficient one. */
  predicate GeneratorTerm(power: int) {
    power in {32, 26, 23, 22, 16, 12, 11, 10, 8, 7, 5, 4, 2, 1, 0}
  }

  /** The generator times a power of x, as a polynomial of length n. */
  function Generator(n: nat): (g: Poly)
    requires 33 <= n
    ensures |g| == n && g[0]
  {
    seq(n, i => GeneratorTerm(32 - i))
  }

  function Zeros(n: nat): (s: Poly)
    ensures |s| == n && forall i :: 0 <= i < n ==> !s[i]
  {
    seq(n, _ => false)
  }

  /** The sum of two polynomials of the same length. */
  function Sum(s: Poly, t: Poly): (u: Poly)
    requires |s| == |t|
    ensures |u| == |s| && forall i :: 0 <= i < |s| ==> u[i] == (s[i] != t[i])
  {
    seq(|s|, i requires 0 <= i < |s| => s[i] != t[i])
  }

  /** The multiple of the generator that has the leading coefficient b. */
  function Scaled(b: bool, n: nat): (p: Poly)
    requires 33 <= n
    ensures |p| == n && p[0] == b
  {
    if b then Generator(n) else Zeros(n)
  }

  /** One step of long division: cancels the leading term. */
  function Cancel(s: Poly): (t: Poly)
    requires 33 <= |s|
    ensures |t| == |s| - 1
  {
    (if s[0] then Sum(s, Generator(|s|)) else s)[1..]
  }

  function Remainder(s: Poly): (r: Poly)
    requires 32 <= |s|
    ensures |r| == 32
    decreases |s|
  {
    if |s| == 32 then s else Remainder(Cancel(s))
  }

  /** The product of q and the generator. */
  function Product(q: Poly): (p: Poly)
    ensures |p| == |q| + 32
  {
    if q == [] then Zeros(32) else Sum(Scaled(q[0], |q| + 32), [false] + Product(q[1..]))
  }

  /** The product and the remainder, put together. */
  function Combined(q: Poly, r: Poly): (s: Poly)
    requires |r| == 32
    ensures |s| == |q| + 32
    ensures forall i :: 0 <= i < |s| ==> s[i] == (Product(q)[i] != (Zeros(|q|) + r)[i])
  {
    Sum(Product(q), Zeros(|q|) + r)
  }

  /** q and r are a quotient and a remainder of s. */
  predicate Divides(s: Poly, q: Poly, r: Poly) {
    |r| == 32 && s == Combined(q, r)
  }

  // ---- Coefficient by coefficient ----

  lemma CancelPlace(s: Poly, i: nat)
    requires 33 <= |s| && i < |s| - 1
    ensures Cancel(s)[i] == (s[i + 1] != Scaled(s[0], |s|)[i + 1])
  {
    hide Generator;
  }

  lemma ProductAt(b: bool, q: Poly, i: nat)
    requires i < |q| + 32
    ensures Product([b] + q)[0] == b
    ensures Product([b] + q)[i + 1] == (Scaled(b, |q| + 33)[i + 1] != Product(q)[i])
  {
    hide *;
    ProductParts(b, q);
    ShiftedAt(Product(q), i);
    SumAt(Scaled(b, |q| + 33), [false] + Product(q), i);
  }

  lemma ShiftedAt(p: Poly, i: nat)
    requires i < |p|
    ensures !([false] + p)[0] && ([false] + p)[i + 1] == p[i]
  {}

  lemma SumAt(s: Poly, t: Poly, i: nat)
    requires |s| == |t| > i + 1
    ensures Sum(s, t)[0] == (s[0] != t[0]) && Sum(s, t)[i + 1] == (s[i + 1] != t[i + 1])
  {}

  lemma ProductParts(b: bool, q: Poly)
    ensures Product([b] + q) == Sum(Scaled(b, |q| + 33), [false] + Product(q))
  {
    hide Scaled, Sum;
    assert ([b] + q)[1..] == q;
  }

  lemma PaddedAt(n: nat, r: Poly, i: nat)
    requires i < n + |r|
    ensures !(Zeros(n + 1) + r)[0]
    ensures (Zeros(n + 1) + r)[i + 1] == (Zeros(n) + r)[i]
  {
    hide *;
  }

  lemma LeadingTerm(b: bool, q: Poly, r: Poly)
    requires |r| == 32
    ensures Combined([b] + q, r)[0] == b
  {
    hide *;
    ProductAt(b, q, 0);
    PaddedAt(|q|, r, 0);
  }

  lemma LowerTerm(b: bool, q: Poly, r: Poly, i: nat)
    requires |r| == 32 && i < |q| + 32
    ensures Combined([b] + q, r)[i + 1] == (Scaled(b, |q| + 33)[i + 1] != Combined(q, r)[i])
  {
    hide *;
    ProductAt(b, q, i);
    PaddedAt(|q|, r, i);
  }

  /** Dividing s is dividing what one step leaves of it, with the leading coefficient in the quotient. */
  lemma DividesStep(s: Poly, q: Poly, r: Poly)
    requires |s| == |q| + 33 && |r| == 32
    ensures Divides(s, [s[0]] + q, r) <==> Divides(Cancel(s), q, r)
  {
    hide Cancel, Combined, Product, Scaled, Sum, Zeros;
    var c, u, v := Cancel(s), Combined([s[0]] + q, r), Combined(q, r);
    LeadingTerm(s[0], q, r);
    forall i | 0 <= i < |v|
      ensures u[i + 1] == s[i + 1] <==> v[i] == c[i]
    {
      LowerTerm(s[0], q, r, i);
      CancelPlace(s, i);
    }
    SameRest(s, u, c, v);
  }

  lemma SameRest(s: Poly, u: Poly, c: Poly, v: Poly)
    requires |s| == |u| == |c| + 1 == |v| + 1 && s[0] == u[0]
    requires forall i :: 0 <= i < |v| ==> (u[i + 1] == s[i + 1] <==> v[i] == c[i])
    ensures s == u <==> c == v
  {
    if s == u {
      assert forall i :: 0 <= i < |v| ==> v[i] == c[i];
    }
    if c == v {
      forall i | 0 <= i < |s|
        ensures s[i] == u[i]
      {
        if i > 0 { assert v[i - 1] == c[i - 1]; }
      }
    }
  }

  lemma NothingToDivide(s: Poly)
    requires |s| == 32
    ensures Combined([], s) == s && Remainder(s) == s
  {
    hide Cancel, Combined, Scaled, Sum, Zeros;
    assert Product([]) == Zeros(32);
    forall i | 0 <= i < 32
      ensures Combined([], s)[i] == s[i]
    {
      assert (Zeros(0) + s)[i] == s[i];
    }
  }

  /** Long division finds the one remainder there is. */
  lemma {:induction false} RemainderIsUnique(s: Poly, q: Poly, r: Poly)
    requires Divides(s, q, r)
    ensures r == Remainder(s)
    decreases |q|
  {
    hide Cancel, Combined;
    if q == [] {
      NothingToDivide(r);
    } else {
      LeadingTerm(q[0], q[1..], r);
      assert q == [s[0]] + q[1..];
      DividesStep(s, q[1..], r);
      RemainderIsUnique(Cancel(s), q[1..], r);
    }
  }

  lemma {:induction false} RemainderExists(s: Poly) returns (q: Poly)
    requires 32 <= |s|
    ensures Divides(s, q, Remainder(s))
    decreases |s|
  {
    hide Cancel, Combined;
    if |s| == 32 {
      q := [];
      NothingToDivide(s);
    } else {
      q := RemainderExists(Cancel(s));
      DividesStep(s, q, Remainder(s));
      q := [s[0]] + q;
    }
  }
}
