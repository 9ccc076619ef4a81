/** Free-running indices: numbers modulo a power of two, as an n-bit machine word keeps them. */
module WrappedIndex {
  import opened Bits

  function Wrap(x: int, n: nat): (r: nat)
    ensures r < Pow2(n)
  {
    x % Pow2(n)
  }

  lemma WrapIs(x: int, n: nat, q: int, r: int)
    requires 0 <= r < Pow2(n) && x == Pow2(n) * q + r
    ensures Wrap(x, n) == r
  {
    ModIs(x, Pow2(n), q, r);
  }

  lemma Quotient(x: int, n: nat) returns (q: int)
    ensures x == Pow2(n) * q + Wrap(x, n)
  {
    q := x / Pow2(n);
  }

  lemma WrapSmall(x: int, n: nat)
    requires 0 <= x < Pow2(n)
    ensures Wrap(x, n) == x
  {
    WrapIs(x, n, 0, x);
  }

  /** Adding to a wrapped index, and reading its low bits, is the same as for the unwrapped one. */
  lemma WrapSum(x: int, y: int, m: nat, n: nat)
    requires n <= m
    ensures Wrap(Wrap(x, m) + y, n) == Wrap(x + y, n)
  {
    var q := Quotient(x, m);
    var p := Quotient(x + y, n);
    Pow2Add(m - n, n);
    var k := Pow2(m - n);
    hide Wrap, Pow2;
    Distribute(Pow2(n), k, q, p);
    WrapIs(Wrap(x, m) + y, n, p - k * q, Wrap(x + y, n));
  }

  lemma Distribute(a: int, k: int, q: int, p: int)
    ensures a * (p - k * q) == a * p - (k * a) * q
  {
    assert a * (p - k * q) == a * p - a * (k * q);
    assert a * (k * q) == (k * a) * q;
  }

  lemma WrapDifference(x: int, y: int, n: nat)
    ensures Wrap(Wrap(x, n) - Wrap(y, n), n) == Wrap(x - y, n)
  {
    WrapSum(x, 0 - Wrap(y, n), n, n);
    var q := Quotient(y, n);
    var p := Quotient(x - y, n);
    hide Wrap, Pow2;
    assert Pow2(n) * (p + q) == Pow2(n) * p + Pow2(n) * q;
    WrapIs(x - Wrap(y, n), n, p + q, Wrap(x - y, n));
  }

  /** The slot j places after the one of t, in a ring of a power of two slots. */
  lemma SlotAfter(t: int, j: nat, n: nat)
    requires j <= Pow2(n)
    ensures var s := Wrap(t, n) + j;
            Wrap(t + j, n) == if s < Pow2(n) then s else s - Pow2(n)
  {
    WrapSum(t, j, n, n);
    var s := Wrap(t, n) + j;
    hide Wrap;
    WrapIs(s, n, if s < Pow2(n) then 0 else 1, if s < Pow2(n) then s else s - Pow2(n));
  }
}
