/** Inversion and the Montgomery ladder of fw/common/curve25519.c, against RFC 7748. */
module X25519 {
  import opened MachineInts
  import opened Bits
  import opened Rfc = Rfc7748
  import opened LittleEndian
  import opened Field25519
  import opened Curve25519
  import opened FieldBytes
  import Montgomery

  // ---- Powers ----

  lemma MulAssoc(a: int, b: int, c: int)
    ensures Mul(Mul(a, b), c) == Mul(a, Mul(b, c))
  {
    var x, y := a * b, b * c;
    assert x * c == a * y;
    var qx, qy := x / P, y / P;
    assert x % P * c == x * c - P * (qx * c);
    assert a * (y % P) == a * y - P * (a * qy);
    ModUnique(x % P * c, a * (y % P), a * qy - qx * c);
  }

  lemma {:induction false} PowAdd(x: int, m: nat, n: nat)
    requires 0 <= x < P
    ensures Mul(Pow(x, m), Pow(x, n)) == Pow(x, m + n)
  {
    if m == 0 {
      PowRange(x, n);
    } else {
      PowAdd(x, m - 1, n);
      MulAssoc(x, Pow(x, m - 1), Pow(x, n));
    }
  }

  lemma {:induction false} PowRange(x: int, n: nat)
    ensures 0 <= Pow(x, n) < P
  {}

  /** e * 2^n */
  function Doubled(e: nat, n: nat): nat {
    if n == 0 then e else 2 * Doubled(e, n - 1)
  }

  function AllOnes(n: nat): nat { Pow2(n) - 1 }

  /** Appending n ones to m ones gives m + n ones. */
  lemma {:induction false} Ones(m: nat, n: nat)
    ensures Doubled(AllOnes(m), n) + AllOnes(n) == AllOnes(m + n)
  {
    if n > 0 { Ones(m, n - 1); }
  }

  lemma Pow2Of255()
    ensures Pow2(255) == RADIX
  {
    Pow2Values();
    Pow2Add(31, 1);
    Pow2Add(32, 31);
    Pow2Add(32, 32);
    Pow2Add(64, 63);
    Pow2Add(64, 64);
    Pow2Add(128, 127);
  }

  /** e squared n times. */
  function Squared(e: int, n: nat): int {
    if n == 0 then e else Mul(Squared(e, n - 1), Squared(e, n - 1))
  }

  lemma SquaredNext(e: int, n: nat)
    ensures Squared(e, 0) == e && Squared(e, n + 1) == Mul(Squared(e, n), Squared(e, n))
  {}

  /** Squaring a power n times doubles its exponent n times. */
  lemma {:induction false} SquaredPower(x: int, e: nat, n: nat)
    requires 0 <= x < P
    ensures Squared(Pow(x, e), n) == Pow(x, Doubled(e, n))
  {
    hide Pow, Mul;
    if n > 0 {
      SquaredPower(x, e, n - 1);
      PowAdd(x, Doubled(e, n - 1), Doubled(e, n - 1));
    }
  }

  /** From powers whose exponents are m and n ones in binary, the power with m + n ones. */
  lemma OnesPower(x: int, m: nat, n: nat)
    requires 0 <= x < P
    ensures Mul(Squared(Pow(x, AllOnes(m)), n), Pow(x, AllOnes(n))) == Pow(x, AllOnes(m + n))
  {
    hide Pow, Mul, AllOnes;
    SquaredPower(x, AllOnes(m), n);
    PowAdd(x, Doubled(AllOnes(m), n), AllOnes(n));
    Ones(m, n);
  }

  /** fe_sq(h, f); for (i = 1; i < n; ++i) fe_sq(h, h); */
  method SquareTimes(h: array<int32>, f: array<int32>, n: nat)
    requires h.Length == f.Length == 10 && n >= 1
    requires Mulable(Load(f))
    modifies h
    ensures Tight(Load(h)) && Elem(Load(h)) == Squared(old(Elem(Load(f))), n)
  {
    hide Elem, Load, Mul, Tight, Mulable, Squared;
    Weaken();
    ghost var e := Elem(Load(f));
    SquaredNext(e, 0);
    FeSq(h, f);
    var i := 1;
    while i < n
      invariant 1 <= i <= n && Tight(Load(h))
      invariant Elem(Load(h)) == Squared(e, i)
    {
      SquaredNext(e, i);
      FeSq(h, h);
      i := i + 1;
    }
  }

  lemma FirstPowers(x: int)
    requires 0 <= x < P
    ensures x == Pow(x, 1) && Mul(x, x) == Pow(x, 2)
  {
    assert Pow(x, 0) == 1;
    assert Pow(x, 1) == Mul(x, Pow(x, 0));
    assert Pow(x, 2) == Mul(x, Pow(x, 1));
  }

  /** The operations up to the first ten ones: t0 = z^11 and t1 = z^1023. */
  method InvertPrefix(t0: array<int32>, t1: array<int32>, t2: array<int32>, z: array<int32>)
    requires t0.Length == t1.Length == t2.Length == z.Length == 10
    requires t0 != t1 && t0 != t2 && t1 != t2 && z != t0 && z != t1 && z != t2
    requires Mulable(Load(z))
    modifies t0, t1, t2
    ensures Tight(Load(t0)) && Elem(Load(t0)) == Pow(old(Elem(Load(z))), 11)
    ensures Tight(Load(t1)) && Elem(Load(t1)) == Pow(old(Elem(Load(z))), 1023)
  {
    hide Elem, Load, Mul, Pow, Tight, Mulable, Squared;
    Weaken();
    ghost var x := Elem(Load(z));
    ElemRange(Load(z));
    FeSq(t0, z);
    SquareTimes(t1, t0, 2);
    FeMul(t1, z, t1);
    FeMul(t0, t0, t1);
    SquareTimes(t2, t0, 1);
    FeMul(t1, t1, t2);
    SquareTimes(t2, t1, 5);
    FeMul(t1, t2, t1);
    PrefixPowers(x);
  }

  lemma PrefixPowers(x: int)
    requires 0 <= x < P
    ensures var x2 := Mul(x, x);
      var x9 := Mul(x, Squared(x2, 2));
      var x11 := Mul(x2, x9);
      var x31 := Mul(x9, Squared(x11, 1));
      x11 == Pow(x, 11) && Mul(Squared(x31, 5), x31) == Pow(x, 1023)
  {
    hide Mul, Pow, Squared;
    FirstPowers(x);
    SquaredPower(x, 2, 2);
    PowAdd(x, 1, 8);
    PowAdd(x, 2, 9);
    SquaredPower(x, 11, 1);
    PowAdd(x, 9, 22);
    SquaredPower(x, 31, 5);
    PowAdd(x, 992, 31);
  }

  /** out = z^(2^255 - 21), the inverse of z unless z is zero; out may be the same array as z. */
  method FeInvert(out: array<int32>, z: array<int32>)
    requires out.Length == z.Length == 10
    requires Mulable(Load(z))
    modifies out
    ensures Tight(Load(out)) && Elem(Load(out)) == Pow(old(Elem(Load(z))), P - 2)
  {
    hide Elem, Load, Mul, Pow, Tight, Mulable, Squared;
    Weaken();
    ghost var x := Elem(Load(z));
    ElemRange(Load(z));
    var t0 := new int32[10];
    var t1 := new int32[10];
    var t2 := new int32[10];
    var t3 := new int32[10];
    InvertPrefix(t0, t1, t2, z);
    AppendOnes(t2, t1, t1, 10, t2);
    AppendOnes(t3, t2, t2, 20, t2);
    AppendOnes(t2, t2, t1, 10, t1);
    AppendOnes(t2, t1, t1, 50, t2);
    AppendOnes(t3, t2, t2, 100, t2);
    AppendOnes(t2, t2, t1, 50, t1);
    SquareTimes(t1, t1, 5);
    FeMul(out, t1, t0);
    ChainPowers(x);
  }

  lemma ChainPowers(x: int)
    requires 0 <= x < P
    ensures var o10 := Pow(x, 1023);
      var o20 := Mul(Squared(o10, 10), o10);
      var o40 := Mul(Squared(o20, 20), o20);
      var o50 := Mul(Squared(o40, 10), o10);
      var o100 := Mul(Squared(o50, 50), o50);
      var o200 := Mul(Squared(o100, 100), o100);
      var o250 := Mul(Squared(o200, 50), o50);
      Mul(Squared(o250, 5), Pow(x, 11)) == Pow(x, P - 2)
  {
    SmallOnes();
    LastExponent();
    hide Mul, Pow, Squared, AllOnes, Doubled;
    OnesPower(x, 10, 10);
    OnesPower(x, 20, 20);
    OnesPower(x, 40, 10);
    OnesPower(x, 50, 50);
    OnesPower(x, 100, 100);
    OnesPower(x, 200, 50);
    SquaredPower(x, AllOnes(250), 5);
    PowAdd(x, Doubled(AllOnes(250), 5), 11);
  }

  /** Squares n times from f into h, then r = h * g. */
  method AppendOnes(h: array<int32>, f: array<int32>, g: array<int32>, n: nat, r: array<int32>)
    requires h.Length == f.Length == g.Length == r.Length == 10 && h != g && n >= 1
    requires Tight(Load(f)) && Tight(Load(g))
    modifies h, r
    ensures Tight(Load(r)) && Elem(Load(r)) == Mul(Squared(old(Elem(Load(f))), n), old(Elem(Load(g))))
    ensures h != r ==> Tight(Load(h))
  {
    hide Elem, Load, Mul, Tight, Mulable, Squared;
    Weaken();
    SquareTimes(h, f, n);
    FeMul(r, h, g);
  }

  lemma ElemRange(l: Limbs)
    ensures 0 <= Elem(l) < P
  {
    hide Value;
  }

  lemma SmallOnes()
    ensures AllOnes(10) == 1023
  {}

  lemma LastExponent()
    ensures Doubled(AllOnes(250), 5) + 11 == P - 2
  {
    Ones(250, 5);
    Pow2Of255();
  }

  // ---- The ladder ----

  lemma Weaken()
    ensures forall l: Limbs {:trigger Tight(l)} :: Tight(l) ==> Addable(l) && Mulable(l)
    ensures forall l: Limbs {:trigger Loose(l)} :: Loose(l) ==> Mulable(l)
  {}

  /** AA + 121665 E and BB + 121666 E are the same element, for E = AA - BB. */
  lemma LastFactor(aa: int, bb: int)
    ensures Add(bb, Mul(121666, Sub(aa, bb))) == Add(aa, Mul(A24, Sub(aa, bb)))
  {
    var e := Sub(aa, bb);
    var k := (aa - bb) / P;
    var p, q := 121666 * e, 121665 * e;
    assert aa - bb == e + k * P;
    ModUnique(bb + p % P, aa + q % P, q / P - p / P - k);
  }

  function Points(x2: array<int32>, z2: array<int32>, x3: array<int32>, z3: array<int32>, swap: int): Ladder
    requires x2.Length == z2.Length == x3.Length == z3.Length == 10
    reads x2, z2, x3, z3
  {
    Ladder(Elem(Load(x2)), Elem(Load(z2)), Elem(Load(x3)), Elem(Load(z3)), swap)
  }

  predicate AllTight(x2: array<int32>, z2: array<int32>, x3: array<int32>, z3: array<int32>)
    requires x2.Length == z2.Length == x3.Length == z3.Length == 10
    reads x2, z2, x3, z3
  {
    Tight(Load(x2)) && Tight(Load(z2)) && Tight(Load(x3)) && Tight(Load(z3))
  }

  /** The arithmetic of one iteration after the swap. */
  method LadderArithmetic(x1: array<int32>, x2: array<int32>, z2: array<int32>, x3: array<int32>, z3: array<int32>,
                          tmp0: array<int32>, tmp1: array<int32>)
    requires x1.Length == x2.Length == z2.Length == x3.Length == z3.Length == tmp0.Length == tmp1.Length == 10
    requires x1 !in {x2, z2, x3, z3, tmp0, tmp1} && x2 !in {z2, x3, z3, tmp0, tmp1} && z2 !in {x3, z3, tmp0, tmp1}
    requires x3 !in {z3, tmp0, tmp1} && z3 !in {tmp0, tmp1} && tmp0 != tmp1
    requires Tight(Load(x1)) && AllTight(x2, z2, x3, z3)
    modifies x2, z2, x3, z3, tmp0, tmp1
    ensures AllTight(x2, z2, x3, z3)
    ensures Points(x2, z2, x3, z3, 0) == Step(old(Elem(Load(x1))), 0, old(Points(x2, z2, x3, z3, 0)))
  {
    hide Elem, Load, Tight, Loose, Addable, Mulable, Add, Sub, Mul;
    Weaken();
    FeSub(tmp0, x3, z3);
    FeSub(tmp1, x2, z2);
    FeAdd(x2, x2, z2);
    FeAdd(z2, x3, z3);
    FeMul(z3, tmp0, x2);
    FeMul(z2, z2, tmp1);
    FeSq(tmp0, tmp1);
    FeSq(tmp1, x2);
    ghost var aa, bb := Elem(Load(tmp1)), Elem(Load(tmp0));
    FeAdd(x3, z3, z2);
    FeSub(z2, z3, z2);
    FeMul(x2, tmp1, tmp0);
    FeSub(tmp1, tmp1, tmp0);
    FeSq(z2, z2);
    FeMul121666(z3, tmp1);
    FeSq(x3, x3);
    FeAdd(tmp0, tmp0, z3);
    FeMul(z3, x1, z2);
    FeMul(z2, tmp1, tmp0);
    LastFactor(aa, bb);
  }

  /** e[0] &= 248; e[31] &= 127; e[31] |= 64; */
  method Clamp(e: array<uint8>)
    requires e.Length == 32
    modifies e
    ensures DecodeLittleEndian(Bytes(e)) == DecodeScalar(old(Bytes(e)))
  {
    hide And, Or, DecodeLittleEndian, Bytes;
    ghost var b := Bytes(e);
    And248(e[0] as int);
    And127(e[31] as int);
    Or64(e[31] as int % 128);
    e[0] := And(e[0] as int, 248) as uint8;
    e[31] := And(e[31] as int, 127) as uint8;
    e[31] := Or(e[31] as int, 64) as uint8;
    assert Bytes(e) == b[0 := b[0] - b[0] % 8][31 := b[31] % 64 + 64];
  }

  lemma And248(x: int)
    requires 0 <= x < 256
    ensures And(x, 248) == x - x % 8
  {
    hide Bitwise, Pow2;
    Pow2Values();
    var b := x / 8;
    HighPart(AND, x % 8, b, 31, 3);
    AndLow(b, 5);
  }

  lemma And127(x: int)
    ensures And(x, 127) == x % 128
  {
    Pow2Values();
    AndLow(x, 7);
  }

  lemma Or64(x: int)
    requires 0 <= x < 128
    ensures Or(x, 64) == x % 64 + 64
  {
    hide Pow2, Bitwise;
    Pow2Values();
    HighPart(OR, x % 64, x / 64, 1, 6);
    OrOne();
  }

  lemma OrOne()
    ensures Or(0, 1) == 1 && Or(1, 1) == 1
  {}

  /** 1 & (e[pos / 8] >> (pos & 7)) */
  method ScalarBit(e: array<uint8>, pos: nat) returns (b: int32)
    requires e.Length == 32 && pos < 255
    ensures b == 0 || b == 1
    ensures b as int == Bit(DecodeLittleEndian(Bytes(e)), pos)
  {
    var x := e[pos / 8] as int / Pow2(pos % 8);
    AndLow(x, 1);
    BitOfBytes(Bytes(e), pos);
    b := And(x, 1) as int32;
  }

  /** One iteration of the ladder, for the bit b; the swap that the bit asks for is left to the next. */
  method LadderIteration(x1: array<int32>, x2: array<int32>, z2: array<int32>, x3: array<int32>, z3: array<int32>,
                         tmp0: array<int32>, tmp1: array<int32>, pending: int32, b: int32) returns (swap: int32)
    requires x1.Length == x2.Length == z2.Length == x3.Length == z3.Length == tmp0.Length == tmp1.Length == 10
    requires x1 !in {x2, z2, x3, z3, tmp0, tmp1} && x2 !in {z2, x3, z3, tmp0, tmp1} && z2 !in {x3, z3, tmp0, tmp1}
    requires x3 !in {z3, tmp0, tmp1} && z3 !in {tmp0, tmp1} && tmp0 != tmp1
    requires Tight(Load(x1)) && AllTight(x2, z2, x3, z3)
    requires (pending == 0 || pending == 1) && (b == 0 || b == 1)
    modifies x2, z2, x3, z3, tmp0, tmp1
    ensures AllTight(x2, z2, x3, z3) && swap == b
    ensures Points(x2, z2, x3, z3, swap as int)
         == Step(old(Elem(Load(x1))), b as int, old(Points(x2, z2, x3, z3, pending as int)))
  {
    hide Elem, Load, Tight, Step;
    Montgomery.StepSplit(Elem(Load(x1)), b as int, Points(x2, z2, x3, z3, pending as int));
    XorBits(pending as int, b as int);
    swap := Xor32(pending, b);
    FeCswap(x2, x3, swap);
    FeCswap(z2, z3, swap);
    swap := b;
    LadderArithmetic(x1, x2, z2, x3, z3, tmp0, tmp1);
  }

  lemma XorBits(x: int, y: int)
    requires (x == 0 || x == 1) && (y == 0 || y == 1)
    ensures Xor(x, y) == if x == y then 0 else 1
  {}

  lemma ConstantLimbs(l: Limbs)
    requires l.h1 == l.h2 == l.h3 == l.h4 == l.h5 == l.h6 == l.h7 == l.h8 == l.h9 == 0 <= l.h0 <= 1
    ensures Tight(l) && Elem(l) == l.h0
  {
    SmallElem(l);
  }

  /** The values before the loop. */
  method StartLadder(x1: array<int32>, x2: array<int32>, z2: array<int32>, x3: array<int32>, z3: array<int32>,
                     point: array<uint8>)
    requires x1.Length == x2.Length == z2.Length == x3.Length == z3.Length == 10 && point.Length == 32
    requires x1 !in {x2, z2, x3, z3} && x2 !in {z2, x3, z3} && z2 !in {x3, z3} && x3 != z3
    modifies x1, x2, z2, x3, z3
    ensures Tight(Load(x1)) && AllTight(x2, z2, x3, z3)
    ensures Elem(Load(x1)) == DecodeU(Bytes(point)) % P
    ensures Points(x2, z2, x3, z3, 0) == Ladder(1, 0, Elem(Load(x1)), 1, 0)
  {
    hide Elem, Load, Tight, DecodeU, Bytes;
    FeFromBytes(x1, point);
    Fe1(x2);
    Fe0(z2);
    FeCopy(x3, x1);
    Fe1(z3);
    ConstantLimbs(Load(x2));
    ConstantLimbs(Load(z2));
  }

  /** The last swap, the division and the encoding. */
  method FinishLadder(out: array<uint8>, x2: array<int32>, z2: array<int32>, x3: array<int32>, z3: array<int32>,
                      swap: int32)
    requires x2.Length == z2.Length == x3.Length == z3.Length == 10 && out.Length == 32
    requires x2 !in {z2, x3, z3} && z2 !in {x3, z3} && x3 != z3
    requires AllTight(x2, z2, x3, z3) && (swap == 0 || swap == 1)
    modifies out, x2, z2, x3, z3
    ensures var s := Swap(swap as int, old(Points(x2, z2, x3, z3, swap as int)));
            Bytes(out) == EncodeU(Mul(s.x2, Pow(s.z2, P - 2)))
  {
    hide Elem, Load, Mul, Pow, Bytes, EncodeU;
    FeCswap(x2, x3, swap);
    FeCswap(z2, z3, swap);
    FeInvert(z2, z2);
    FeMul(x2, x2, z2);
    FeToBytes(out, x2);
  }

  lemma LoopStep(k: int, u: int, t: nat, s: Ladder)
    ensures Loop(k, u, t + 1, s) == Loop(k, u, t, Step(u, Bit(k, t), s))
    ensures Loop(k, u, 0, s) == s
  {
    hide Step, Bit;
  }

  /** The loop over the bits 254 down to 0. */
  method RunLadder(e: array<uint8>, x1: array<int32>, x2: array<int32>, z2: array<int32>, x3: array<int32>,
                   z3: array<int32>, tmp0: array<int32>, tmp1: array<int32>, ghost k: int) returns (swap: int32)
    requires x1.Length == x2.Length == z2.Length == x3.Length == z3.Length == tmp0.Length == tmp1.Length == 10
    requires x1 !in {x2, z2, x3, z3, tmp0, tmp1} && x2 !in {z2, x3, z3, tmp0, tmp1} && z2 !in {x3, z3, tmp0, tmp1}
    requires x3 !in {z3, tmp0, tmp1} && z3 !in {tmp0, tmp1} && tmp0 != tmp1
    requires e.Length == 32 && k == DecodeLittleEndian(Bytes(e))
    requires Tight(Load(x1)) && AllTight(x2, z2, x3, z3)
    modifies x2, z2, x3, z3, tmp0, tmp1
    ensures AllTight(x2, z2, x3, z3) && (swap == 0 || swap == 1)
    ensures Points(x2, z2, x3, z3, swap as int) == Loop(k, Elem(Load(x1)), 255, old(Points(x2, z2, x3, z3, 0)))
  {
    hide Elem, Load, Tight, Step, Bit, Bytes, DecodeLittleEndian, Loop, AllTight, Points;
    ghost var u := Elem(Load(x1));
    ghost var goal := Loop(k, u, 255, Points(x2, z2, x3, z3, 0));
    swap := 0;
    var pos := 254;
    while pos >= 0
      invariant -1 <= pos <= 254 && (swap == 0 || swap == 1)
      invariant AllTight(x2, z2, x3, z3)
      invariant Loop(k, u, pos + 1, Points(x2, z2, x3, z3, swap as int)) == goal
    {
      var b := ScalarBit(e, pos);
      LoopStep(k, u, pos, Points(x2, z2, x3, z3, swap as int));
      swap := LadderIteration(x1, x2, z2, x3, z3, tmp0, tmp1, swap, b);
      pos := pos - 1;
    }
    LoopStep(k, u, 0, Points(x2, z2, x3, z3, swap as int));
  }

  /** The RFC's result from the state that its loop ends with. */
  lemma ResultOf(k: seq<int>, p: seq<int>, l: Ladder)
    requires |k| == |p| == 32
    requires l == Loop(DecodeScalar(k), DecodeU(p) % P, 255, Ladder(1, 0, DecodeU(p) % P, 1, 0))
    ensures Rfc.X25519(k, p) == EncodeU(Mul(Swap(l.swap, l).x2, Pow(Swap(l.swap, l).z2, P - 2)))
  {
    hide Mul, Pow, DecodeScalar, DecodeU, EncodeU, Loop;
  }

  /** out = X25519(scalar, point), byte for byte; out may be the same array as scalar or point. */
  method ScalarMultGeneric(out: array<uint8>, scalar: array<uint8>, point: array<uint8>)
    requires out.Length == scalar.Length == point.Length == 32
    modifies out
    ensures Bytes(out) == Rfc.X25519(old(Bytes(scalar)), old(Bytes(point)))
  {
    hide *;
    var e := CopyScalar(scalar);
    Clamp(e);
    ghost var k, p := Bytes(scalar), Bytes(point);
    var x1, x2, z2 := new int32[10], new int32[10], new int32[10];
    var x3, z3, tmp0, tmp1 := new int32[10], new int32[10], new int32[10], new int32[10];
    StartLadder(x1, x2, z2, x3, z3, point);
    var swap := RunLadder(e, x1, x2, z2, x3, z3, tmp0, tmp1, DecodeLittleEndian(Bytes(e)));
    ghost var l := Points(x2, z2, x3, z3, swap as int);
    LoopSwap(x2, z2, x3, z3, swap as int);
    ResultOf(k, p, l);
    FinishLadder(out, x2, z2, x3, z3, swap);
  }

  lemma LoopSwap(x2: array<int32>, z2: array<int32>, x3: array<int32>, z3: array<int32>, swap: int)
    requires x2.Length == z2.Length == x3.Length == z3.Length == 10
    ensures Points(x2, z2, x3, z3, swap).swap == swap
  {}

  /** memcpy(e, scalar, 32) */
  method CopyScalar(scalar: array<uint8>) returns (e: array<uint8>)
    requires scalar.Length == 32
    ensures fresh(e) && e.Length == 32 && Bytes(e) == Bytes(scalar)
  {
    e := new uint8[32];
    forall i | 0 <= i < 32 { e[i] := scalar[i]; }
  }
}
