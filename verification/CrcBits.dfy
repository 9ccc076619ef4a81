/** Bit-serial CRC-32: the shift register fed with one message bit at a time, and why that is polynomial
    division. */
module CrcBits {
  import opened ShiftRegister
  import opened Gf2Division

  /** Feeds message bits to the shift register, first bit first. */
  function Bits(c: bv32, message: seq<bool>): bv32
    decreases |message|
  {
    if message == [] then c else Bits(Step(Xor(c, Bit(message[0]))), message[1..])
  }

  /** The low n bits, lowest first. In the register, bit 0 is the coefficient of the highest power. */
  function Coefficients(c: bv32, n: nat): (s: Poly)
    ensures |s| == n
    decreases n
  {
    if n == 0 then [] else [Odd(c)] + Coefficients(Half(c), n - 1)
  }

  lemma {:induction false} BitsAppend(c: bv32, s: seq<bool>, t: seq<bool>)
    ensures Bits(c, s + t) == Bits(Bits(c, s), t)
    decreases |s|
  {
    hide Step, Xor, Bit;
    if s == [] {
      assert s + t == t;
    } else {
      assert (s + t)[1..] == s[1..] + t;
      BitsAppend(Step(Xor(c, Bit(s[0]))), s[1..], t);
    }
  }

  /** Feeding the n bits of a word is xor with the word and n steps. */
  lemma {:induction false} WordAtOnce(c: bv32, w: bv32, n: nat)
    requires Shift(w, n) == 0
    ensures Bits(c, Coefficients(w, n)) == Steps(Xor(c, w), n)
    decreases n
  {
    hide Step, Xor, Bit, Odd, Half;
    if n == 0 {
      XorLaws(c, 0, 0);
    } else {
      StepTakesBit(c, w);
      assert Coefficients(w, n)[1..] == Coefficients(Half(w), n - 1);
      WordAtOnce(Step(Xor(c, Bit(Odd(w)))), Half(w), n - 1);
    }
  }

  // ---- As polynomial division ----

  /** What is still to be divided: the register and the message bits to come. */
  function Dividend(c: bv32, message: seq<bool>): (s: Poly)
    ensures |s| == |message| + 32
  {
    Sum(Coefficients(c, 32) + Zeros(|message|), message + Zeros(32))
  }

  lemma {:induction false} CoefficientsXor(x: bv32, y: bv32, n: nat)
    ensures Coefficients(Xor(x, y), n) == Sum(Coefficients(x, n), Coefficients(y, n))
    decreases n
  {
    hide Xor, Odd, Half;
    XorBits(x, y);
    if n > 0 { CoefficientsXor(Half(x), Half(y), n - 1); }
  }

  lemma {:induction false} CoefficientsAdd(c: bv32, m: nat, n: nat)
    ensures Coefficients(c, m + n) == Coefficients(c, m) + Coefficients(Shift(c, m), n)
    decreases m
  {
    hide Odd, Half;
    if m > 0 { CoefficientsAdd(Half(c), m - 1, n); }
  }

  lemma {:induction false} ZeroCoefficients(n: nat)
    ensures Coefficients(0, n) == Zeros(n)
  {
    if n > 0 { ZeroCoefficients(n - 1); }
  }

  /** A right shift drops the first coefficient and brings in a zero. */
  lemma ShiftedCoefficients(c: bv32)
    ensures Coefficients(Half(c), 32) == Coefficients(c, 32)[1..] + [false]
  {
    hide *;
    CoefficientsAdd(c, 32, 1);
    WordShifts(c);
    ZeroCoefficients(1);
    CoefficientsTail(c, 32);
    assert Zeros(1) == [false];
  }

  lemma CoefficientsTail(c: bv32, n: nat)
    ensures Coefficients(c, n + 1)[0] == Odd(c) && Coefficients(c, n + 1)[1..] == Coefficients(Half(c), n)
  {
    hide Odd, Half;
  }

  lemma FourCoefficients(w: bv32, n: nat)
    ensures Coefficients(w, n + 4) ==
      [Odd(w), Odd(Half(w)), Odd(Shift2(w)), Odd(Half(Shift2(w)))] + Coefficients(Shift4(w), n)
  {
    TwoHalves(w);
    TwoHalves(Shift2(w));
    FourHalves(w);
    hide *;
    CoefficientsTail(w, n + 3);
    CoefficientsTail(Half(w), n + 2);
    CoefficientsTail(Shift2(w), n + 1);
    CoefficientsTail(Half(Shift2(w)), n);
    FourHeads(Coefficients(w, n + 4), Coefficients(Half(w), n + 3), Coefficients(Shift2(w), n + 2),
      Coefficients(Half(Shift2(w)), n + 1));
  }

  lemma FourHeads(s: Poly, t: Poly, u: Poly, v: Poly)
    requires s != [] && t != [] && u != [] && v != [] && s[1..] == t && t[1..] == u && u[1..] == v
    ensures s == [s[0], t[0], u[0], v[0]] + v[1..]
  {}

  /** The constant of the shift register is the generator, in reverse. */
  lemma ReflectedGenerator(i: nat)
    requires i < 32
    ensures Coefficients(0xEDB88320, 32)[i] == GeneratorTerm(31 - i)
  {
    hide Coefficients;
    FourCoefficients(0xEDB88320, 28);
    FourCoefficients(0xEDB8832, 24);
    FourCoefficients(0xEDB883, 20);
    FourCoefficients(0xEDB88, 16);
    FourCoefficients(0xEDB8, 12);
    FourCoefficients(0xEDB, 8);
    FourCoefficients(0xED, 4);
    FourCoefficients(0xE, 0);
  }

  lemma StepCoefficients(x: bv32)
    ensures |Coefficients(Step(x), 32)| == 32
    ensures forall i :: 0 <= i < 32 ==>
      Coefficients(Step(x), 32)[i] ==
        ((i < 31 && Coefficients(x, 32)[i + 1]) != (Coefficients(x, 32)[0] && GeneratorTerm(31 - i)))
  {
    hide *;
    StepParts(x);
    ShiftedCoefficients(x);
    CoefficientsTail(x, 31);
    var g: bv32 := if Odd(x) then 0xEDB88320 else 0;
    CoefficientsXor(Half(x), g, 32);
    ZeroCoefficients(32);
    var h := Coefficients(x, 32)[1..] + [false];
    assert forall i :: 0 <= i < 32 ==> h[i] == (i < 31 && Coefficients(x, 32)[i + 1]);
    forall i | 0 <= i < 32
      ensures Coefficients(g, 32)[i] == (Odd(x) && GeneratorTerm(31 - i))
    {
      if Odd(x) { ReflectedGenerator(i); }
    }
    assert Coefficients(Step(x), 32) == Sum(h, Coefficients(g, 32));
    assert forall i :: 0 <= i < 32 ==> Coefficients(Step(x), 32)[i] == (h[i] != Coefficients(g, 32)[i]);
  }

  /** A message bit changes the leading coefficient only. */
  lemma FedCoefficients(c: bv32, b: bool)
    ensures Coefficients(Xor(c, Bit(b)), 32)[0] == (Coefficients(c, 32)[0] != b)
    ensures Coefficients(Xor(c, Bit(b)), 32)[1..] == Coefficients(c, 32)[1..]
  {
    hide *;
    var x := Xor(c, Bit(b));
    BitLaws(b);
    XorBits(c, Bit(b));
    XorLaws(Half(c), 0, 0);
    CoefficientsTail(x, 31);
    CoefficientsTail(c, 31);
  }

  lemma DividendAt(c: bv32, message: seq<bool>, i: nat)
    requires i < |message| + 32
    ensures Dividend(c, message)[i] == ((i < 32 && Coefficients(c, 32)[i]) != (i < |message| && message[i]))
  {
    hide Coefficients;
  }

  lemma CancelAt(s: Poly, i: nat)
    requires 33 <= |s| && i < |s| - 1
    ensures Cancel(s)[i] == (s[i + 1] != (s[0] && GeneratorTerm(31 - i)))
  {
    hide GeneratorTerm;
  }

  /** One step of the register is one step of long division. */
  lemma StepDivides(c: bv32, message: seq<bool>)
    requires message != []
    ensures Cancel(Dividend(c, message)) == Dividend(Step(Xor(c, Bit(message[0]))), message[1..])
  {
    var b, m := message[0], message[1..];
    var x := Xor(c, Bit(b));
    var s, t := Dividend(c, message), Dividend(Step(x), m);
    hide *;
    FedCoefficients(c, b);
    StepCoefficients(x);
    DividendAt(c, message, 0);
    forall i | 0 <= i < |t|
      ensures Cancel(s)[i] == t[i]
    {
      CancelAt(s, i);
      DividendAt(c, message, i + 1);
      DividendAt(Step(x), m, i);
      if i < 31 {
        assert Coefficients(x, 32)[1..][i] == Coefficients(c, 32)[1..][i];
      } else {
        BeyondRegister(i);
      }
    }
  }

  lemma BeyondRegister(i: nat)
    ensures i > 31 ==> !GeneratorTerm(31 - i)
  {}

  /** What remains in the register is the remainder of the division. */
  lemma {:induction false} RegisterIsRemainder(c: bv32, message: seq<bool>)
    ensures Coefficients(Bits(c, message), 32) == Remainder(Dividend(c, message))
    decreases |message|
  {
    hide Step, Xor, Bit, Coefficients, Cancel;
    if message == [] {
      assert Dividend(c, message) == Coefficients(c, 32);
    } else {
      StepDivides(c, message);
      RegisterIsRemainder(Step(Xor(c, Bit(message[0]))), message[1..]);
    }
  }

  // ---- Bursts ----

  /** The word of up to 32 bits, lowest first. */
  function Pack(s: seq<bool>): bv32
    decreases |s|
  {
    if s == [] then 0 else Join(s[0], Pack(s[1..]))
  }

  lemma {:induction false} PackFits(s: seq<bool>)
    requires |s| <= 32
    ensures Shift(Pack(s), |s|) == 0 && Coefficients(Pack(s), |s|) == s
    decreases |s|
  {
    hide Odd, Half, Join, Top;
    if s != [] {
      var w := Pack(s[1..]);
      PackFits(s[1..]);
      ShiftAdd(w, |s| - 1, 32 - |s|);
      ShiftZero(32 - |s|);
      WordShifts(w);
      Joined(s[0], w);
    }
  }

  lemma {:induction false} BitsInjective(c: bv32, d: bv32, s: seq<bool>)
    requires Bits(c, s) == Bits(d, s)
    ensures c == d
    decreases |s|
  {
    hide Step, Xor, Bit;
    if s != [] {
      var b := Bit(s[0]);
      BitsInjective(Step(Xor(c, b)), Step(Xor(d, b)), s[1..]);
      StepInjective(Xor(c, b), Xor(d, b));
      XorLaws(b, c, 0);
      XorLaws(b, d, 0);
      XorLaws(c, b, 0);
      XorLaws(d, b, 0);
    }
  }

  /** Up to 32 message bits can be told from the register. */
  lemma WordsDiffer(c: bv32, s: seq<bool>, t: seq<bool>)
    requires |s| == |t| <= 32 && Bits(c, s) == Bits(c, t)
    ensures s == t
  {
    hide *;
    PackFits(s);
    PackFits(t);
    WordAtOnce(c, Pack(s), |s|);
    WordAtOnce(c, Pack(t), |t|);
    StepsInjective(Xor(c, Pack(s)), Xor(c, Pack(t)), |s|);
    XorLaws(c, Pack(s), 0);
    XorLaws(c, Pack(t), 0);
  }

  lemma Slices(s: seq<bool>, p: nat, q: nat)
    requires p <= q <= |s|
    ensures s == s[..p] + (s[p..q] + s[q..])
  {}

  /** Messages that differ, but only within 32 consecutive bits, never collide. */
  lemma BurstDetected(c: bv32, s: seq<bool>, t: seq<bool>, p: nat)
    requires |s| == |t| && s != t && p <= |s|
    requires s[..p] == t[..p]
    requires forall i :: p + 32 <= i < |s| ==> s[i] == t[i]
    ensures Bits(c, s) != Bits(c, t)
  {
    hide *;
    var q := if p + 32 <= |s| then p + 32 else |s|;
    Slices(s, p, q);
    Slices(t, p, q);
    assert s[q..] == t[q..];
    var d := Bits(c, s[..p]);
    BitsAppend(c, s[..p], s[p..q] + s[q..]);
    BitsAppend(c, t[..p], t[p..q] + t[q..]);
    BitsAppend(d, s[p..q], s[q..]);
    BitsAppend(d, t[p..q], t[q..]);
    if Bits(c, s) == Bits(c, t) {
      BitsInjective(Bits(d, s[p..q]), Bits(d, t[p..q]), s[q..]);
      WordsDiffer(d, s[p..q], t[p..q]);
      assert false;
    }
  }
}
