/** The reflected 32-bit shift register for the polynomial 0x04C11DB7. Word operators have names, so that
    a proof can use their laws without looking at bits. */
module ShiftRegister {
  function Xor(x: bv32, y: bv32): bv32 { x ^ y }

  function Half(w: bv32): bv32 { w >> 1 }

  predicate Odd(w: bv32) { w & 1 == 1 }

  function Bit(b: bool): bv32 { if b then 1 else 0 }

  function Step(c: bv32): bv32 {
    Xor(Half(c), if Odd(c) then 0xEDB88320 else 0)
  }

  function Step8(c: bv32): bv32 {
    Step(Step(Step(Step(Step(Step(Step(Step(c))))))))
  }

  function Steps(c: bv32, n: nat): bv32
    decreases n
  {
    if n == 0 then c else Steps(Step(c), n - 1)
  }

  /** w >> n */
  function Shift(w: bv32, n: nat): bv32
    decreases n
  {
    if n == 0 then w else Shift(Half(w), n - 1)
  }

  // ---- Laws of words ----

  lemma XorLaws(x: bv32, y: bv32, z: bv32)
    ensures Xor(Xor(x, y), z) == Xor(x, Xor(y, z)) && Xor(x, y) == Xor(y, x)
    ensures Xor(x, 0) == x && Xor(x, Xor(x, y)) == y
  {}

  lemma XorBits(x: bv32, y: bv32)
    ensures Half(Xor(x, y)) == Xor(Half(x), Half(y)) && Odd(Xor(x, y)) == (Odd(x) != Odd(y))
  {}

  lemma BitLaws(b: bool)
    ensures Half(Bit(b)) == 0 && Odd(Bit(b)) == b
  {}

  lemma SameWord(x: bv32, y: bv32)
    requires Half(x) == Half(y) && Odd(x) == Odd(y)
    ensures x == y
  {}

  /** A word made of a lowest bit and others. */
  function Join(b: bool, w: bv32): bv32 { Xor(Bit(b), Twice(w)) }

  lemma Joined(b: bool, w: bv32)
    requires Top(w) == 0
    ensures Half(Join(b, w)) == w && Odd(Join(b, w)) == b
  {
    hide Bit, Twice, Xor, Half, Odd, Top;
    TwiceLaws(w);
    BitLaws(b);
    XorBits(Bit(b), Twice(w));
    XorLaws(0, w, 0);
    XorLaws(w, 0, 0);
  }

  function Twice(w: bv32): bv32 { w << 1 }

  lemma TwiceLaws(w: bv32)
    requires Top(w) == 0
    ensures Half(Twice(w)) == w && !Odd(Twice(w))
  {}

  function Shift2(w: bv32): bv32 { w >> 2 }

  function Shift4(w: bv32): bv32 { w >> 4 }

  function Shift8(w: bv32): bv32 { w >> 8 }

  function Top(w: bv32): bv32 { w >> 31 }

  lemma TwoHalves(w: bv32)
    ensures Half(Half(w)) == Shift2(w)
  {}

  lemma FourHalves(w: bv32)
    ensures Shift2(Shift2(w)) == Shift4(w)
  {}

  lemma EightHalves(w: bv32)
    ensures Shift4(Shift4(w)) == Shift8(w)
  {}

  lemma FourOctets(w: bv32)
    ensures Shift8(Shift8(Shift8(Shift8(w)))) == 0
    ensures Half(Shift2(Shift4(Shift8(Shift8(Shift8(w)))))) == Top(w)
  {}

  lemma Octet(w: bv32)
    ensures Shift8(Xor(w, w & 0xff)) == Shift8(w)
  {}

  // ---- The register ----

  lemma StepParts(c: bv32)
    ensures Step(c) == Xor(Half(c), if Odd(c) then 0xEDB88320 else 0)
  {
    hide Xor, Half, Odd;
  }

  lemma StepInjective(c: bv32, d: bv32)
    requires Step(c) == Step(d)
    ensures c == d
  {}

  /** A word without a lowest bit only shifts. */
  lemma Peel(c: bv32, w: bv32)
    requires !Odd(w)
    ensures Step(Xor(c, w)) == Xor(Step(c), Half(w))
  {
    hide Step, Xor, Half, Odd;
    StepParts(c);
    StepParts(Xor(c, w));
    XorBits(c, w);
    var g: bv32 := if Odd(c) then 0xEDB88320 else 0;
    XorLaws(Half(c), Half(w), g);
    XorLaws(Half(w), g, Half(c));
    XorLaws(Half(c), g, Half(w));
  }

  /** A step takes the lowest bit of a word and shifts the rest. */
  lemma StepTakesBit(c: bv32, w: bv32)
    ensures Step(Xor(c, w)) == Xor(Step(Xor(c, Bit(Odd(w)))), Half(w))
  {
    hide *;
    var b := Bit(Odd(w));
    var h := Xor(w, b);
    BitLaws(Odd(w));
    XorBits(w, b);
    XorLaws(Half(w), 0, 0);
    Peel(Xor(c, b), h);
    XorLaws(c, b, h);
    XorLaws(b, w, 0);
  }

  lemma {:induction false} StepsAdd(c: bv32, m: nat, n: nat)
    ensures Steps(c, m + n) == Steps(Steps(c, m), n)
    decreases m
  {
    hide Step;
    if m > 0 { StepsAdd(Step(c), m - 1, n); }
  }

  lemma {:induction false} StepsInjective(c: bv32, d: bv32, n: nat)
    requires Steps(c, n) == Steps(d, n)
    ensures c == d
    decreases n
  {
    if n > 0 {
      StepsInjective(Step(c), Step(d), n - 1);
      StepInjective(c, d);
    }
  }

  lemma {:induction false} ShiftAdd(w: bv32, m: nat, n: nat)
    ensures Shift(w, m + n) == Shift(Shift(w, m), n)
    decreases m
  {
    hide Half;
    if m > 0 { ShiftAdd(Half(w), m - 1, n); }
  }

  lemma {:induction false} ShiftZero(n: nat)
    ensures Shift(0, n) == 0
  {
    if n > 0 { ShiftZero(n - 1); }
  }

  lemma EightShifts(w: bv32)
    ensures Shift(w, 4) == Shift4(w) && Shift(w, 8) == Shift8(w) && Shift(w, 7) == Half(Shift2(Shift4(w)))
  {
    hide Half, Shift2, Shift4, Shift8;
    var v := Shift4(w);
    TwoHalves(w);
    TwoHalves(Shift2(w));
    TwoHalves(v);
    TwoHalves(Shift2(v));
    FourHalves(w);
    FourHalves(v);
    EightHalves(w);
    assert Shift(w, 4) == Shift(Shift2(w), 2) == v;
    assert Shift(v, 4) == Shift(Shift2(v), 2) == Shift8(w);
    assert Shift(v, 3) == Shift(Shift2(v), 1) == Half(Shift2(v));
    hide Shift;
    ShiftAdd(w, 4, 4);
    ShiftAdd(w, 4, 3);
  }

  lemma WordShifts(w: bv32)
    ensures Shift(w, 32) == 0 && Shift(w, 31) == Top(w)
  {
    hide *;
    var w1 := Shift8(w);
    var w2 := Shift8(w1);
    var w3 := Shift8(w2);
    EightShifts(w);
    EightShifts(w1);
    EightShifts(w2);
    EightShifts(w3);
    ShiftAdd(w, 8, 24);
    ShiftAdd(w1, 8, 16);
    ShiftAdd(w2, 8, 8);
    ShiftAdd(w, 8, 23);
    ShiftAdd(w1, 8, 15);
    ShiftAdd(w2, 8, 7);
    FourOctets(w);
  }

  lemma EightSteps(c: bv32)
    ensures Steps(c, 8) == Step8(c)
  {
    hide Step;
    var c2 := Step(Step(c));
    var c4 := Step(Step(c2));
    var c6 := Step(Step(c4));
    assert Steps(c, 8) == Steps(c2, 6);
    assert Steps(c2, 6) == Steps(c4, 4);
    assert Steps(c4, 4) == Steps(c6, 2);
  }

  /** The lowest n bits are zero. */
  predicate ZeroLow(w: bv32, n: nat)
    decreases n
  {
    n == 0 || (!Odd(w) && ZeroLow(Half(w), n - 1))
  }

  lemma OctetCleared(w: bv32)
    ensures ZeroLow(Xor(w, w & 0xff), 8)
  {
    var h := Xor(w, w & 0xff);
    Cleared(w);
    hide Half, Odd, Xor, Shift2, Shift4;
    var g := Shift4(h);
    TwoHalves(h);
    TwoHalves(Shift2(h));
    FourHalves(h);
    TwoHalves(g);
    assert ZeroLow(g, 4);
    assert ZeroLow(h, 8);
  }

  lemma Cleared(w: bv32)
    ensures var h := Xor(w, w & 0xff);
            && !Odd(h) && !Odd(Half(h)) && !Odd(Shift2(h)) && !Odd(Half(Shift2(h)))
            && var g := Shift4(h);
            && !Odd(g) && !Odd(Half(g)) && !Odd(Shift2(g)) && !Odd(Half(Shift2(g)))
  {}

  lemma {:induction false} StepsShift(c: bv32, w: bv32, n: nat)
    requires ZeroLow(w, n)
    ensures Steps(Xor(c, w), n) == Xor(Steps(c, n), Shift(w, n))
    decreases n
  {
    hide Step, Xor, Half, Odd;
    if n > 0 {
      Peel(c, w);
      StepsShift(Step(c), Half(w), n - 1);
    }
  }

  /** Eight steps depend on the lowest octet alone, apart from the shift of the others. */
  lemma StepsSplit(c: bv32, w: bv32)
    ensures Steps(Xor(c, w), 8) == Xor(Steps(Xor(c, w & 0xff), 8), Shift8(w))
  {
    hide *;
    var l := w & 0xff;
    var h := Xor(w, l);
    OctetCleared(w);
    StepsShift(Xor(c, l), h, 8);
    EightShifts(h);
    Octet(w);
    XorLaws(c, l, h);
    XorLaws(l, w, 0);
    XorLaws(w, l, 0);
  }
}
