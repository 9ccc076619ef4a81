/** The CRC-32 accumulator of fw/common/crc.c on a little-endian machine. */
module Crc {
  import opened ShiftRegister
  import opened Gf2Division
  import opened CrcTable
  import opened CrcBits

  const CRC32_INITIAL: bv32 := 0xFFFFFFFF

  function Word(b: bv8): bv32 { b as bv32 }

  function Octet0(w: bv32): (r: bv32)
    ensures r < 0x100
  {
    w & 0xff
  }

  /** One iteration of the loop of crc32_hash. */
  function TableStep(c: bv32, b: bv8): bv32 {
    var x := Xor(c, Word(b));
    Xor(Entry(Octet0(x)), Shift8(x))
  }

  /** The accumulator after the octets. */
  function Octets(c: bv32, message: seq<bv8>): bv32
    decreases |message|
  {
    if message == [] then c else Octets(TableStep(c, message[0]), message[1..])
  }

  /** The bits of the octets, each lowest bit first. */
  function MessageBits(message: seq<bv8>): (s: seq<bool>)
    ensures |s| == 8 * |message|
  {
    if message == [] then [] else Coefficients(Word(message[0]), 8) + MessageBits(message[1..])
  }

  lemma TableStepParts(c: bv32, b: bv8)
    ensures TableStep(c, b) == Xor(Step8(Octet0(Xor(c, Word(b)))), Shift8(Xor(c, Word(b))))
  {
    hide Step8, Xor, Shift8, Word, Octet0, Entry;
  }

  lemma WordFits(b: bv8)
    ensures Shift8(Word(b)) == 0 && Octet0(Word(b)) == Word(b)
  {}

  lemma StepsSplitNamed(c: bv32, w: bv32)
    ensures Steps(Xor(c, w), 8) == Xor(Steps(Xor(c, Octet0(w)), 8), Shift8(w))
  {
    hide Steps, Xor, Shift8;
    StepsSplit(c, w);
  }

  /** One look in the table does what eight bit-steps do. */
  lemma TableStepIsEightSteps(c: bv32, b: bv8)
    ensures TableStep(c, b) == Steps(Xor(c, Word(b)), 8)
    ensures TableStep(c, b) == Bits(c, Coefficients(Word(b), 8))
  {
    var x := Xor(c, Word(b));
    hide *;
    TableStepParts(c, b);
    StepsSplitNamed(0, x);
    XorLaws(0, x, 0);
    XorLaws(x, 0, 0);
    XorLaws(0, Octet0(x), 0);
    XorLaws(Octet0(x), 0, 0);
    EightSteps(Octet0(x));
    WordFits(b);
    EightShifts(Word(b));
    WordAtOnce(c, Word(b), 8);
  }

  /** The table gives what bit-serial processing gives, for every message. */
  lemma {:induction false} TableIsBitSerial(c: bv32, message: seq<bv8>)
    ensures Octets(c, message) == Bits(c, MessageBits(message))
    decreases |message|
  {
    hide TableStep, Coefficients, Bits, Word;
    if message == [] {
      NoBits(c);
    } else {
      TableStepIsEightSteps(c, message[0]);
      BitsAppend(c, Coefficients(Word(message[0]), 8), MessageBits(message[1..]));
      TableIsBitSerial(TableStep(c, message[0]), message[1..]);
    }
  }

  lemma NoBits(c: bv32)
    ensures Bits(c, []) == c
  {}

  lemma {:induction false} OctetsAppend(c: bv32, s: seq<bv8>, t: seq<bv8>)
    ensures Octets(c, s + t) == Octets(Octets(c, s), t)
    decreases |s|
  {
    hide TableStep;
    if s == [] {
      assert s + t == t;
    } else {
      assert (s + t)[1..] == s[1..] + t;
      OctetsAppend(TableStep(c, s[0]), s[1..], t);
    }
  }

  // ---- Words ----

  function Low(w: bv32): bv8 { (w & 0xff) as bv8 }

  /** A word in little-endian memory. */
  function OctetsOf32(w: bv32): seq<bv8> {
    [Low(w), Low(Shift8(w)), Low(Shift8(Shift8(w))), Low(Shift8(Shift8(Shift8(w))))]
  }

  function OctetsOf16(w: bv16): seq<bv8> {
    [Low(w as bv32), Low(Shift8(w as bv32))]
  }

  lemma LowWord(w: bv32)
    ensures Word(Low(w)) == Octet0(w)
  {}

  /** One octet of a word, with the rest of the word still to come. */
  lemma OctetOfWord(c: bv32, w: bv32)
    ensures Steps(Xor(c, w), 8) == Xor(TableStep(c, Low(w)), Shift8(w))
  {
    hide *;
    StepsSplitNamed(c, w);
    TableStepIsEightSteps(c, Low(w));
    LowWord(w);
  }

  lemma TwoTableSteps(c: bv32, a: bv8, b: bv8)
    ensures Octets(c, [a, b]) == TableStep(TableStep(c, a), b)
  {
    hide TableStep;
    assert [a, b][1..] == [b] && [b][1..] == [];
    assert Octets(TableStep(c, a), [b]) == Octets(TableStep(TableStep(c, a), b), []);
  }

  lemma TwoOctetsOfWord(c: bv32, w: bv32)
    ensures Steps(Xor(c, w), 16) == Xor(Octets(c, [Low(w), Low(Shift8(w))]), Shift8(Shift8(w)))
  {
    hide *;
    var v := Shift8(w);
    var d := TableStep(c, Low(w));
    OctetOfWord(c, w);
    OctetOfWord(d, v);
    StepsAdd(Xor(c, w), 8, 8);
    TwoTableSteps(c, Low(w), Low(v));
  }

  /** Hashing a word is xor with the word and 32 bit-steps. */
  lemma WordIs32Steps(c: bv32, w: bv32)
    ensures Octets(c, OctetsOf32(w)) == Steps(Xor(c, w), 32)
  {
    var w1 := Shift8(w);
    var w2 := Shift8(w1);
    var w3 := Shift8(w2);
    assert OctetsOf32(w) == [Low(w), Low(w1)] + [Low(w2), Low(w3)];
    hide *;
    var d := Octets(c, [Low(w), Low(w1)]);
    TwoOctetsOfWord(c, w);
    TwoOctetsOfWord(d, w2);
    StepsAdd(Xor(c, w), 16, 16);
    OctetsAppend(c, [Low(w), Low(w1)], [Low(w2), Low(w3)]);
    FourOctets(w);
    XorLaws(Octets(d, [Low(w2), Low(w3)]), 0, 0);
  }

  lemma HalfWord(w: bv16)
    ensures Shift8(Shift8(w as bv32)) == 0
  {}

  lemma HalfWordIs16Steps(c: bv32, w: bv16)
    ensures Octets(c, OctetsOf16(w)) == Steps(Xor(c, w as bv32), 16)
  {
    HalfWord(w);
    var v := w as bv32;
    assert OctetsOf16(w) == [Low(v), Low(Shift8(v))];
    hide *;
    TwoOctetsOfWord(c, v);
    XorLaws(Octets(c, [Low(v), Low(Shift8(v))]), 0, 0);
  }

  // ---- The accumulator ----

  /** The check value of clause 3.2.9 of IEEE 802.3: the message, with 32 zeros after it and its first 32
      bits complemented, divided by the generator; the remainder complemented. */
  function CheckValue(message: seq<bv8>): (r: Poly)
    ensures |r| == 32
  {
    var m := MessageBits(message) + Zeros(32);
    Sum(Remainder(Sum(Ones(32) + Zeros(|m| - 32), m)), Ones(32))
  }

  function Ones(n: nat): (s: Poly)
    ensures |s| == n && forall i :: 0 <= i < n ==> s[i]
  {
    seq(n, _ => true)
  }

  lemma {:induction false} AllOnes()
    ensures Coefficients(CRC32_INITIAL, 32) == Ones(32)
  {
    hide Coefficients;
    FourCoefficients(0xFFFFFFFF, 28);
    FourCoefficients(0xFFFFFFF, 24);
    FourCoefficients(0xFFFFFF, 20);
    FourCoefficients(0xFFFFF, 16);
    FourCoefficients(0xFFFF, 12);
    FourCoefficients(0xFFF, 8);
    FourCoefficients(0xFF, 4);
    FourCoefficients(0xF, 0);
  }

  /** The table-driven accumulator holds the check value of every message. */
  lemma AccumulatorIsCheckValue(message: seq<bv8>)
    ensures Coefficients(Xor(Octets(CRC32_INITIAL, message), CRC32_INITIAL), 32) == CheckValue(message)
  {
    var c := Octets(CRC32_INITIAL, message);
    hide Octets, MessageBits, Coefficients, Xor, Remainder;
    AllOnes();
    TableIsBitSerial(CRC32_INITIAL, message);
    RegisterIsRemainder(CRC32_INITIAL, MessageBits(message));
    CoefficientsXor(c, CRC32_INITIAL, 32);
  }

  /** Two messages of the same length whose differences lie within 32 consecutive bits never collide. */
  lemma BurstNeverCollides(c: bv32, s: seq<bv8>, t: seq<bv8>, p: nat)
    requires |s| == |t| && s != t
    requires forall i :: 0 <= i < 8 * |s| && (i < p || p + 32 <= i) ==> MessageBits(s)[i] == MessageBits(t)[i]
    ensures Octets(c, s) != Octets(c, t)
  {
    hide Octets, MessageBits, Bits;
    var x, y := MessageBits(s), MessageBits(t);
    TableIsBitSerial(c, s);
    TableIsBitSerial(c, t);
    if x == y {
      MessageBitsInjective(s, t);
      assert false;
    }
    BurstDetected(c, x, y, if p <= |x| then p else |x|);
  }

  lemma {:induction false} MessageBitsInjective(s: seq<bv8>, t: seq<bv8>)
    requires |s| == |t| && MessageBits(s) == MessageBits(t)
    ensures s == t
    decreases |s|
  {
    hide Coefficients;
    if s != [] {
      var x, y := Coefficients(Word(s[0]), 8), Coefficients(Word(t[0]), 8);
      assert x == MessageBits(s)[..8] && y == MessageBits(t)[..8];
      assert MessageBits(s[1..]) == MessageBits(s)[8..] && MessageBits(t[1..]) == MessageBits(t)[8..];
      SameOctet(s[0], t[0]);
      MessageBitsInjective(s[1..], t[1..]);
    }
  }

  lemma SameOctet(a: bv8, b: bv8)
    requires Coefficients(Word(a), 8) == Coefficients(Word(b), 8)
    ensures a == b
  {
    hide Coefficients;
    WordFits(a);
    WordFits(b);
    EightShifts(Word(a));
    EightShifts(Word(b));
    SameCoefficients(Word(a), Word(b), 8);
  }

  lemma {:induction false} SameCoefficients(x: bv32, y: bv32, n: nat)
    requires Coefficients(x, n) == Coefficients(y, n) && Shift(x, n) == Shift(y, n)
    ensures x == y
    decreases n
  {
    hide Odd, Half;
    if n > 0 {
      CoefficientsTail(x, n - 1);
      CoefficientsTail(y, n - 1);
      SameCoefficients(Half(x), Half(y), n - 1);
      SameWord(x, y);
    }
  }

  /** crc32_hash */
  method Hash(crc: bv32, buf: seq<bv8>) returns (r: bv32)
    ensures r == Bits(crc, MessageBits(buf))
    ensures r == Octets(crc, buf)
  {
    hide Entry, Xor, Octet0, Shift8, Word, Bits, MessageBits;
    r := crc;
    var p := 0;
    while p < |buf|
      invariant 0 <= p <= |buf| && Octets(crc, buf) == Octets(r, buf[p..])
    {
      r := Xor(r, Word(buf[p]));
      r := Xor(Entry(Octet0(r)), Shift8(r));
      p := p + 1;
      assert buf[p - 1..][1..] == buf[p..];
    }
    TableIsBitSerial(crc, buf);
  }

  class Accumulator {
    var crc: bv32
    ghost var message: seq<bv8>

    ghost predicate Valid()
      reads this
    {
      crc == Octets(CRC32_INITIAL, message)
    }

    /** crc32_init */
    method Init()
      modifies this
      ensures Valid() && message == []
    {
      crc := CRC32_INITIAL;
      message := [];
    }

    /** crc32_hash32 */
    method Hash32(val: bv32)
      requires Valid()
      modifies this
      ensures Valid() && message == old(message) + OctetsOf32(val)
      ensures crc == Steps(Xor(old(crc), val), 32)
    {
      hide Octets, Steps, Xor;
      crc := Hash(crc, OctetsOf32(val));
      WordIs32Steps(old(crc), val);
      OctetsAppend(CRC32_INITIAL, message, OctetsOf32(val));
      message := message + OctetsOf32(val);
    }

    /** crc32_hash16 */
    method Hash16(val: bv16)
      requires Valid()
      modifies this
      ensures Valid() && message == old(message) + OctetsOf16(val)
      ensures crc == Steps(Xor(old(crc), val as bv32), 16)
    {
      hide Octets, Steps, Xor;
      crc := Hash(crc, OctetsOf16(val));
      HalfWordIs16Steps(old(crc), val);
      OctetsAppend(CRC32_INITIAL, message, OctetsOf16(val));
      message := message + OctetsOf16(val);
    }

    /** crc32_result */
    method Result() returns (r: bv32)
      requires Valid()
      ensures Coefficients(r, 32) == CheckValue(message)
    {
      hide Octets, Coefficients, CheckValue, Xor;
      r := Xor(crc, 0xFFFFFFFF);
      AccumulatorIsCheckValue(message);
    }
  }
}
