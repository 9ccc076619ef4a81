/** fe_frombytes and fe_tobytes of fw/common/curve25519.c: 32 little-endian bytes to limbs and back. */
module FieldBytes {
  import opened MachineInts
  import opened Bits
  import opened Rfc7748
  import opened LittleEndian
  import opened Field25519
  import opened Curve25519

  /** The bytes of an array as integers. */
  function Bytes(a: array<uint8>): (r: seq<int>)
    reads a
    ensures |r| == a.Length && IsBytes(r)
    ensures forall i :: 0 <= i < a.Length ==> r[i] == a[i] as int
  {
    seq(a.Length, i requires 0 <= i < a.Length reads a => a[i] as int)
  }

  /** load_3: in[0] | in[1] << 8 | in[2] << 16 */
  function Load3(b0: uint8, b1: uint8, b2: uint8): (r: int64)
    ensures r as int == b0 as int + 0x100 * b1 as int + 0x1_0000 * b2 as int
  {
    Pow2Values();
    OrDisjoint(b0 as int, b1 as int, 8);
    OrDisjoint(b0 as int + 0x100 * b1 as int, b2 as int, 16);
    Or(Or(b0 as int, 0x100 * b1 as int), 0x1_0000 * b2 as int) as int64
  }

  /** load_4: load_3 | in[3] << 24 */
  function Load4(b0: uint8, b1: uint8, b2: uint8, b3: uint8): (r: int64)
    ensures r as int == b0 as int + 0x100 * b1 as int + 0x1_0000 * b2 as int + 0x100_0000 * b3 as int
  {
    Pow2Values();
    OrDisjoint(b0 as int + 0x100 * b1 as int + 0x1_0000 * b2 as int, b3 as int, 24);
    Or(Load3(b0, b1, b2) as int, 0x100_0000 * b3 as int) as int64
  }

  /** x & 8388607 */
  function Low23(x: int64): (r: int64)
    ensures r as int == x as int % 0x80_0000
  {
    Pow2Values();
    AndLow(x as int, 23);
    And(x as int, 0x7f_ffff) as int64
  }

  /** The limbs that fe_frombytes starts its carries from. */
  function RawLimbs(b: seq<int>): Limbs
    requires |b| == 32
  {
    Limbs(Word(b, 0), 0x40 * Three(b, 4), 0x20 * Three(b, 7), 0x8 * Three(b, 10), 0x4 * Three(b, 13),
          Word(b, 16), 0x80 * Three(b, 20), 0x20 * Three(b, 23), 0x10 * Three(b, 26), 0x4 * (Three(b, 29) % 0x80_0000))
  }

  function Three(b: seq<int>, i: nat): int
    requires i + 3 <= |b|
  {
    b[i] + 0x100 * b[i + 1] + 0x1_0000 * b[i + 2]
  }

  lemma RawLinear(b: seq<int>)
    requires |b| == 32 && IsBytes(b) && b[31] < 128
    ensures Value(RawLimbs(b)) == Words32(b)
  {
    assert Three(b, 29) % 0x80_0000 == Three(b, 29);
  }

  /** The raw limbs spell the u-coordinate: the top bit is ignored. */
  lemma RawValue(b: seq<int>)
    requires |b| == 32 && IsBytes(b)
    ensures Value(RawLimbs(b)) == DecodeU(b)
  {
    hide Value, Words32, DecodeLittleEndian;
    var u := b[31 := b[31] % 128];
    Decode32(u);
    RawLinear(u);
    TopLimb(b);
  }

  lemma TopLimb(b: seq<int>)
    requires |b| == 32 && IsBytes(b)
    ensures RawLimbs(b) == RawLimbs(b[31 := b[31] % 128])
  {
    assert Three(b, 29) == Three(b[31 := b[31] % 128], 29) + 0x80_0000 * (b[31] / 128);
  }

  method RawLoad(s: array<uint8>)
    returns (h0: int64, h1: int64, h2: int64, h3: int64, h4: int64,
             h5: int64, h6: int64, h7: int64, h8: int64, h9: int64)
    requires s.Length == 32
    ensures RawLimbs(Bytes(s)) == Limbs(h0 as int, h1 as int, h2 as int, h3 as int, h4 as int,
                                        h5 as int, h6 as int, h7 as int, h8 as int, h9 as int)
  {
    hide Load3, Load4, Low23;
    h0 := Load4(s[0], s[1], s[2], s[3]);
    h1 := Load3(s[4], s[5], s[6]) * 0x40;
    h2 := Load3(s[7], s[8], s[9]) * 0x20;
    h3 := Load3(s[10], s[11], s[12]) * 0x8;
    h4 := Load3(s[13], s[14], s[15]) * 0x4;
    h5 := Load4(s[16], s[17], s[18], s[19]);
    h6 := Load3(s[20], s[21], s[22]) * 0x80;
    h7 := Load3(s[23], s[24], s[25]) * 0x20;
    h8 := Load3(s[26], s[27], s[28]) * 0x10;
    h9 := Low23(Load3(s[29], s[30], s[31])) * 0x4;
  }

  lemma RawBounds(b: seq<int>)
    requires |b| == 32 && IsBytes(b)
    ensures Within(RawLimbs(b), 0x1_0000_0000, 0x1_0000_0000)
  {}

  /** Reads 32 bytes as a field element; the top bit is ignored. */
  method FeFromBytes(h: array<int32>, s: array<uint8>)
    requires h.Length == 10 && s.Length == 32
    modifies h
    ensures Tight(Load(h))
    ensures Elem(Load(h)) == DecodeU(Bytes(s)) % P
  {
    hide Value, DecodeU, RawLimbs, ReducedSmall;
    ghost var b := Bytes(s);
    var h0, h1, h2, h3, h4, h5, h6, h7, h8, h9 := RawLoad(s);
    RawBounds(b);
    RawValue(b);
    ReducedElem(RawLimbs(b));
    ReduceSmall(h, h0, h1, h2, h3, h4, h5, h6, h7, h8, h9, RawLimbs(b));
  }

  // ---- fe_tobytes ----

  /** Division by a power of two stands for a right shift, and Low8 for the truncation to a byte. */
  function Shift(x: int, m: int): int
    requires m > 0
  {
    x / m
  }

  function Low8(x: int): int { x % 0x100 }

  /** Byte k of the 16 that hold limbs 0 to 4. */
  function LowByte(l: Limbs, k: nat): int
    requires k < 16
  {
    match k
    case 0 => Low8(Shift(l.h0, 1))
    case 1 => Low8(Shift(l.h0, 0x100))
    case 2 => Low8(Shift(l.h0, 0x1_0000))
    case 3 => Low8(Shift(l.h0, 0x100_0000) + 0x4 * l.h1)
    case 4 => Low8(Shift(l.h1, 0x40))
    case 5 => Low8(Shift(l.h1, 0x4000))
    case 6 => Low8(Shift(l.h1, 0x40_0000) + 0x8 * l.h2)
    case 7 => Low8(Shift(l.h2, 0x20))
    case 8 => Low8(Shift(l.h2, 0x2000))
    case 9 => Low8(Shift(l.h2, 0x20_0000) + 0x20 * l.h3)
    case 10 => Low8(Shift(l.h3, 0x8))
    case 11 => Low8(Shift(l.h3, 0x800))
    case 12 => Low8(Shift(l.h3, 0x8_0000) + 0x40 * l.h4)
    case 13 => Low8(Shift(l.h4, 0x4))
    case 14 => Low8(Shift(l.h4, 0x400))
    case _ => Low8(Shift(l.h4, 0x4_0000))
  }

  /** Byte k of the 16 that hold limbs 5 to 9. */
  function HighByte(l: Limbs, k: nat): int
    requires k < 16
  {
    match k
    case 0 => Low8(Shift(l.h5, 1))
    case 1 => Low8(Shift(l.h5, 0x100))
    case 2 => Low8(Shift(l.h5, 0x1_0000))
    case 3 => Low8(Shift(l.h5, 0x100_0000) + 0x2 * l.h6)
    case 4 => Low8(Shift(l.h6, 0x80))
    case 5 => Low8(Shift(l.h6, 0x8000))
    case 6 => Low8(Shift(l.h6, 0x80_0000) + 0x8 * l.h7)
    case 7 => Low8(Shift(l.h7, 0x20))
    case 8 => Low8(Shift(l.h7, 0x2000))
    case 9 => Low8(Shift(l.h7, 0x20_0000) + 0x10 * l.h8)
    case 10 => Low8(Shift(l.h8, 0x10))
    case 11 => Low8(Shift(l.h8, 0x1000))
    case 12 => Low8(Shift(l.h8, 0x10_0000) + 0x40 * l.h9)
    case 13 => Low8(Shift(l.h9, 0x4))
    case 14 => Low8(Shift(l.h9, 0x400))
    case _ => Low8(Shift(l.h9, 0x4_0000))
  }

  function LowBytes(l: Limbs): seq<int> {
    seq(16, k requires 0 <= k < 16 => LowByte(l, k))
  }

  function HighBytes(l: Limbs): seq<int> {
    seq(16, k requires 0 <= k < 16 => HighByte(l, k))
  }

  function Words16(b: seq<int>): int
    requires |b| == 16
  {
    Word(b, 0) + 0x1_0000_0000 * (Word(b, 4) + 0x1_0000_0000 * (Word(b, 8) + 0x1_0000_0000 * Word(b, 12)))
  }

  // How a limb splits at byte boundaries, for each offset of a limb within its first byte.

  lemma Digits1(h: int)
    ensures h == Low8(Shift(h, 1)) + 0x100 * Low8(Shift(h, 0x100)) + 0x1_0000 * Low8(Shift(h, 0x1_0000))
      + 0x100_0000 * Shift(h, 0x100_0000)
  {
    assert h / 0x1_0000 == h / 0x100 / 0x100;
    assert h / 0x100_0000 == h / 0x1_0000 / 0x100;
  }

  lemma Digits4(h: int)
    ensures h == h % 4 + 4 * Low8(Shift(h, 0x4)) + 0x400 * Low8(Shift(h, 0x400)) + 0x4_0000 * Shift(h, 0x4_0000)
  {
    assert h / 0x400 == h / 0x4 / 0x100;
    assert h / 0x4_0000 == h / 0x400 / 0x100;
  }

  lemma Digits8(h: int)
    ensures h == h % 8 + 8 * Low8(Shift(h, 0x8)) + 0x800 * Low8(Shift(h, 0x800)) + 0x8_0000 * Shift(h, 0x8_0000)
  {
    assert h / 0x800 == h / 0x8 / 0x100;
    assert h / 0x8_0000 == h / 0x800 / 0x100;
  }

  lemma Digits16(h: int)
    ensures h == h % 16 + 16 * Low8(Shift(h, 0x10)) + 0x1000 * Low8(Shift(h, 0x1000)) + 0x10_0000 * Shift(h, 0x10_0000)
  {
    assert h / 0x1000 == h / 0x10 / 0x100;
    assert h / 0x10_0000 == h / 0x1000 / 0x100;
  }

  lemma Digits32(h: int)
    ensures h == h % 32 + 32 * Low8(Shift(h, 0x20)) + 0x2000 * Low8(Shift(h, 0x2000)) + 0x20_0000 * Shift(h, 0x20_0000)
  {
    assert h / 0x2000 == h / 0x20 / 0x100;
    assert h / 0x20_0000 == h / 0x2000 / 0x100;
  }

  lemma Digits64(h: int)
    ensures h == h % 64 + 64 * Low8(Shift(h, 0x40)) + 0x4000 * Low8(Shift(h, 0x4000)) + 0x40_0000 * Shift(h, 0x40_0000)
  {
    assert h / 0x4000 == h / 0x40 / 0x100;
    assert h / 0x40_0000 == h / 0x4000 / 0x100;
  }

  lemma Digits128(h: int)
    ensures h == h % 128 + 128 * Low8(Shift(h, 0x80)) + 0x8000 * Low8(Shift(h, 0x8000))
      + 0x80_0000 * Shift(h, 0x80_0000)
  {
    assert h / 0x8000 == h / 0x80 / 0x100;
    assert h / 0x80_0000 == h / 0x8000 / 0x100;
  }

  // Two limbs that share a byte.

  lemma Shared2(a: int, h: int)
    requires 0 <= a < 2
    ensures Low8(a + 0x2 * h) == a + 2 * (h % 128)
  {}

  lemma Shared4(a: int, h: int)
    requires 0 <= a < 4
    ensures Low8(a + 0x4 * h) == a + 4 * (h % 64)
  {}

  /** The low byte of a low part and the bits of h above it. */
  lemma SharedByte(a: int, h: int, m: int, n: int)
    requires 0 <= a < m && n > 0 && m * n == 0x100
    ensures Low8(a + m * h) == a + m * (h % n)
  {
    var q, r := h / n, h % n;
    assert m * h == 0x100 * q + m * r by {
      assert m * (n * q) == (m * n) * q;
      assert m * (n * q + r) == m * (n * q) + m * r;
    }
    assert m * r <= m * (n - 1);
    ModIs(a + m * h, 0x100, q, a + m * r);
  }

  lemma Shared8(a: int, h: int)
    requires 0 <= a < 8
    ensures Low8(a + 0x8 * h) == a + 8 * (h % 32)
  {
    SharedByte(a, h, 8, 32);
  }

  lemma Shared16(a: int, h: int)
    requires 0 <= a < 16
    ensures Low8(a + 0x10 * h) == a + 16 * (h % 16)
  {
    SharedByte(a, h, 16, 16);
  }

  lemma Shared32(a: int, h: int)
    requires 0 <= a < 32
    ensures Low8(a + 0x20 * h) == a + 32 * (h % 8)
  {
    SharedByte(a, h, 32, 8);
  }

  lemma Shared64(a: int, h: int)
    requires 0 <= a < 64
    ensures Low8(a + 0x40 * h) == a + 64 * (h % 4)
  {
    SharedByte(a, h, 64, 4);
  }

  /** The bits of each limb that spill into the byte of the next. */
  lemma TopBits(l: Limbs)
    requires Canonical(l)
    ensures 0 <= Shift(l.h0, 0x100_0000) < 4 && 0 <= Shift(l.h1, 0x40_0000) < 8
    ensures 0 <= Shift(l.h2, 0x20_0000) < 32 && 0 <= Shift(l.h3, 0x8_0000) < 64
    ensures 0 <= Shift(l.h5, 0x100_0000) < 2 && 0 <= Shift(l.h6, 0x80_0000) < 8
    ensures 0 <= Shift(l.h7, 0x20_0000) < 16 && 0 <= Shift(l.h8, 0x10_0000) < 64
    ensures Low8(Shift(l.h4, 0x4_0000)) == Shift(l.h4, 0x4_0000) && Low8(Shift(l.h9, 0x4_0000)) == Shift(l.h9, 0x4_0000)
  {}

  lemma LowLinear(b: seq<int>, l: Limbs, t0: int, t1: int, t2: int, t3: int, u1: int, u2: int, u3: int, u4: int)
    requires |b| == 16
    requires l.h0 == b[0] + 0x100 * b[1] + 0x1_0000 * b[2] + 0x100_0000 * t0 && b[3] == t0 + 4 * u1
    requires l.h1 == u1 + 0x40 * b[4] + 0x4000 * b[5] + 0x40_0000 * t1 && b[6] == t1 + 8 * u2
    requires l.h2 == u2 + 0x20 * b[7] + 0x2000 * b[8] + 0x20_0000 * t2 && b[9] == t2 + 32 * u3
    requires l.h3 == u3 + 0x8 * b[10] + 0x800 * b[11] + 0x8_0000 * t3 && b[12] == t3 + 64 * u4
    requires l.h4 == u4 + 0x4 * b[13] + 0x400 * b[14] + 0x4_0000 * b[15]
    ensures Words16(b) == l.h0 + l.h1 * 0x400_0000 + l.h2 * 0x8_0000_0000_0000
      + l.h3 * 0x2000_0000_0000_0000_0000 + l.h4 * 0x40_0000_0000_0000_0000_0000_0000
  {}

  lemma LowBytesValue(l: Limbs)
    requires Canonical(l)
    ensures Words16(LowBytes(l)) == l.h0 + l.h1 * 0x400_0000 + l.h2 * 0x8_0000_0000_0000
      + l.h3 * 0x2000_0000_0000_0000_0000 + l.h4 * 0x40_0000_0000_0000_0000_0000_0000
  {
    hide Words16, Shift, Low8;
    TopBits(l);
    Digits1(l.h0);
    Shared4(Shift(l.h0, 0x100_0000), l.h1);
    Digits64(l.h1);
    Shared8(Shift(l.h1, 0x40_0000), l.h2);
    Digits32(l.h2);
    Shared32(Shift(l.h2, 0x20_0000), l.h3);
    Digits8(l.h3);
    Shared64(Shift(l.h3, 0x8_0000), l.h4);
    Digits4(l.h4);
    LowLinear(LowBytes(l), l, Shift(l.h0, 0x100_0000), Shift(l.h1, 0x40_0000), Shift(l.h2, 0x20_0000),
              Shift(l.h3, 0x8_0000), l.h1 % 64, l.h2 % 32, l.h3 % 8, l.h4 % 4);
  }

  lemma HighLinear(b: seq<int>, l: Limbs, t5: int, t6: int, t7: int, t8: int, u6: int, u7: int, u8: int, u9: int)
    requires |b| == 16
    requires l.h5 == b[0] + 0x100 * b[1] + 0x1_0000 * b[2] + 0x100_0000 * t5 && b[3] == t5 + 2 * u6
    requires l.h6 == u6 + 0x80 * b[4] + 0x8000 * b[5] + 0x80_0000 * t6 && b[6] == t6 + 8 * u7
    requires l.h7 == u7 + 0x20 * b[7] + 0x2000 * b[8] + 0x20_0000 * t7 && b[9] == t7 + 16 * u8
    requires l.h8 == u8 + 0x10 * b[10] + 0x1000 * b[11] + 0x10_0000 * t8 && b[12] == t8 + 64 * u9
    requires l.h9 == u9 + 0x4 * b[13] + 0x400 * b[14] + 0x4_0000 * b[15]
    ensures Words16(b) == l.h5 + l.h6 * 0x200_0000 + l.h7 * 0x8_0000_0000_0000
      + l.h8 * 0x1000_0000_0000_0000_0000 + l.h9 * 0x40_0000_0000_0000_0000_0000_0000
  {}

  lemma HighBytesValue(l: Limbs)
    requires Canonical(l)
    ensures Words16(HighBytes(l)) == l.h5 + l.h6 * 0x200_0000 + l.h7 * 0x8_0000_0000_0000
      + l.h8 * 0x1000_0000_0000_0000_0000 + l.h9 * 0x40_0000_0000_0000_0000_0000_0000
  {
    hide Words16, Shift, Low8;
    TopBits(l);
    Digits1(l.h5);
    Shared2(Shift(l.h5, 0x100_0000), l.h6);
    Digits128(l.h6);
    Shared8(Shift(l.h6, 0x80_0000), l.h7);
    Digits32(l.h7);
    Shared16(Shift(l.h7, 0x20_0000), l.h8);
    Digits16(l.h8);
    Shared64(Shift(l.h8, 0x10_0000), l.h9);
    Digits4(l.h9);
    HighLinear(HighBytes(l), l, Shift(l.h5, 0x100_0000), Shift(l.h6, 0x80_0000), Shift(l.h7, 0x20_0000),
               Shift(l.h8, 0x10_0000), l.h6 % 128, l.h7 % 32, l.h8 % 16, l.h9 % 4);
  }

  lemma JoinedWords(b: seq<int>, c: seq<int>)
    requires |b| == |c| == 16
    ensures Words32(b + c) == Words16(b) + 0x1_0000_0000_0000_0000_0000_0000_0000_0000 * Words16(c)
  {}

  lemma ValueHalves(l: Limbs)
    ensures Value(l) == l.h0 + l.h1 * 0x400_0000 + l.h2 * 0x8_0000_0000_0000
      + l.h3 * 0x2000_0000_0000_0000_0000 + l.h4 * 0x40_0000_0000_0000_0000_0000_0000
      + 0x1_0000_0000_0000_0000_0000_0000_0000_0000 * (l.h5 + l.h6 * 0x200_0000 + l.h7 * 0x8_0000_0000_0000
      + l.h8 * 0x1000_0000_0000_0000_0000 + l.h9 * 0x40_0000_0000_0000_0000_0000_0000)
  {}

  lemma CanonicalDecode(l: Limbs, b: seq<int>)
    requires Canonical(l) && b == LowBytes(l) + HighBytes(l)
    ensures DecodeLittleEndian(b) == Value(l)
  {
    hide Words16, Words32, Value, Low8, Shift;
    LowBytesValue(l);
    HighBytesValue(l);
    JoinedWords(LowBytes(l), HighBytes(l));
    ValueHalves(l);
    Decode32(b);
  }

  // The shifts and masks of the 32-bit code: x >> 26, x & kBottom26Bits, x >> 25, x & kBottom25Bits.

  function Sar26(x: int32): (r: int32)
    ensures r as int == High26(x as int)
  {
    x / 0x400_0000
  }

  function Bottom26(x: int32): (r: int32)
    ensures r as int == Low26(x as int)
  {
    hide And;
    Pow2Values();
    AndLow(x as int, 26);
    And(x as int, 0x3ff_ffff) as int32
  }

  function Sar25(x: int32): (r: int32)
    ensures r as int == High25(x as int)
  {
    x / 0x200_0000
  }

  function Bottom25(x: int32): (r: int32)
    ensures r as int == Low25(x as int)
  {
    hide And;
    Pow2Values();
    AndLow(x as int, 25);
    And(x as int, 0x1ff_ffff) as int32
  }

  /** The quotient of the value by the prime, by nested floors from an estimate on the top limb. */
  method Quotient(h0: int32, h1: int32, h2: int32, h3: int32, h4: int32,
                  h5: int32, h6: int32, h7: int32, h8: int32, h9: int32, ghost l: Limbs) returns (q: int32)
    requires l == Limbs(h0 as int, h1 as int, h2 as int, h3 as int, h4 as int,
                        h5 as int, h6 as int, h7 as int, h8 as int, h9 as int)
    requires Loose(l)
    ensures q as int == CarryOut(l, Estimate(l), 9) && -3 <= q <= 3
  {
    hide High25, High26, Sar25, Sar26, CarryOut;
    q := Sar25(19 * h9 + 0x100_0000);
    ghost var x := q as int;
    CarrySteps(l, x);
    q := Sar26(h0 + q);
    assert q as int == CarryOut(l, x, 0);
    q := Sar25(h1 + q);
    assert q as int == CarryOut(l, x, 1);
    q := Sar26(h2 + q);
    assert q as int == CarryOut(l, x, 2);
    q := Sar25(h3 + q);
    assert q as int == CarryOut(l, x, 3);
    q := Sar26(h4 + q);
    assert q as int == CarryOut(l, x, 4);
    q := Sar25(h5 + q);
    assert q as int == CarryOut(l, x, 5);
    q := Sar26(h6 + q);
    assert q as int == CarryOut(l, x, 6);
    q := Sar25(h7 + q);
    assert q as int == CarryOut(l, x, 7);
    q := Sar26(h8 + q);
    assert q as int == CarryOut(l, x, 8);
    q := Sar25(h9 + q);
    assert q as int == CarryOut(l, x, 9);
  }

  /** Adds 19 q, floors every limb to its radix and drops the last carry. */
  method Freeze(x0: int32, x1: int32, x2: int32, x3: int32, x4: int32,
                x5: int32, x6: int32, x7: int32, x8: int32, x9: int32, q: int32, ghost l: Limbs)
    returns (h0: int32, h1: int32, h2: int32, h3: int32, h4: int32,
             h5: int32, h6: int32, h7: int32, h8: int32, h9: int32)
    requires l == Limbs(x0 as int, x1 as int, x2 as int, x3 as int, x4 as int,
                        x5 as int, x6 as int, x7 as int, x8 as int, x9 as int)
    requires Loose(l) && -3 <= q <= 3
    ensures Floored(l, 19 * q as int) == Limbs(h0 as int, h1 as int, h2 as int, h3 as int, h4 as int,
                                            h5 as int, h6 as int, h7 as int, h8 as int, h9 as int)
  {
    hide High25, High26, Low25, Low26, CarryOut;
    h0, h1, h2, h3, h4, h5 := FreezeLow(x0, x1, x2, x3, x4, x5, q, l);
    h5, h6, h7, h8, h9 := FreezeHigh(h5, x6, x7, x8, x9, l, 19 * q as int);
  }

  method FreezeLow(x0: int32, x1: int32, x2: int32, x3: int32, x4: int32, x5: int32, q: int32, ghost l: Limbs)
    returns (h0: int32, h1: int32, h2: int32, h3: int32, h4: int32, h5: int32)
    requires x0 as int == l.h0 && x1 as int == l.h1 && x2 as int == l.h2 && x3 as int == l.h3 && x4 as int == l.h4
    requires x5 as int == l.h5 && Loose(l) && -3 <= q <= 3
    ensures var x := 19 * q as int;
            && h0 as int == Low26(l.h0 + x) && h1 as int == Low25(l.h1 + CarryOut(l, x, 0))
            && h2 as int == Low26(l.h2 + CarryOut(l, x, 1)) && h3 as int == Low25(l.h3 + CarryOut(l, x, 2))
            && h4 as int == Low26(l.h4 + CarryOut(l, x, 3)) && h5 as int == l.h5 + CarryOut(l, x, 4)
  {
    hide High25, High26, Low25, Low26, Sar25, Sar26, Bottom25, Bottom26, CarryOut;
    CarrySteps(l, 19 * q as int);
    h0, h1, h2, h3, h4, h5 := x0, x1, x2, x3, x4, x5;
    h0 := h0 + 19 * q;
    h1 := h1 + Sar26(h0); h0 := Bottom26(h0);
    h2 := h2 + Sar25(h1); h1 := Bottom25(h1);
    h3 := h3 + Sar26(h2); h2 := Bottom26(h2);
    h4 := h4 + Sar25(h3); h3 := Bottom25(h3);
    h5 := h5 + Sar26(h4); h4 := Bottom26(h4);
  }

  method FreezeHigh(c5: int32, x6: int32, x7: int32, x8: int32, x9: int32, ghost l: Limbs, ghost x: int)
    returns (h5: int32, h6: int32, h7: int32, h8: int32, h9: int32)
    requires x6 as int == l.h6 && x7 as int == l.h7 && x8 as int == l.h8 && x9 as int == l.h9
    requires c5 as int == l.h5 + CarryOut(l, x, 4) && Loose(l)
    ensures h5 as int == Low25(l.h5 + CarryOut(l, x, 4)) && h6 as int == Low26(l.h6 + CarryOut(l, x, 5))
    ensures h7 as int == Low25(l.h7 + CarryOut(l, x, 6)) && h8 as int == Low26(l.h8 + CarryOut(l, x, 7))
    ensures h9 as int == Low25(l.h9 + CarryOut(l, x, 8))
  {
    hide High25, High26, Low25, Low26, Sar25, Sar26, Bottom25, Bottom26, CarryOut;
    CarrySteps(l, x);
    h5, h6, h7, h8, h9 := c5, x6, x7, x8, x9;
    h6 := h6 + Sar25(h5); h5 := Bottom25(h5);
    h7 := h7 + Sar26(h6); h6 := Bottom26(h6);
    h8 := h8 + Sar25(h7); h7 := Bottom25(h7);
    h9 := h9 + Sar26(h8); h8 := Bottom26(h8);
    h9 := Bottom25(h9);
  }

  /** (uint8_t) (x >> n), with m = 2^n */
  function Byte(x: int32, m: int32): (r: uint8)
    requires m > 0
    ensures r as int == Low8(Shift(x as int, m as int))
  {
    (x as int / m as int % 0x100) as uint8
  }

  /** (uint8_t) ((x >> n) | ((uint32_t) y << k)), with m = 2^n */
  function JoinByte(x: int32, m: int32, y: int32, k: nat): (r: uint8)
    requires m > 0 && k < 7 && 0 <= Shift(x as int, m as int) < Pow2(k) && 0 <= y < 0x400_0000
    ensures r as int == Low8(Shift(x as int, m as int) + Pow2(k) * y as int)
  {
    Pow2Small(k);
    OrDisjoint(x as int / m as int, y as int, k);
    var word := Or(x as int / m as int, Pow2(k) * y as int) as uint32;
    (word % 0x100) as uint8
  }

  lemma Pow2Small(k: nat)
    requires k < 7
    ensures Pow2(k) <= 64
    ensures Pow2(1) == 2 && Pow2(2) == 4 && Pow2(3) == 8 && Pow2(4) == 16 && Pow2(5) == 32 && Pow2(6) == 64
  {
    if k == 0 {} else if k == 1 {} else if k == 2 {} else if k == 3 {} else if k == 4 {} else if k == 5 {} else {}
  }

  method StoreLow(s: array<uint8>, h0: int32, h1: int32, h2: int32, h3: int32, h4: int32, ghost c: Limbs)
    requires s.Length == 32
    requires Canonical(c)
    requires c.h0 == h0 as int && c.h1 == h1 as int && c.h2 == h2 as int && c.h3 == h3 as int && c.h4 == h4 as int
    modifies s
    ensures s[0] as int == LowByte(c, 0) && s[1] as int == LowByte(c, 1) && s[2] as int == LowByte(c, 2)
      && s[3] as int == LowByte(c, 3)
    ensures s[4] as int == LowByte(c, 4) && s[5] as int == LowByte(c, 5) && s[6] as int == LowByte(c, 6)
      && s[7] as int == LowByte(c, 7)
    ensures s[8] as int == LowByte(c, 8) && s[9] as int == LowByte(c, 9) && s[10] as int == LowByte(c, 10)
      && s[11] as int == LowByte(c, 11)
    ensures s[12] as int == LowByte(c, 12) && s[13] as int == LowByte(c, 13) && s[14] as int == LowByte(c, 14)
      && s[15] as int == LowByte(c, 15)
  {
    hide Low8, Shift, Byte, JoinByte;
    TopBits(c);
    Pow2Small(0);
    s[0] := Byte(h0, 1);
    s[1] := Byte(h0, 0x100);
    s[2] := Byte(h0, 0x1_0000);
    s[3] := JoinByte(h0, 0x100_0000, h1, 2);
    s[4] := Byte(h1, 0x40);
    s[5] := Byte(h1, 0x4000);
    s[6] := JoinByte(h1, 0x40_0000, h2, 3);
    s[7] := Byte(h2, 0x20);
    s[8] := Byte(h2, 0x2000);
    s[9] := JoinByte(h2, 0x20_0000, h3, 5);
    s[10] := Byte(h3, 0x8);
    s[11] := Byte(h3, 0x800);
    s[12] := JoinByte(h3, 0x8_0000, h4, 6);
    s[13] := Byte(h4, 0x4);
    s[14] := Byte(h4, 0x400);
    s[15] := Byte(h4, 0x4_0000);
  }

  method StoreHigh(s: array<uint8>, h5: int32, h6: int32, h7: int32, h8: int32, h9: int32, ghost c: Limbs)
    requires s.Length == 32
    requires Canonical(c)
    requires c.h5 == h5 as int && c.h6 == h6 as int && c.h7 == h7 as int && c.h8 == h8 as int && c.h9 == h9 as int
    modifies s
    ensures s[..16] == old(s[..16])
    ensures s[16] as int == HighByte(c, 0) && s[17] as int == HighByte(c, 1) && s[18] as int == HighByte(c, 2)
      && s[19] as int == HighByte(c, 3)
    ensures s[20] as int == HighByte(c, 4) && s[21] as int == HighByte(c, 5) && s[22] as int == HighByte(c, 6)
      && s[23] as int == HighByte(c, 7)
    ensures s[24] as int == HighByte(c, 8) && s[25] as int == HighByte(c, 9) && s[26] as int == HighByte(c, 10)
      && s[27] as int == HighByte(c, 11)
    ensures s[28] as int == HighByte(c, 12) && s[29] as int == HighByte(c, 13) && s[30] as int == HighByte(c, 14)
      && s[31] as int == HighByte(c, 15)
  {
    hide Low8, Shift, Byte, JoinByte;
    TopBits(c);
    Pow2Small(0);
    s[16] := Byte(h5, 1);
    s[17] := Byte(h5, 0x100);
    s[18] := Byte(h5, 0x1_0000);
    s[19] := JoinByte(h5, 0x100_0000, h6, 1);
    s[20] := Byte(h6, 0x80);
    s[21] := Byte(h6, 0x8000);
    s[22] := JoinByte(h6, 0x80_0000, h7, 3);
    s[23] := Byte(h7, 0x20);
    s[24] := Byte(h7, 0x2000);
    s[25] := JoinByte(h7, 0x20_0000, h8, 4);
    s[26] := Byte(h8, 0x10);
    s[27] := Byte(h8, 0x1000);
    s[28] := JoinByte(h8, 0x10_0000, h9, 6);
    s[29] := Byte(h9, 0x4);
    s[30] := Byte(h9, 0x400);
    s[31] := Byte(h9, 0x4_0000);
  }

  lemma BytesAre(s: array<uint8>, c: Limbs)
    requires s.Length == 32
    requires s[0] as int == LowByte(c, 0) && s[1] as int == LowByte(c, 1) && s[2] as int == LowByte(c, 2)
      && s[3] as int == LowByte(c, 3)
    requires s[4] as int == LowByte(c, 4) && s[5] as int == LowByte(c, 5) && s[6] as int == LowByte(c, 6)
      && s[7] as int == LowByte(c, 7)
    requires s[8] as int == LowByte(c, 8) && s[9] as int == LowByte(c, 9) && s[10] as int == LowByte(c, 10)
      && s[11] as int == LowByte(c, 11)
    requires s[12] as int == LowByte(c, 12) && s[13] as int == LowByte(c, 13) && s[14] as int == LowByte(c, 14)
      && s[15] as int == LowByte(c, 15)
    requires s[16] as int == HighByte(c, 0) && s[17] as int == HighByte(c, 1) && s[18] as int == HighByte(c, 2)
      && s[19] as int == HighByte(c, 3)
    requires s[20] as int == HighByte(c, 4) && s[21] as int == HighByte(c, 5) && s[22] as int == HighByte(c, 6)
      && s[23] as int == HighByte(c, 7)
    requires s[24] as int == HighByte(c, 8) && s[25] as int == HighByte(c, 9) && s[26] as int == HighByte(c, 10)
      && s[27] as int == HighByte(c, 11)
    requires s[28] as int == HighByte(c, 12) && s[29] as int == HighByte(c, 13) && s[30] as int == HighByte(c, 14)
      && s[31] as int == HighByte(c, 15)
    ensures Bytes(s) == LowBytes(c) + HighBytes(c)
  {
    hide LowByte, HighByte;
    var b := LowBytes(c) + HighBytes(c);
    assert b[0] == Bytes(s)[0] && b[1] == Bytes(s)[1] && b[2] == Bytes(s)[2] && b[3] == Bytes(s)[3]
        && b[4] == Bytes(s)[4] && b[5] == Bytes(s)[5] && b[6] == Bytes(s)[6] && b[7] == Bytes(s)[7]
        && b[8] == Bytes(s)[8] && b[9] == Bytes(s)[9] && b[10] == Bytes(s)[10] && b[11] == Bytes(s)[11]
        && b[12] == Bytes(s)[12] && b[13] == Bytes(s)[13] && b[14] == Bytes(s)[14] && b[15] == Bytes(s)[15]
        && b[16] == Bytes(s)[16] && b[17] == Bytes(s)[17] && b[18] == Bytes(s)[18] && b[19] == Bytes(s)[19]
        && b[20] == Bytes(s)[20] && b[21] == Bytes(s)[21] && b[22] == Bytes(s)[22] && b[23] == Bytes(s)[23]
        && b[24] == Bytes(s)[24] && b[25] == Bytes(s)[25] && b[26] == Bytes(s)[26] && b[27] == Bytes(s)[27]
        && b[28] == Bytes(s)[28] && b[29] == Bytes(s)[29] && b[30] == Bytes(s)[30] && b[31] == Bytes(s)[31];
  }

  lemma EncodeElem(l: Limbs)
    ensures EncodeU(Elem(l)) == EncodeLittleEndian(Elem(l), 32)
  {
    hide EncodeLittleEndian, Value;
  }

  /** Writes the unique representative in [0, P) of the limbs as 32 little-endian bytes. */
  method FeToBytes(s: array<uint8>, h: array<int32>)
    requires s.Length == 32 && h.Length == 10
    requires Loose(Load(h))
    modifies s
    ensures Bytes(s) == EncodeU(Elem(Load(h)))
  {
    hide Value, Canonical, Floored, CarryOut, LowBytes, HighBytes, LowByte, HighByte, Bytes, EncodeU, Elem,
         EncodeLittleEndian, DecodeLittleEndian, Estimate;
    ghost var l := Load(h);
    EncodeElem(l);
    var q := Quotient(h[0], h[1], h[2], h[3], h[4], h[5], h[6], h[7], h[8], h[9], l);
    var h0, h1, h2, h3, h4, h5, h6, h7, h8, h9 :=
      Freeze(h[0], h[1], h[2], h[3], h[4], h[5], h[6], h[7], h[8], h[9], q, l);
    QuotientExact(l);
    ghost var c := Floored(l, 19 * q as int);
    CanonicalValue(l, Value(l) / P);
    StoreLow(s, h0, h1, h2, h3, h4, c);
    ghost var low := s[..16];
    StoreHigh(s, h5, h6, h7, h8, h9, c);
    assert s[..16] == low;
    BytesAre(s, c);
    CanonicalDecode(c, Bytes(s));
    EncodeDecode(Bytes(s));
  }

  /** Reading 32 bytes and writing them again gives their low 255 bits, reduced modulo P. */
  method ReadAndWrite(s: array<uint8>)
    requires s.Length == 32
    modifies s
    ensures DecodeLittleEndian(Bytes(s)) == old(DecodeLittleEndian(Bytes(s))) % Pow2(255) % P
  {
    hide *;
    ghost var b := Bytes(s);
    var h := new int32[10];
    FeFromBytes(h, s);
    TightIsLoose(Load(h));
    FeToBytes(s, h);
    ReadThenWrite(b);
  }

  lemma TightIsLoose(l: Limbs)
    requires Tight(l)
    ensures Loose(l)
  {}
}
