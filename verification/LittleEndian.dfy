/** Byte strings as integers: the decoding and encoding of section 5 of RFC 7748. */
module LittleEndian {
  import opened Bits
  import opened Rfc7748

  predicate IsBytes(b: seq<int>) {
    forall i :: 0 <= i < |b| ==> 0 <= b[i] < 256
  }

  function Word(b: seq<int>, i: nat): int
    requires i + 4 <= |b|
  {
    b[i] + 0x100 * b[i + 1] + 0x1_0000 * b[i + 2] + 0x100_0000 * b[i + 3]
  }

  lemma DecodeWord(b: seq<int>, i: nat)
    requires i + 4 <= |b|
    ensures DecodeLittleEndian(b[i..]) == Word(b, i) + 0x1_0000_0000 * DecodeLittleEndian(b[i + 4..])
  {
    DecodeByte(b, i);
    DecodeByte(b, i + 1);
    DecodeByte(b, i + 2);
    DecodeByte(b, i + 3);
  }

  lemma DecodeByte(b: seq<int>, i: nat)
    requires i < |b|
    ensures DecodeLittleEndian(b[i..]) == b[i] + 0x100 * DecodeLittleEndian(b[i + 1..])
  {
    assert b[i..][1..] == b[i + 1..];
  }

  /** A 32-byte string as eight 32-bit words. */
  function Words32(b: seq<int>): int
    requires |b| == 32
  {
    Word(b, 0) + 0x1_0000_0000 * (Word(b, 4) + 0x1_0000_0000 * (Word(b, 8) + 0x1_0000_0000 * (Word(b, 12)
    + 0x1_0000_0000 * (Word(b, 16) + 0x1_0000_0000 * (Word(b, 20) + 0x1_0000_0000 * (Word(b, 24)
    + 0x1_0000_0000 * Word(b, 28)))))))
  }

  lemma Decode32(b: seq<int>)
    requires |b| == 32
    ensures DecodeLittleEndian(b) == Words32(b)
  {
    hide DecodeLittleEndian, Word;
    assert b[0..] == b;
    DecodeWord(b, 0);
    DecodeWord(b, 4);
    DecodeWord(b, 8);
    DecodeWord(b, 12);
    DecodeWord(b, 16);
    DecodeWord(b, 20);
    DecodeWord(b, 24);
    DecodeWord(b, 28);
    DecodeEmpty(b[32..]);
  }

  lemma DecodeEmpty(b: seq<int>)
    requires |b| == 0
    ensures DecodeLittleEndian(b) == 0
  {}

  /** Encoding inverts decoding. */
  lemma {:induction false} EncodeDecode(b: seq<int>)
    requires IsBytes(b)
    ensures EncodeLittleEndian(DecodeLittleEndian(b), |b|) == b
  {
    if b != [] {
      EncodeDecode(b[1..]);
      var d := DecodeLittleEndian(b[1..]);
      assert DecodeLittleEndian(b) / 256 == d && DecodeLittleEndian(b) % 256 == b[0];
    }
  }

  /** Bit t of the integer is bit t % 8 of byte t / 8. */
  lemma {:induction false} BitOfBytes(b: seq<int>, t: nat)
    requires IsBytes(b) && t < 8 * |b|
    ensures Bit(DecodeLittleEndian(b), t) == b[t / 8] / Pow2(t % 8) % 2
    decreases |b|
  {
    var d := DecodeLittleEndian(b[1..]);
    if t < 8 {
      LowBit(b[0], d, t);
    } else {
      hide Pow2;
      NextByte(t);
      TimesByte(t - 8);
      SkipByte(b[0], d, Pow2(t - 8));
      BitOfBytes(b[1..], t - 8);
      assert b[t / 8] == b[1..][(t - 8) / 8];
    }
  }

  lemma NextByte(t: nat)
    requires t >= 8
    ensures t / 8 == (t - 8) / 8 + 1 && t % 8 == (t - 8) % 8
  {}

  lemma SkipByte(b: int, d: int, m: int)
    requires 0 <= b < 256 && m > 0
    ensures (b + 256 * d) / (256 * m) == d / m
  {
    var q, r := d / m, d % m;
    assert (256 * m) * q == 256 * (m * q);
    ModIs(b + 256 * d, 256 * m, q, 256 * r + b);
  }

  lemma LowBit(b: int, d: int, t: nat)
    requires t < 8
    ensures (b + 256 * d) / Pow2(t) % 2 == b / Pow2(t) % 2
  {
    Pow2Add(t, 7 - t);
    Pow2Values();
    MultiplesDropOut(b, d, Pow2(t), Pow2(7 - t));
  }

  lemma MultiplesDropOut(b: int, d: int, m: int, j: int)
    requires m > 0 && m * j == 128
    ensures (b + 256 * d) / m % 2 == b / m % 2
  {
    var e, q, r := j * d, b / m, b % m;
    assert m * e == (m * j) * d;
    assert m * (q + 2 * e) == m * q + 2 * (m * e);
    ModIs(b + 256 * d, m, q + 2 * e, r);
  }

  // ---- The canonical form ----

  lemma {:induction false} DecodeRange(b: seq<int>)
    requires IsBytes(b)
    ensures 0 <= DecodeLittleEndian(b) < Pow2(8 * |b|)
    decreases |b|
  {
    if b != [] {
      DecodeRange(b[1..]);
      TimesByte(8 * |b[1..]|);
    }
  }

  lemma TimesByte(n: nat)
    ensures Pow2(n + 8) == 256 * Pow2(n)
  {
    Pow2Add(8, n);
    Pow2Values();
  }

  lemma {:induction false} DecodeLast(b: seq<int>, x: int)
    ensures DecodeLittleEndian(b + [x]) == DecodeLittleEndian(b) + x * Pow2(8 * |b|)
    decreases |b|
  {
    if b == [] {
      assert ([] + [x])[1..] == [];
    } else {
      assert (b + [x])[1..] == b[1..] + [x];
      DecodeLast(b[1..], x);
      TimesByte(8 * |b[1..]|);
      var m := Pow2(8 * |b[1..]|);
      assert 256 * (x * m) == x * (256 * m);
    }
  }

  lemma {:induction false} DecodeEncode(u: int, n: nat)
    requires 0 <= u < Pow2(8 * n)
    ensures IsBytes(EncodeLittleEndian(u, n)) && DecodeLittleEndian(EncodeLittleEndian(u, n)) == u
    decreases n
  {
    if n > 0 {
      TimesByte(8 * (n - 1));
      DecodeEncode(u / 256, n - 1);
      var e := EncodeLittleEndian(u, n);
      assert e[0] == u % 256 && e[1..] == EncodeLittleEndian(u / 256, n - 1);
    }
  }

  lemma TopSplit(d: int, q: int, r: int, m: int)
    requires 0 <= d < m && 0 <= r < 128
    ensures d + (128 * q + r) * m == (128 * m) * q + (d + r * m)
    ensures 0 <= d + r * m < 128 * m
  {
    var t := q * m;
    assert (128 * q + r) * m == 128 * t + r * m;
    assert (128 * m) * q == 128 * t;
    assert 0 <= r * m && 0 <= (127 - r) * m;
  }

  /** Ignoring the top bit is reduction modulo 2^255. */
  lemma TopBitIgnored(u: seq<int>)
    requires |u| == 32 && IsBytes(u)
    ensures DecodeU(u) == DecodeLittleEndian(u) % Pow2(255)
  {
    hide *;
    var b, x := u[..31], u[31];
    var m := Pow2(248);
    TopByte(u);
    DecodeLast(b, x);
    DecodeLast(b, x % 128);
    DecodeRange(b);
    TopPowers();
    assert x == 128 * (x / 128) + x % 128;
    TopSplit(DecodeLittleEndian(b), x / 128, x % 128, m);
    ModIs(DecodeLittleEndian(u), 128 * m, x / 128, DecodeLittleEndian(b) + x % 128 * m);
  }

  lemma TopByte(u: seq<int>)
    requires |u| == 32 && IsBytes(u)
    ensures IsBytes(u[..31]) && 0 <= u[31] < 256 && u == u[..31] + [u[31]]
    ensures DecodeU(u) == DecodeLittleEndian(u[..31] + [u[31] % 128])
  {
    hide DecodeLittleEndian;
    assert u[31 := u[31] % 128] == u[..31] + [u[31] % 128];
  }

  lemma TopPowers()
    ensures Pow2(255) == 128 * Pow2(248) && P < Pow2(255) < Pow2(256)
  {
    Pow2Values();
    Pow2Add(7, 248);
    Pow2Add(1, 255);
    Pow2Add(31, 1);
    Pow2Add(32, 31);
    Pow2Add(32, 32);
    Pow2Add(64, 63);
    Pow2Add(64, 64);
    Pow2Add(128, 127);
  }

  /** Writing out a field element that was read from 32 bytes gives their low 255 bits, reduced. */
  lemma ReadThenWrite(u: seq<int>)
    requires |u| == 32 && IsBytes(u)
    ensures DecodeLittleEndian(EncodeU(DecodeU(u) % P)) == DecodeLittleEndian(u) % Pow2(255) % P
  {
    hide EncodeLittleEndian, DecodeLittleEndian, Pow2, DecodeU, IsBytes;
    TopBitIgnored(u);
    TopPowers();
    DecodeEncode(DecodeU(u) % P, 32);
  }

  // ---- The scalar ----

  /** The scalar is 2^254 and the bits 3 to 253 of the input: a multiple of 8 in [2^254, 2^255). */
  lemma ScalarIs(k: seq<int>)
    requires |k| == 32 && IsBytes(k)
    ensures var n, b := DecodeScalar(k), DecodeLittleEndian(k);
      && Pow2(254) <= n < Pow2(255) && n % 8 == 0
      && n == Pow2(254) + b % Pow2(254) - b % 8
  {
    hide *;
    var m, low, h := Pow2(248), DecodeLittleEndian(k[1..31]), k[31] % 64;
    FirstAndLast(k);
    DecodeRange(k[1..31]);
    ScalarPowers();
    var r := k[0] + 256 * low;
    assert k[31] == 64 * (k[31] / 64) + h;
    ScalarBounds(r, k[0] % 8, h, m);
    TopBits(r, k[31] / 64, h, m);
    ModIs(DecodeLittleEndian(k), 64 * m, k[31] / 64, r + h * m);
    LowBits(k[0], low, k[31], Pow2(245));
  }

  lemma ScalarBounds(r: int, x: int, h: int, m: int)
    requires 0 <= x <= r < m && 0 <= h < 64
    ensures (h + 64) * m == 64 * m + h * m
    ensures 64 * m <= r - x + (h + 64) * m < 128 * m
  {
    assert 0 <= h * m && 0 <= (63 - h) * m;
  }

  lemma FirstAndLast(k: seq<int>)
    requires |k| == 32 && IsBytes(k)
    ensures IsBytes(k[1..31]) && 0 <= k[0] < 256 && 0 <= k[31] < 256
    ensures var low := 256 * DecodeLittleEndian(k[1..31]);
      && DecodeLittleEndian(k) == k[0] + low + k[31] * Pow2(248)
      && DecodeScalar(k) == k[0] - k[0] % 8 + low + (k[31] % 64 + 64) * Pow2(248)
  {
    hide Pow2, DecodeLittleEndian;
    Framed(k);
    Updated(k, k[0] - k[0] % 8, k[31] % 64 + 64);
    Ends(k[0], k[1..31], k[31]);
    Ends(k[0] - k[0] % 8, k[1..31], k[31] % 64 + 64);
  }

  lemma Framed(k: seq<int>)
    requires |k| == 32
    ensures k == [k[0]] + k[1..31] + [k[31]]
  {}

  lemma Updated(k: seq<int>, x: int, y: int)
    requires |k| == 32
    ensures k[0 := x][31 := y] == [x] + k[1..31] + [y]
  {}

  lemma Ends(x: int, b: seq<int>, y: int)
    requires |b| == 30
    ensures DecodeLittleEndian([x] + b + [y]) == x + 256 * DecodeLittleEndian(b) + y * Pow2(248)
  {
    hide Pow2;
    DecodeLast([x] + b, y);
    assert ([x] + b)[1..] == b;
  }

  lemma ScalarPowers()
    ensures Pow2(254) == 64 * Pow2(248) && Pow2(255) == 128 * Pow2(248)
    ensures Pow2(248) == 256 * Pow2(240) && Pow2(248) == 8 * Pow2(245)
  {
    Pow2Values();
    Pow2Add(6, 248);
    Pow2Add(7, 248);
    Pow2Add(8, 240);
    Pow2Add(3, 245);
  }

  lemma TopBits(r: int, q: int, h: int, m: int)
    requires 0 <= r < m && 0 <= h < 64
    ensures r + (64 * q + h) * m == (64 * m) * q + (r + h * m)
    ensures 0 <= r + h * m < 64 * m
  {
    var t := q * m;
    assert (64 * q + h) * m == 64 * t + h * m;
    assert (64 * m) * q == 64 * t;
    assert 0 <= h * m && 0 <= (63 - h) * m;
  }

  lemma LowBits(x: int, low: int, high: int, e: int)
    requires 0 <= x < 256
    ensures (x + 256 * low + high * (8 * e)) % 8 == x % 8
    ensures (x - x % 8 + 256 * low + (high % 64 + 64) * (8 * e)) % 8 == 0
  {
    ModIs(x + 256 * low + high * (8 * e), 8, x / 8 + 32 * low + high * e, x % 8);
    var h := high % 64 + 64;
    ModIs(x - x % 8 + 256 * low + h * (8 * e), 8, x / 8 + 32 * low + h * e, 0);
  }
}
