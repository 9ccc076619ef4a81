/** The X25519 function as section 5 of RFC 7748 states it, over the integers modulo 2^255 - 19.
    Nothing here mentions limbs, carries or machine words. */
module Rfc7748 {
  import opened Bits

  const P: int := 0x7fff_ffff_ffff_ffff_ffff_ffff_ffff_ffff_ffff_ffff_ffff_ffff_ffff_ffff_ffff_ffed

  const A24 := 121665

  function Add(a: int, b: int): int { (a + b) % P }

  function Sub(a: int, b: int): int { (a - b) % P }

  function Mul(a: int, b: int): int { (a * b) % P }

  /** a to the power n in the field. */
  function Pow(a: int, n: nat): int {
    if n == 0 then 1 else Mul(a, Pow(a, n - 1))
  }

  /** decodeLittleEndian. */
  function DecodeLittleEndian(b: seq<int>): int {
    if b == [] then 0 else b[0] + 256 * DecodeLittleEndian(b[1..])
  }

  /** decodeScalar25519: clears the low three bits and the top bit, and sets bit 254. */
  function DecodeScalar(k: seq<int>): int
    requires |k| == 32
  {
    DecodeLittleEndian(k[0 := k[0] - k[0] % 8][31 := k[31] % 64 + 64])
  }

  /** decodeUCoordinate: ignores the top bit of the last byte. */
  function DecodeU(u: seq<int>): int
    requires |u| == 32
  {
    DecodeLittleEndian(u[31 := u[31] % 128])
  }

  /** The n low bytes of u, least significant first. */
  function EncodeLittleEndian(u: int, n: nat): seq<int>
    decreases n
  {
    if n == 0 then [] else [u % 256] + EncodeLittleEndian(u / 256, n - 1)
  }

  /** encodeUCoordinate. */
  function EncodeU(u: int): seq<int> {
    EncodeLittleEndian(u % P, 32)
  }

  datatype Ladder = Ladder(x2: int, z2: int, x3: int, z3: int, swap: int)

  function Bit(k: int, t: nat): int { k / Pow2(t) % 2 }

  /** cswap on both coordinates, keyed by swap. */
  function Swap(swap: int, s: Ladder): Ladder {
    if swap == 1 then Ladder(s.x3, s.z3, s.x2, s.z2, s.swap) else s
  }

  /** The body of the loop for one bit kt of the scalar. */
  function Step(x1: int, kt: int, s0: Ladder): Ladder {
    var s := Swap(if s0.swap == kt then 0 else 1, s0);
    var a := Add(s.x2, s.z2);
    var aa := Mul(a, a);
    var b := Sub(s.x2, s.z2);
    var bb := Mul(b, b);
    var e := Sub(aa, bb);
    var c := Add(s.x3, s.z3);
    var d := Sub(s.x3, s.z3);
    var da := Mul(d, a);
    var cb := Mul(c, b);
    var sum := Add(da, cb);
    var diff := Sub(da, cb);
    Ladder(Mul(aa, bb), Mul(e, Add(aa, Mul(A24, e))), Mul(sum, sum), Mul(x1, Mul(diff, diff)), kt)
  }

  /** The iterations for the bits t-1 down to 0. */
  function Loop(k: int, x1: int, t: nat, s: Ladder): Ladder {
    if t == 0 then s else Loop(k, x1, t - 1, Step(x1, Bit(k, t - 1), s))
  }

  /** The result for a decoded scalar and u-coordinate. */
  function ScalarMult(k: int, u: int): int {
    var x1 := u % P;
    var l := Loop(k, x1, 255, Ladder(1, 0, x1, 1, 0));
    var s := Swap(l.swap, l);
    Mul(s.x2, Pow(s.z2, P - 2))
  }

  function X25519(k: seq<int>, u: seq<int>): seq<int>
    requires |k| == |u| == 32
  {
    EncodeU(ScalarMult(DecodeScalar(k), DecodeU(u)))
  }
}
