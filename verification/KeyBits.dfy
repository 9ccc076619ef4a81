/** The rows of a keyboard column, one bit a key. */
module KeyBits {
  import opened Bits

  const KEYBOARD_ROWS: nat := 8

  /** 1 << i */
  function Mask(i: nat): bv8
    requires i < KEYBOARD_ROWS
  {
    match i
    case 0 => 0x01
    case 1 => 0x02
    case 2 => 0x04
    case 3 => 0x08
    case 4 => 0x10
    case 5 => 0x20
    case 6 => 0x40
    case _ => 0x80
  }

  predicate Key(x: bv8, i: nat)
    requires i < KEYBOARD_ROWS
  {
    x & Mask(i) != 0
  }

  /** Key i is bit i of the byte, as a number. */
  lemma KeyIsBit(x: bv8, i: nat)
    requires i < KEYBOARD_ROWS
    ensures Mask(i) as nat == Pow2(i)
    ensures Key(x, i) <==> x / Mask(i) % 2 == 1
    ensures Key(x, i) <==> (x >> i) & 1 == 1
  {
    MaskIsPower(i);
    BitByDivision(x, i);
    BitByShift(x, i);
  }

  lemma MaskIsPower(i: nat)
    requires i < KEYBOARD_ROWS
    ensures Mask(i) as nat == Pow2(i)
  {
    assert Pow2(4) == 16;
    Pow2Values();
  }

  lemma BitByDivision(x: bv8, i: nat)
    requires i < KEYBOARD_ROWS
    ensures Key(x, i) <==> x / Mask(i) % 2 == 1
  {}

  lemma BitByShift(x: bv8, i: nat)
    requires i < KEYBOARD_ROWS
    ensures Key(x, i) <==> (x >> i) & 1 == 1
  {}

  lemma XorKey(x: bv8, y: bv8, i: nat)
    requires i < KEYBOARD_ROWS
    ensures Key(x ^ y, i) == (Key(x, i) != Key(y, i))
  {
    var m := Mask(i);
    OneBit(x, i);
    OneBit(y, i);
    XorMask(x, y, m);
    hide Mask;
    if x & m == 0 { ZeroXor(y & m); } else if y & m == 0 { ZeroXor(x & m); } else { ZeroXor(m); }
  }

  lemma OneBit(x: bv8, i: nat)
    requires i < KEYBOARD_ROWS
    ensures (x & Mask(i) == 0 || x & Mask(i) == Mask(i)) && Mask(i) != 0
  {}

  lemma XorMask(x: bv8, y: bv8, m: bv8)
    ensures (x ^ y) & m == (x & m) ^ (y & m)
  {}

  lemma ZeroXor(x: bv8)
    ensures 0 ^ x == x && x ^ 0 == x && x ^ x == 0
  {}

  lemma OrKey(x: bv8, y: bv8, i: nat)
    requires i < KEYBOARD_ROWS
    ensures Key(x | y, i) == (Key(x, i) || Key(y, i))
  {}

  lemma AndKey(x: bv8, y: bv8, i: nat)
    requires i < KEYBOARD_ROWS
    ensures Key(x & y, i) == (Key(x, i) && Key(y, i))
  {}

  lemma ClearKey(x: bv8, i: nat, j: nat)
    requires i < KEYBOARD_ROWS && j < KEYBOARD_ROWS
    ensures Key(x & !Mask(i), j) == (Key(x, j) && i != j)
  {}

  lemma FlipKey(x: bv8, i: nat, j: nat)
    requires i < KEYBOARD_ROWS && j < KEYBOARD_ROWS
    ensures Key(x ^ Mask(i), j) == (Key(x, j) != (i == j))
  {
    XorKey(x, Mask(i), j);
    MaskKey(i, j);
  }

  lemma MaskKey(i: nat, j: nat)
    requires i < KEYBOARD_ROWS && j < KEYBOARD_ROWS
    ensures Key(Mask(i), j) == (i == j)
  {}

  lemma NoKeys(x: bv8)
    ensures x == 0 <==> forall i :: 0 <= i < KEYBOARD_ROWS ==> !Key(x, i)
  {
    if forall i :: 0 <= i < KEYBOARD_ROWS ==> !Key(x, i) {
      assert !Key(x, 0) && !Key(x, 1) && !Key(x, 2) && !Key(x, 3) && !Key(x, 4) && !Key(x, 5) && !Key(x, 6)
        && !Key(x, 7);
    }
  }

  /** x & (x - 1) is nonzero exactly if two bits are set. */
  lemma TwoKeys(x: bv8)
    requires x != 0
    ensures x & (x - 1) != 0 <==> exists i, j :: 0 <= i < j < KEYBOARD_ROWS && Key(x, i) && Key(x, j)
  {
    if x & (x - 1) != 0 {
      var i := Lowest(x);
      var j := Lowest(x & (x - 1));
      assert Key(x, i) && Key(x, j) && i < j;
    }
    if i, j :| 0 <= i < j < KEYBOARD_ROWS && Key(x, i) && Key(x, j) {
    }
  }

  function Lowest(x: bv8): (i: nat)
    requires x != 0
    ensures i < KEYBOARD_ROWS && Key(x, i)
  {
    if x & 1 != 0 then 0 else if x & 2 != 0 then 1 else if x & 4 != 0 then 2 else if x & 8 != 0 then 3
    else if x & 0x10 != 0 then 4 else if x & 0x20 != 0 then 5 else if x & 0x40 != 0 then 6 else 7
  }
}
