/** The words of the persistent counter in fw/common/nvcounter.c. A word counts to eight; every strike
    clears four more of its bits, and flash can only clear bits. */
module StrikeWord {
  const INCORRECT_FLASH_CNT: nat := 0xdead_d0d0

  /** _encode: the clean word after v strikes. */
  function Encode(v: nat): bv32 {
    match v
    case 0 => 0xffff_ffff
    case 1 => 0x3cff_ffff
    case 2 => 0x00ff_ffff
    case 3 => 0x003c_ffff
    case 4 => 0x0000_ffff
    case 5 => 0x0000_3cff
    case 6 => 0x0000_00ff
    case 7 => 0x0000_003c
    case _ => 0x0000_0000
  }

  /** Byte j of the clean word, from the top: two strikes clear it, and one leaves its middle bits. */
  lemma EncodeBytes(v: nat, j: nat)
    requires v <= 8 && j < 4
    ensures (Encode(v) >> (24 - 8 * j)) & 0xff ==
      if 2 * j + 2 <= v then 0 else if 2 * j + 1 == v then 0x3c else 0xff
  {
    if j == 0 {} else if j == 1 {} else if j == 2 {} else {}
  }

  /** The value that _decode returns: clean words first. */
  function DecodeValue(v: bv32): nat {
    if v == 0xffff_ffff then 0
    else if v == 0x3cff_ffff then 1
    else if v == 0x00ff_ffff then 2
    else if v == 0x003c_ffff then 3
    else if v == 0x0000_ffff then 4
    else if v == 0x0000_3cff then 5
    else if v == 0x0000_00ff then 6
    else if v == 0x0000_003c then 7
    else if v == 0x0000_0000 then 8
    else DecodeTorn(v)
  }

  /** Which transition was interrupted. */
  function DecodeTorn(v: bv32): nat {
    if v & 0x3cff_ffff == 0x3cff_ffff then 1
    else if v & 0xc3ff_ffff == 0x00ff_ffff then 2
    else if v & 0xff3c_ffff == 0x003c_ffff then 3
    else if v & 0xffc3_ffff == 0x0000_ffff then 4
    else if v & 0xffff_3cff == 0x0000_3cff then 5
    else if v & 0xffff_c3ff == 0x0000_00ff then 6
    else if v & 0xffff_ff3c == 0x0000_003c then 7
    else if v & 0xffff_ffc3 == 0x0000_0000 then 8
    else INCORRECT_FLASH_CNT
  }

  /** Every bit of a is a bit of b. */
  predicate Within(a: bv32, b: bv32) { a & b == a }

  /** A write of v over old_: flash only clears bits. */
  function Struck(old_: bv32, v: bv32): bv32 { old_ & v }

  /** The same write cut short: the bits in kept were not cleared in time. */
  function CutShort(old_: bv32, v: bv32, kept: bv32): bv32 { old_ & (v | kept) }

  /** What an interrupted write of v over old_ can leave: some of the bits that it was clearing are cleared. */
  predicate Interrupted(old_: bv32, v: bv32, new_: bv32) {
    Within(new_, old_) && Within(Struck(old_, v), new_)
  }

  lemma CutShortClears(old_: bv32, v: bv32, kept: bv32)
    ensures Within(CutShort(old_, v, kept), old_)
  {}

  lemma CutShortKeeps(old_: bv32, v: bv32, kept: bv32)
    ensures Within(Struck(old_, v), CutShort(old_, v, kept))
  {}

  lemma CutShortIsInterrupted(old_: bv32, v: bv32, kept: bv32)
    ensures Interrupted(old_, v, CutShort(old_, v, kept))
    ensures Interrupted(old_, v, old_)
  {
    CutShortClears(old_, v, kept);
    CutShortKeeps(old_, v, kept);
    NoneCleared(old_, v);
    hide Within, Struck, CutShort;
  }

  lemma NoneCleared(old_: bv32, v: bv32)
    ensures Interrupted(old_, v, old_)
  {}

  /** The word holds c strikes, of which the last may have cleared only some of its four bits. */
  predicate Holds(w: bv32, c: nat) {
    c <= 8 && (w == Encode(c) || (c > 0 && w != Encode(c - 1) && Within(w, Encode(c - 1)) && Within(Encode(c), w)))
  }

  lemma TornHoldsLow(w: bv32, c: nat)
    requires Holds(w, c) && 0 < c <= 4
    ensures DecodeTorn(w) == c
  {
    if c == 1 {} else if c == 2 {} else if c == 3 {} else {}
  }

  lemma TornHoldsHigh(w: bv32, c: nat)
    requires Holds(w, c) && 4 < c
    ensures DecodeTorn(w) == c
  {
    if c == 5 {} else if c == 6 {} else if c == 7 {} else {}
  }

  /** A word that holds c strikes decodes as c, torn or not. */
  lemma DecodeHolds(w: bv32, c: nat)
    requires Holds(w, c)
    ensures DecodeValue(w) == c
  {
    hide DecodeTorn;
    if w == Encode(c) {
    } else {
      if c <= 4 { TornHoldsLow(w, c); } else { TornHoldsHigh(w, c); }
      TornIsNotClean(w, c);
    }
  }

  lemma TornIsNotClean(w: bv32, c: nat)
    requires Holds(w, c) && w != Encode(c)
    ensures forall k: nat :: k <= 8 ==> w != Encode(k)
  {
    match c {
      case 1 => case 2 => case 3 => case 4 => case 5 => case 6 => case 7 => case _ =>
    }
  }

  /** An interrupted strike leaves the word at its old count or at the new one. */
  lemma InterruptedStrike(w: bv32, c: nat)
    requires c < 8 && Interrupted(Encode(c), Encode(c + 1), w)
    ensures Holds(w, c) || Holds(w, c + 1)
  {}

  /** So a word that lost power between strike c and strike c + 1 decodes as c or as c + 1. */
  lemma TornStrikeDecodes(w: bv32, c: nat)
    requires c < 8 && Interrupted(Encode(c), Encode(c + 1), w)
    ensures DecodeValue(w) == c || DecodeValue(w) == c + 1
  {
    hide DecodeValue, Encode, Holds, Interrupted;
    InterruptedStrike(w, c);
    if Holds(w, c) { DecodeHolds(w, c); } else { DecodeHolds(w, c + 1); }
  }

  /** A write of the next code over a clean word is a clean strike. */
  lemma CompleteStrike(c: nat)
    requires c < 8
    ensures Struck(Encode(c), Encode(c + 1)) == Encode(c + 1)
  {
    match c {
      case 0 => case 1 => case 2 => case 3 => case 4 => case 5 => case 6 => case _ =>
    }
  }

  /** Affirming a torn word completes its last strike; interrupted, it still holds the same count. */
  lemma Affirm(w: bv32, c: nat, w': bv32)
    requires Holds(w, c)
    ensures Struck(w, Encode(c)) == Encode(c)
    ensures Holds(Encode(c), c)
    ensures Interrupted(w, Encode(c), w') ==> Holds(w', c)
  {
    match c {
      case 0 => case 1 => case 2 => case 3 => case 4 => case 5 => case 6 => case 7 => case _ =>
    }
  }

  /** A full word is zero, and no write changes it. */
  lemma FullWord(v: bv32, w: bv32)
    ensures Encode(8) == 0
    ensures Struck(Encode(8), v) == Encode(8)
    ensures Interrupted(Encode(8), v, w) ==> w == Encode(8)
  {}
}
