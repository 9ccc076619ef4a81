/** The persistent counter of fw/common/nvcounter.c on two flash pages, with power lost at any point. */
module NvCounter {
  import opened MachineInts
  import opened StrikeWord

  /** How many of a page's n strikes are in word i. */
  function WordCount(i: nat, n: nat): nat {
    if n <= 8 * i then 0 else if n >= 8 * i + 8 then 8 else n - 8 * i
  }

  /** The page holds n strikes, in order; only the word with the last one may be torn. */
  predicate PageHolds(page: seq<bv32>, n: nat) {
    && n <= 8 * |page|
    && forall i :: 0 <= i < |page| ==>
         if 8 * i < n <= 8 * i + 8 then Holds(page[i], n - 8 * i) else page[i] == Encode(WordCount(i, n))
  }

  /** The number that two pages of w words stand for. HIGH counts by two; while it is odd, an erase of
      LOW is pending and the number is one below the next multiple. */
  function CountOf(w: nat, high: nat, low: nat): int {
    if high % 2 == 0 then Full(w, high / 2) + low else Full(w, (high + 1) / 2) - 1
  }

  /** a full strikings of LOW. */
  function Full(w: nat, a: nat): nat { a * (8 * w + 1) }

  /** The largest number. */
  function MaxCount(w: nat): int { CountOf(w, 8 * w, 8 * w) }

  /** a * (8 * PAGE_WORDS + 1), which fits in 32 bits. */
  function Full32(w: nat, a: uint32): (r: uint32)
    requires w <= 0x2000 && a as int <= 4 * w
    ensures r as int == Full(w, a as int) && r <= 0x8000_8000
  {
    Monotone(a as int, 0x8000, 8 * w + 1);
    a * (8 * w as uint32 + 1)
  }

  /** The uint32_t value that nvcounter_incr returns when it can count no more. */
  const EXHAUSTED: uint32 := 0xffff_ffff

  // ---- Pages ----

  lemma HoldsAt(page: seq<bv32>, i: nat, n: nat)
    requires i < |page| && PageHolds(page, n)
    ensures Holds(page[i], WordCount(i, n))
  {}

  /** Only the word with the last strike can be torn, and affirming it keeps the count. */
  lemma AffirmPage(page: seq<bv32>, i: nat, n: nat, w: bv32)
    requires i < |page| && PageHolds(page, n) && page[i] != Encode(WordCount(i, n))
    requires Holds(w, WordCount(i, n))
    ensures PageHolds(page[i := w], n)
  {
    hide Encode;
  }

  /** With the last word clean, one more strike on the word that is next makes one more on the page. */
  lemma StrikePage(page: seq<bv32>, i: nat, n: nat, w: bv32)
    requires i < |page| && PageHolds(page, n) && 8 * i <= n < 8 * i + 8 && page[i] == Encode(n - 8 * i)
    requires n == 8 * i && i > 0 ==> page[i - 1] == Encode(8)
    ensures Holds(w, n + 1 - 8 * i) ==> PageHolds(page[i := w], n + 1)
    ensures Holds(w, n - 8 * i) ==> page[i := w] == page || PageHolds(page[i := w], n)
  {
    hide Encode;
  }

  /** The number of strikes is determined by the contents. */
  lemma {:induction false} StrikesUnique(page: seq<bv32>, m: nat, n: nat)
    requires PageHolds(page, m) && PageHolds(page, n) && m <= n
    ensures m == n
  {
    hide Encode, DecodeValue, Holds;
    if m < n {
      var i := m / 8;
      HoldsAt(page, i, m);
      HoldsAt(page, i, n);
      DecodeHolds(page[i], WordCount(i, m));
      DecodeHolds(page[i], WordCount(i, n));
    }
  }

  class NvCounter {
    const words: nat
    const low: array<bv32>
    const high: array<bv32>
    /** Once power is gone, flash operations have no effect until the next boot. */
    var power: bool
    ghost var strikesHigh: nat
    ghost var strikesLow: nat

    ghost predicate Valid()
      reads this, low, high
    {
      && 0 < words <= 0x2000 && low.Length == high.Length == words && low != high
      && PageHolds(high[..], strikesHigh)
      && (strikesHigh % 2 == 0 ==> PageHolds(low[..], strikesLow))
    }

    ghost function Count(): int
      reads this
    {
      CountOf(words, strikesHigh, strikesLow)
    }

    /** A counter on two erased pages. */
    constructor (w: nat)
      requires 0 < w <= 0x2000
      ensures Valid() && power && Count() == 0 && words == w
      ensures fresh(low) && fresh(high)
    {
      words := w;
      low := new bv32[w](i => 0xffff_ffff);
      high := new bv32[w](i => 0xffff_ffff);
      power := true;
      strikesHigh, strikesLow := 0, 0;
    }

    /** _write: flash can only clear bits; an interrupted write clears any of the bits it was to clear. */
    method Write(p: array<bv32>, o: nat, v: bv32)
      requires o < p.Length
      modifies p, this`power
      ensures forall i :: 0 <= i < p.Length && i != o ==> p[i] == old(p[i])
      ensures power ==> old(power) && p[o] == Struck(old(p[o]), v)
      ensures !power ==> Interrupted(old(p[o]), v, p[o])
      ensures !old(power) ==> p[o] == old(p[o])
    {
      hide Struck, CutShort, Interrupted;
      var kept: bv32 := *;
      CutShortIsInterrupted(p[o], v, kept);
      if power {
        power := *;
        p[o] := if power then Struck(p[o], v) else CutShort(p[o], v, kept);
      }
    }

    /** _erase: sets every bit; an interrupted erase leaves anything. */
    method Erase(p: array<bv32>)
      modifies p, this`power
      ensures power ==> old(power) && forall i :: 0 <= i < p.Length ==> p[i] == 0xffff_ffff
      ensures !old(power) ==> p[..] == old(p[..])
    {
      if power {
        power := *;
        if power {
          forall i | 0 <= i < p.Length { p[i] := 0xffff_ffff; }
        } else {
          modify p;
        }
      }
    }

    /** _decode: reads a word and, if it is torn, writes it again. */
    method Decode(p: array<bv32>, i: nat, ghost n: nat) returns (r: nat)
      requires i < p.Length && PageHolds(p[..], n)
      modifies p, this`power
      ensures r == DecodeValue(old(p[i])) == WordCount(i, n)
      ensures PageHolds(p[..], n)
      ensures power ==> old(power) && p[i] == Encode(r)
      ensures forall j :: 0 <= j < p.Length && j != i ==> p[j] == old(p[j])
      ensures !old(power) ==> p[..] == old(p[..])
    {
      hide DecodeValue, Holds, Encode, Struck, Interrupted;
      assert Holds(p[i], WordCount(i, n)) by { HoldsAt(p[..], i, n); }
      DecodeHolds(p[i], WordCount(i, n));
      r := DecodeValue(p[i]);
      if p[i] != Encode(r) {
        ghost var w := p[i];
        Write(p, i, Encode(r));
        Affirm(w, r, p[i]);
        AffirmPage(old(p[..]), i, n, p[i]);
        assert p[..] == old(p[..])[i := p[i]];
      }
    }

    /** Writes the code of one more strike over a clean word. */
    method Strike(p: array<bv32>, i: nat, c: nat, ghost n: nat)
      requires i < p.Length && PageHolds(p[..], n) && n == 8 * i + c && c < 8
      requires power ==> p[i] == Encode(c) && (c == 0 && i > 0 ==> p[i - 1] == Encode(8))
      modifies p, this`power
      ensures power ==> old(power) && PageHolds(p[..], n + 1)
      ensures PageHolds(p[..], n) || PageHolds(p[..], n + 1)
      ensures !old(power) ==> p[..] == old(p[..])
    {
      hide DecodeValue, Holds, Encode, Struck, Interrupted;
      ghost var page := p[..];
      Write(p, i, Encode(c + 1));
      assert p[..] == page[i := p[i]];
      if old(power) {
        CompleteStrike(c);
        Affirm(Encode(c + 1), c + 1, Encode(c + 1));
        if !power { InterruptedStrike(p[i], c); }
        StrikePage(page, i, n, p[i]);
      }
    }

    /** _inc: one more strike on word i. The branch for a word that is already full is dead, for every page
        that it is called on. */
    method Inc(p: array<bv32>, i: nat, ghost n: nat)
      requires i < p.Length && PageHolds(p[..], n) && 8 * i <= n < 8 * i + 8
      requires n == 8 * i && i > 0 && power ==> p[i - 1] == Encode(8)
      modifies p, this`power
      ensures power ==> old(power) && PageHolds(p[..], n + 1)
      ensures PageHolds(p[..], n) || PageHolds(p[..], n + 1)
      ensures !old(power) ==> p[..] == old(p[..])
    {
      hide DecodeValue, Holds, Encode, Struck, Interrupted;
      var v := Decode(p, i, n);
      if v == 8 {
        assert false;
      } else {
        Strike(p, i, v, n);
      }
    }

    /** The pending erase of LOW is done, and HIGH becomes even. */
    method FinishErase(h: nat, result: nat)
      requires Valid() && h < words && strikesHigh == 8 * h + result && result < 8 && result % 2 == 1
      requires power ==> high[h] == Encode(result)
      modifies this`power, this`strikesHigh, this`strikesLow, low, high
      ensures Valid() && (power ==> old(power))
      ensures Count() == old(Count()) || Count() == old(Count()) + 1
      ensures power ==> Count() == old(Count()) + 1
    {
      hide Encode, Holds, DecodeValue, CountOf;
      CountSteps(words, strikesHigh, strikesLow);
      Erase(low);
      ghost var erased := power;
      Strike(high, h, result, strikesHigh);
      if erased {
        ErasedPage(low[..]);
        strikesLow := 0;
        if PageHolds(high[..], strikesHigh + 1) { strikesHigh := strikesHigh + 1; }
      }
    }

    /** Marks the erase of LOW as busy. */
    method MarkBusy(h: nat)
      requires Valid() && h < words && strikesHigh % 2 == 0 && 8 * h <= strikesHigh < 8 * h + 8
      requires power && h > 0 ==> high[h - 1] == Encode(8)
      modifies this`power, this`strikesHigh, high
      ensures Valid() && (power ==> old(power))
      ensures strikesHigh == old(strikesHigh) || strikesHigh == old(strikesHigh) + 1
      ensures power ==> strikesHigh == old(strikesHigh) + 1
    {
      hide Encode, Holds, DecodeValue;
      Inc(high, h, strikesHigh);
      if PageHolds(high[..], strikesHigh + 1) { strikesHigh := strikesHigh + 1; }
    }

    /** LOW is full: HIGH becomes odd, LOW is erased, HIGH becomes even. */
    method Rollover(h: nat)
      requires Valid() && h < words && strikesHigh % 2 == 0 && strikesLow == 8 * words
      requires 8 * h <= strikesHigh < 8 * h + 8
      requires power && h > 0 ==> high[h - 1] == Encode(8)
      modifies this`power, this`strikesHigh, this`strikesLow, low, high
      ensures Valid() && (power ==> old(power))
      ensures Count() == old(Count()) || Count() == old(Count()) + 1
      ensures power ==> Count() == old(Count()) + 1
    {
      hide PageHolds, CountOf, Encode, Holds, DecodeValue, Full;
      RolloverSteps(words, h, strikesHigh, strikesLow);
      Reaffirm();
      MarkBusy(h);
      EraseAndInc(h);
    }

    /** _write(FLASH_CNT_LO, PAGE_WORDS - 1, 0) on a full page */
    method Reaffirm()
      requires Valid() && strikesHigh % 2 == 0 && strikesLow == 8 * words
      modifies this`power, low
      ensures Valid() && (power ==> old(power))
    {
      hide Encode, Holds, DecodeValue, Struck, Interrupted;
      var i := words - 1;
      ghost var page := low[..];
      HoldsAt(page, i, strikesLow);
      Write(low, i, 0);
      FullWord(0, low[i]);
      Affirm(page[i], 8, low[i]);
      if page[i] != Encode(8) { AffirmPage(page, i, strikesLow, low[i]); }
      assert low[..] == page[i := low[i]];
    }

    method EraseAndInc(h: nat)
      requires Valid() && h < words && strikesLow == 8 * words
      requires power ==> strikesHigh % 2 == 1
      requires 8 * h <= strikesHigh < 8 * h + 8
      modifies this`power, this`strikesHigh, this`strikesLow, low, high
      ensures Valid() && (power ==> old(power))
      ensures Count() == old(Count()) || Count() == old(Count()) + 1
      ensures power ==> Count() == old(Count()) + 1
    {
      hide Encode, Holds, DecodeValue, CountOf;
      CountSteps(words, strikesHigh, strikesLow);
      Erase(low);
      ghost var erased := power;
      Inc(high, h, strikesHigh);
      if erased {
        ErasedPage(low[..]);
        strikesLow := 0;
        if PageHolds(high[..], strikesHigh + 1) { strikesHigh := strikesHigh + 1; }
      }
    }

    /** The words of HIGH that are full, each worth four, and the word where the count stops. */
    method CountHigh() returns (h: nat, result: nat, cnt: uint32)
      requires Valid()
      modifies this`power, high
      ensures Valid() && (power ==> old(power))
      ensures h <= words && 8 * h <= strikesHigh
        && cnt as int == strikesHigh / 2 - (if result % 2 == 1 then result / 2 else 0)
      ensures h < words ==> result < 8 && strikesHigh == 8 * h + result && (power ==> high[h] == Encode(result))
      ensures h == words ==> strikesHigh == 8 * words && result == 8
      ensures power ==> forall j :: 0 <= j < h ==> high[j] == Encode(8)
    {
      hide Encode, Holds, DecodeValue;
      h, result, cnt := 0, 8, 0;
      while h < words
        invariant Valid() && h <= words && 8 * h <= strikesHigh && cnt as int == 4 * h && result == 8
        invariant power ==> old(power) && forall j :: 0 <= j < h ==> high[j] == Encode(8)
      {
        result := Decode(high, h, strikesHigh);
        if result == INCORRECT_FLASH_CNT {
          assert false;
        }
        if result % 2 == 1 {
          return;
        }
        cnt := cnt + (result / 2) as uint32;
        if result != 8 {
          return;
        }
        h := h + 1;
      }
    }

    /** The strikes on LOW, and the word where the count stops. */
    method CountLow(cnt: uint32) returns (l: nat, sum: uint32)
      requires Valid() && strikesHigh % 2 == 0 && cnt < 0x8010_0000
      modifies this`power, low
      ensures Valid() && (power ==> old(power))
      ensures l <= words && sum as int == cnt as int + strikesLow
      ensures l < words ==> 8 * l <= strikesLow < 8 * l + 8
      ensures l == words ==> strikesLow == 8 * words
      ensures power ==> forall j :: 0 <= j < l ==> low[j] == Encode(8)
    {
      hide Encode, Holds, DecodeValue;
      l, sum := 0, cnt;
      while l < words
        invariant Valid() && l <= words && 8 * l <= strikesLow && sum as int == cnt as int + 8 * l
        invariant power ==> old(power) && forall j :: 0 <= j < l ==> low[j] == Encode(8)
      {
        var result := Decode(low, l, strikesLow);
        if result == INCORRECT_FLASH_CNT {
          assert false;
        }
        sum := sum + result as uint32;
        if result != 8 {
          return;
        }
        l := l + 1;
      }
    }

    /** Increments, the current number known to be cnt. */
    method Advance(h: nat, l: nat, cnt: uint32) returns (r: uint32)
      requires Valid() && strikesHigh % 2 == 0 && cnt as int == Count() && cnt < 0xf000_0000
      requires h <= words && (if h < words then 8 * h <= strikesHigh < 8 * h + 8 else strikesHigh == 8 * words)
      requires l <= words && (if l < words then 8 * l <= strikesLow < 8 * l + 8 else strikesLow == 8 * words)
      requires power ==> forall j :: 0 <= j < h ==> high[j] == Encode(8)
      requires power ==> forall j :: 0 <= j < l ==> low[j] == Encode(8)
      modifies this`power, this`strikesHigh, this`strikesLow, low, high
      ensures Valid() && (power ==> old(power))
      ensures old(Count()) <= Count() <= old(Count()) + 1
      ensures power && old(Count()) < MaxCount(words) ==> r as int == Count() == old(Count()) + 1
      ensures power && old(Count()) >= MaxCount(words) ==> r == EXHAUSTED && Count() == old(Count())
    {
      hide Encode, Holds, DecodeValue, CountOf, MaxCount;
      CountIs(words, strikesHigh, strikesLow);
      if h == words && l == words {
        return EXHAUSTED;
      }
      if l == words {
        Rollover(h);
      } else {
        CountSteps(words, strikesHigh, strikesLow);
        Inc(low, l, strikesLow);
        if PageHolds(low[..], strikesLow + 1) { strikesLow := strikesLow + 1; }
      }
      return cnt + 1;
    }

    /** nvcounter_incr. While power lasts, the number goes up by one and is returned, unless it is the
        largest; if power is lost, the number stays or goes up by one. */
    method Incr() returns (r: uint32)
      requires Valid()
      modifies this`power, this`strikesHigh, this`strikesLow, low, high
      ensures Valid() && (power ==> old(power))
      ensures old(Count()) <= Count() <= old(Count()) + 1
      ensures power && old(Count()) < MaxCount(words) ==> r as int == Count() == old(Count()) + 1
      ensures power && old(Count()) >= MaxCount(words) ==> r == EXHAUSTED && Count() == old(Count())
    {
      hide PageHolds, Encode, Holds, DecodeValue, CountOf, MaxCount, Full, Full32;
      var h, result, cnt := CountHigh();
      CountIs(words, strikesHigh, strikesLow);
      if result % 2 == 1 {
        FinishErase(h, result);
        r := Full32(words, cnt + ((result + 1) / 2) as uint32);
      } else {
        cnt := Full32(words, cnt);
        var l;
        l, cnt := CountLow(cnt);
        r := Advance(h, l, cnt);
      }
    }

    /** n calls, each after a boot; power may fail in any of them. */
    method Run(n: nat) returns (calls: seq<Call>, ghost counts: seq<int>)
      requires Valid()
      modifies this`power, this`strikesHigh, this`strikesLow, low, high
      ensures Valid() && |calls| == n && IsRun(words, calls, counts)
      ensures counts[0] == old(Count()) && counts[n] == Count()
    {
      hide PageHolds, CountOf, MaxCount;
      calls, counts := [], [Count()];
      for i := 0 to n
        invariant Valid() && |calls| == i && IsRun(words, calls, counts)
        invariant counts[0] == old(Count()) && counts[i] == Count()
      {
        power := true;
        var r := Incr();
        calls := calls + [if !power then PowerLost else if r == EXHAUSTED then Exhausted else Returned(r)];
        counts := counts + [Count()];
        CountBelow(words, counts[i]);
      }
    }
  }

  lemma ErasedPage(page: seq<bv32>)
    requires forall i :: 0 <= i < |page| ==> page[i] == 0xffff_ffff
    ensures PageHolds(page, 0)
  {}

  /** The strikes that change the number by one, and the strike that does not change it. */
  /** The first strike of a rollover does not count, and it does not fill the word. */
  lemma RolloverSteps(w: nat, i: nat, h: nat, l: nat)
    requires h % 2 == 0 && l == 8 * w && 8 * i <= h < 8 * i + 8
    ensures CountOf(w, h + 1, l) == CountOf(w, h, l) && (h + 1) % 2 == 1 && h + 1 < 8 * i + 8
  {
    hide CountOf;
    CountSteps(w, h, l);
  }

  lemma CountSteps(w: nat, h: nat, l: nat)
    ensures h % 2 == 0 ==> CountOf(w, h, l + 1) == CountOf(w, h, l) + 1
    ensures h % 2 == 1 ==> CountOf(w, h + 1, 0) == CountOf(w, h, l) + 1
    ensures h % 2 == 1 ==> CountOf(w, h, 0) == CountOf(w, h, l)
    ensures h % 2 == 0 && l == 8 * w ==> CountOf(w, h + 1, l) == CountOf(w, h, l)
  {
    if h % 2 == 0 { assert (h + 2) / 2 == h / 2 + 1; }
    assert (h / 2 + 1) * (8 * w + 1) == h / 2 * (8 * w + 1) + (8 * w + 1);
  }

  lemma CountIs(w: nat, h: nat, l: nat)
    requires h <= 8 * w
    ensures h % 2 == 0 ==> CountOf(w, h, l) == Full(w, h / 2) + l
    ensures h % 2 == 1 ==> CountOf(w, h, l) + 1 == Full(w, (h + 1) / 2)
    ensures h % 2 == 0 && l <= 8 * w && (h < 8 * w || l < 8 * w) ==> CountOf(w, h, l) < MaxCount(w)
    ensures h % 2 == 1 ==> CountOf(w, h, l) < MaxCount(w)
    ensures h == l == 8 * w ==> CountOf(w, h, l) == MaxCount(w)
  {
    MaxIs(w);
    hide MaxCount, Full;
    if h % 2 == 1 {
      FullMonotone(w, (h + 1) / 2, 4 * w);
    } else if h < 8 * w {
      FullMonotone(w, h / 2 + 1, 4 * w);
      FullNext(w, h / 2);
    }
  }

  lemma MaxIs(w: nat)
    ensures MaxCount(w) == Full(w, 4 * w) + 8 * w
  {
    hide Full;
  }

  lemma FullMonotone(w: nat, a: nat, b: nat)
    requires a <= b
    ensures Full(w, a) <= Full(w, b)
  {
    Monotone(a, b, 8 * w + 1);
  }

  lemma FullNext(w: nat, a: nat)
    ensures Full(w, a + 1) == Full(w, a) + 8 * w + 1
  {
    var m := 8 * w + 1;
    assert (a + 1) * m == a * m + m;
  }

  lemma Monotone(a: nat, b: nat, m: nat)
    requires a <= b
    ensures a * m <= b * m
  {}

  // ---- Runs ----

  datatype Call = Returned(value: uint32) | Exhausted | PowerLost

  /** What one call does to the number. */
  predicate Step(w: nat, before: int, c: Call, after: int) {
    match c
    case Returned(v) => before < MaxCount(w) && v as int == after == before + 1
    case Exhausted => after == before >= MaxCount(w)
    case PowerLost => before <= after <= before + 1
  }

  predicate IsRun(w: nat, calls: seq<Call>, counts: seq<int>) {
    && |counts| == |calls| + 1
    && forall i {:trigger calls[i]} :: 0 <= i < |calls| ==> Step(w, counts[i], calls[i], counts[i + 1])
  }

  lemma {:induction false} CountsGrow(w: nat, calls: seq<Call>, counts: seq<int>, i: nat, j: nat)
    requires IsRun(w, calls, counts) && i <= j < |counts|
    ensures counts[i] <= counts[j]
    decreases j - i
  {
    if i < j {
      assert Step(w, counts[i], calls[i], counts[i + 1]);
      CountsGrow(w, calls, counts, i + 1, j);
    }
  }

  /** Whatever calls lose power, the returned values are strictly increasing. */
  lemma ReturnedValuesIncrease(w: nat, calls: seq<Call>, counts: seq<int>, i: nat, j: nat)
    requires IsRun(w, calls, counts) && i < j < |calls| && calls[i].Returned? && calls[j].Returned?
    ensures calls[i].value < calls[j].value
  {
    assert Step(w, counts[i], calls[i], counts[i + 1]) && Step(w, counts[j], calls[j], counts[j + 1]);
    CountsGrow(w, calls, counts, i + 1, j);
  }

  /** Between two calls in which power lasts, each call that lost power accounts for at most one skipped value. */
  lemma {:induction false} SkippedValues(w: nat, calls: seq<Call>, counts: seq<int>, i: nat, j: nat)
    requires IsRun(w, calls, counts) && i <= j < |calls| && calls[i].Returned? && calls[j].Returned?
    requires forall k {:trigger calls[k]} :: i < k < j ==> calls[k].PowerLost?
    ensures calls[j].value as int <= calls[i].value as int + (j - i)
    ensures j == i + 1 ==> calls[j].value == calls[i].value + 1
  {
    assert Step(w, counts[i], calls[i], counts[i + 1]) && Step(w, counts[j], calls[j], counts[j + 1]);
    if i < j { SlowGrowth(w, calls, counts, i + 1, j); }
  }

  lemma {:induction false} SlowGrowth(w: nat, calls: seq<Call>, counts: seq<int>, i: nat, j: nat)
    requires IsRun(w, calls, counts) && i <= j < |counts|
    ensures counts[j] <= counts[i] + (j - i)
    decreases j - i
  {
    if i < j {
      assert Step(w, counts[i], calls[i], counts[i + 1]);
      SlowGrowth(w, calls, counts, i + 1, j);
    }
  }

  /** Once exhausted, a counter never returns a value again. */
  lemma ExhaustedForEver(w: nat, calls: seq<Call>, counts: seq<int>, i: nat, j: nat)
    requires IsRun(w, calls, counts) && i < j < |calls| && calls[i].Exhausted?
    ensures !calls[j].Returned?
  {
    assert Step(w, counts[i], calls[i], counts[i + 1]) && Step(w, counts[j], calls[j], counts[j + 1]);
    CountsGrow(w, calls, counts, i + 1, j);
  }

  lemma CountBelow(w: nat, c: int)
    requires w <= 0x2000
    ensures MaxCount(w) < 0xffff_ffff
  {
    Monotone(4 * w, 0x8000, 8 * w + 1);
    assert MaxCount(w) == Full(w, 4 * w) + 8 * w;
  }

  /** The number is a function of what is on flash. */
  lemma CountFromContents(high: seq<bv32>, low: seq<bv32>, h: nat, l: nat, h': nat, l': nat)
    requires PageHolds(high, h) && (h % 2 == 0 ==> PageHolds(low, l))
    requires PageHolds(high, h') && (h' % 2 == 0 ==> PageHolds(low, l'))
    ensures CountOf(|high|, h, l) == CountOf(|high|, h', l')
  {
    hide PageHolds;
    if h <= h' { StrikesUnique(high, h, h'); } else { StrikesUnique(high, h', h); }
    if h % 2 == 0 {
      if l <= l' { StrikesUnique(low, l, l'); } else { StrikesUnique(low, l', l); }
    }
  }
}
