/** What the debouncing of fw/common/keyboard_scan.c makes of one key, as a function of all its readings, and
    when exactly it ends. */
module Debouncing {
  const SCAN_TIME_COUNT: nat := 32

  /** The low word of the clock. */
  const WORD: nat := 0x1_0000_0000

  /** What one scan says of a key: when it was made, whether the key was pressed, whether the scan was accepted,
      and the debounce time for a key that reads so. */
  datatype Reading = Reading(time: nat, pressed: bool, accepted: bool, debounce: nat)

  /** The key in the last accepted scan. */
  function Last(first: bool, r: seq<Reading>): bool {
    if r == [] then first
    else if r[|r| - 1].accepted then r[|r| - 1].pressed
    else Last(first, r[..|r| - 1])
  }

  /** The scan of the last edge: the last accepted one that read the key differently from the one before; -1 if
      there is none. */
  function Edge(first: bool, r: seq<Reading>): (e: int)
    ensures -1 <= e < |r|
  {
    if r == [] then -1
    else if Changed(first, r) then |r| - 1
    else Edge(first, r[..|r| - 1])
  }

  predicate Changed(first: bool, r: seq<Reading>)
    requires r != []
  {
    r[|r| - 1].accepted && r[|r| - 1].pressed != Last(first, r[..|r| - 1])
  }

  /** The scan whose time is in the slot of scan e after scan n: the slot is used again every 32 scans. */
  function SlotScan(e: nat, n: nat): (m: nat)
    requires e <= n
    ensures e <= m <= n < m + SCAN_TIME_COUNT
  {
    e + SCAN_TIME_COUNT * ((n - e) / SCAN_TIME_COUNT)
  }

  /** The difference of two times as words. */
  function Elapsed(now: nat, time: nat): nat {
    (now % WORD - time) % WORD
  }

  /** It is no more than the time that passed. */
  lemma WordElapsed(now: nat, earlier: nat)
    requires earlier <= now
    ensures Elapsed(now, earlier % WORD) <= now - earlier
    ensures now - earlier < WORD ==> Elapsed(now, earlier % WORD) == now - earlier
  {}

  /** The time that scan n finds elapsed for an edge in scan e. */
  function ElapsedAt(r: seq<Reading>, e: nat, n: nat): nat
    requires e <= n < |r|
  {
    Elapsed(r[n].time, r[SlotScan(e, n)].time % WORD)
  }

  /** In the last scan, the debounce time has elapsed. */
  predicate Due(first: bool, r: seq<Reading>)
    requires r != []
  {
    var e := Edge(first, r);
    e >= 0 && ElapsedAt(r, e, |r| - 1) >= r[|r| - 1].debounce
  }

  /** The key is being debounced. */
  predicate Settling(first: bool, r: seq<Reading>) {
    if r == [] then false
    else if !r[|r| - 1].accepted then Settling(first, r[..|r| - 1])
    else (Changed(first, r) || Settling(first, r[..|r| - 1])) && !Due(first, r)
  }

  /** The debounced key. */
  function Value(first: bool, r: seq<Reading>): bool {
    if r == [] then first
    else if r[|r| - 1].accepted && (Changed(first, r) || Settling(first, r[..|r| - 1])) && Due(first, r) then
      r[|r| - 1].pressed
    else Value(first, r[..|r| - 1])
  }

  predicate Monotone(r: seq<Reading>) {
    forall j, k :: 0 <= j <= k < |r| ==> r[j].time <= r[k].time
  }

  // ---- Safety ----

  lemma {:induction false} SettlingHasEdge(first: bool, r: seq<Reading>)
    requires Settling(first, r)
    ensures Edge(first, r) >= 0
    decreases |r|
  {
    if !Changed(first, r) { SettlingHasEdge(first, r[..|r| - 1]); }
  }

  /** A key that is not being debounced is as last read. */
  lemma {:induction false} SettledIsLast(first: bool, r: seq<Reading>)
    requires !Settling(first, r)
    ensures Value(first, r) == Last(first, r)
    decreases |r|
  {
    hide ElapsedAt;
    if r != [] {
      var p := r[..|r| - 1];
      if !Settling(first, p) { SettledIsLast(first, p); }
      if Settling(first, p) { SettlingHasEdge(first, p); }
    }
  }

  /** Since its last edge a key reads the same in every accepted scan. */
  lemma {:induction false} SteadySinceEdge(first: bool, r: seq<Reading>, k: nat)
    requires Edge(first, r) <= k < |r| && r[k].accepted
    ensures r[k].pressed == Last(first, r)
    decreases |r|
  {
    var p := r[..|r| - 1];
    if k < |p| {
      assert p[k] == r[k];
      SteadySinceEdge(first, p, k);
    }
  }

  /** The key reads the same in all accepted scans of a period as long as the debounce time, which ends with the
      last scan and lies within the last 32. */
  ghost predicate Debounced(r: seq<Reading>, pressed: bool, debounce: nat) {
    exists m :: 0 <= m < |r| <= m + SCAN_TIME_COUNT && r[m].time + debounce <= r[|r| - 1].time && Steady(r, m, pressed)
  }

  ghost predicate Steady(r: seq<Reading>, m: nat, pressed: bool) {
    forall k :: m <= k < |r| && r[k].accepted ==> r[k].pressed == pressed
  }

  /** A key flips only if it has read the same for the debounce time. */
  lemma FlipsAreDebounced(first: bool, r: seq<Reading>)
    requires r != [] && Monotone(r) && Value(first, r) != Value(first, r[..|r| - 1])
    ensures r[|r| - 1].accepted && Value(first, r) == r[|r| - 1].pressed
    ensures Debounced(r, Value(first, r), r[|r| - 1].debounce)
  {
    var n := |r| - 1;
    var e := Edge(first, r);
    var m := SlotScan(e, n);
    WordElapsed(r[n].time, r[m].time);
    forall k | m <= k < |r| && r[k].accepted
      ensures r[k].pressed == Value(first, r)
    {
      SteadySinceEdge(first, r, k);
    }
    assert Steady(r, m, Value(first, r));
  }

  // ---- When debouncing ends ----

  /** No accepted scan from e on has found the debounce time elapsed. */
  predicate NeverDue(r: seq<Reading>, e: nat) {
    forall k :: e <= k < |r| && r[k].accepted ==> ElapsedAt(r, e, k) < r[k].debounce
  }

  lemma ElapsedBefore(r: seq<Reading>, e: nat, k: nat)
    requires e <= k < |r| - 1
    ensures ElapsedAt(r[..|r| - 1], e, k) == ElapsedAt(r, e, k)
  {
    hide Elapsed;
  }

  lemma NeverDueStep(r: seq<Reading>, e: nat)
    requires e < |r|
    ensures var n := |r| - 1;
      NeverDue(r, e) <==> (e < n ==> NeverDue(r[..n], e)) && (r[n].accepted ==> ElapsedAt(r, e, n) < r[n].debounce)
  {
    hide ElapsedAt;
    var n, p := |r| - 1, r[..|r| - 1];
    forall k | e <= k < n
      ensures ElapsedAt(p, e, k) == ElapsedAt(r, e, k) && p[k] == r[k]
    {
      ElapsedBefore(r, e, k);
    }
  }

  /** A key is being debounced exactly if there was an edge and no accepted scan since the last one has found the
      debounce time elapsed. */
  lemma {:induction false} SettlingExactly(first: bool, r: seq<Reading>)
    ensures Settling(first, r) <==> Edge(first, r) >= 0 && NeverDue(r, Edge(first, r))
    decreases |r|
  {
    hide ElapsedAt, NeverDue;
    if r != [] {
      SettlingExactly(first, r[..|r| - 1]);
      if Edge(first, r) >= 0 { NeverDueStep(r, Edge(first, r)); }
    }
  }

  /** A key that does not have its new value yet takes it in an accepted scan exactly if the time from the scan in
      its slot has reached the debounce time. */
  lemma TakesValueExactly(first: bool, r: seq<Reading>)
    requires r != [] && r[|r| - 1].accepted && Value(first, r[..|r| - 1]) != Last(first, r)
    ensures Edge(first, r) >= 0
    ensures Value(first, r) == Last(first, r) <==>
      ElapsedAt(r, Edge(first, r), |r| - 1) >= r[|r| - 1].debounce
  {
    hide ElapsedAt;
    var p := r[..|r| - 1];
    if Settling(first, p) { SettlingHasEdge(first, p); } else { SettledIsLast(first, p); }
  }

  /** A key that is held has its new value as soon as an accepted scan, among the 32 from the edge on, comes the
      debounce time after the edge. */
  lemma HeldKeySettles(first: bool, r: seq<Reading>, n: nat)
    requires 0 <= Edge(first, r) <= n < |r| && n < Edge(first, r) + SCAN_TIME_COUNT && r[n].accepted
    requires r[Edge(first, r)].time + r[n].debounce <= r[n].time < r[Edge(first, r)].time + WORD
    ensures !Settling(first, r) && Value(first, r) == Last(first, r)
  {
    var e := Edge(first, r);
    assert SlotScan(e, n) == e;
    WordElapsed(r[n].time, r[e].time);
    SettlingExactly(first, r);
    SettledIsLast(first, r);
  }

  /** Any 32 consecutive scans take less than the debounce time. */
  predicate ShortSpans(r: seq<Reading>) {
    forall j, k :: 0 <= j <= k < |r| && k < j + SCAN_TIME_COUNT ==> r[k].time < r[j].time + r[k].debounce
  }

  /** Then debouncing never ends: the debounced key keeps its first value for ever, and from its first edge on it
      is being debounced. */
  lemma {:induction false} NeverEnds(first: bool, r: seq<Reading>)
    requires Monotone(r) && ShortSpans(r)
    ensures Value(first, r) == first
    ensures Settling(first, r) <==> Edge(first, r) >= 0
    decreases |r|
  {
    hide Elapsed, Settling, Value;
    var e := Edge(first, r);
    if e >= 0 {
      forall k | e <= k < |r| && r[k].accepted
        ensures ElapsedAt(r, e, k) < r[k].debounce
      {
        WordElapsed(r[k].time, r[SlotScan(e, k)].time);
      }
    }
    SettlingExactly(first, r);
    if r != [] {
      var p := r[..|r| - 1];
      assert forall j :: 0 <= j < |p| ==> p[j] == r[j];
      NeverEnds(first, p);
      if Value(first, r) != Value(first, p) { FlipsAreDebounced(first, r); }
    } else {
      NoReadings(first);
    }
  }

  lemma NoReadings(first: bool)
    ensures Value(first, []) == first
  {}
}
