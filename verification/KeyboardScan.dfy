/** Ghost detection and debouncing of fw/common/keyboard_scan.c. */
module KeyboardScan {
  import opened Debouncing
  import opened KeyBits

  const KEYBOARD_COLS: nat := 13

  type Matrix = s: seq<bv8> | |s| == KEYBOARD_COLS witness seq(KEYBOARD_COLS, _ => 0)

  /** Two columns share two pressed rows: a pressed key may be an artefact of three others. */
  ghost predicate Ghosted(m: Matrix) {
    exists c, d, i, j ::
      && 0 <= c < d < KEYBOARD_COLS && 0 <= i < j < KEYBOARD_ROWS
      && Key(m[c], i) && Key(m[c], j) && Key(m[d], i) && Key(m[d], j)
  }

  ghost predicate ColumnsGhosted(x: bv8, y: bv8) {
    exists i, j :: 0 <= i < j < KEYBOARD_ROWS && Key(x, i) && Key(x, j) && Key(y, i) && Key(y, j)
  }

  lemma CommonKeys(x: bv8, y: bv8)
    ensures var common := x & y;
            (common != 0 && common & (common - 1) != 0) <==> ColumnsGhosted(x, y)
  {
    var common := x & y;
    forall i | 0 <= i < KEYBOARD_ROWS
      ensures Key(common, i) == (Key(x, i) && Key(y, i))
    {
      AndKey(x, y, i);
    }
    if common != 0 { TwoKeys(common); } else { NoKeys(common); }
  }

  lemma GhostedColumns(m: Matrix, c: nat, d: nat)
    requires c < d < KEYBOARD_COLS && ColumnsGhosted(m[c], m[d])
    ensures Ghosted(m)
  {}

  lemma EmptyColumn(m: Matrix, c: nat)
    requires c < KEYBOARD_COLS && m[c] == 0
    ensures forall b :: c < b < KEYBOARD_COLS ==> !ColumnsGhosted(m[c], m[b])
  {
    NoKeys(m[c]);
  }

  lemma NotGhosted(m: Matrix)
    requires forall a, b :: 0 <= a < b < KEYBOARD_COLS ==> !ColumnsGhosted(m[a], m[b])
    ensures !Ghosted(m)
  {}

  /** common & (common - 1) on bytes, where 0 - 1 is 0xff. */
  function WithoutLowest(common: bv8): (r: bv8)
    ensures common == 0 ==> r == 0
  {
    common & (if common == 0 then 0xff else common - 1)
  }

  /** has_ghosting */
  method HasGhosting(state: Matrix) returns (ghosted: bool)
    ensures ghosted <==> Ghosted(state)
  {
    hide Ghosted, ColumnsGhosted;
    for c := 0 to KEYBOARD_COLS
      invariant forall a, b :: 0 <= a < c && a < b < KEYBOARD_COLS ==> !ColumnsGhosted(state[a], state[b])
    {
      if state[c] == 0 {
        EmptyColumn(state, c);
        continue;
      }
      for c2 := c + 1 to KEYBOARD_COLS
        invariant forall b :: c < b < c2 ==> !ColumnsGhosted(state[c], state[b])
      {
        var common := state[c] & state[c2];
        CommonKeys(state[c], state[c2]);
        if WithoutLowest(common) != 0 {
          GhostedColumns(state, c, c2);
          return true;
        }
      }
    }
    NotGhosted(state);
    ghosted := false;
  }

  // ---- The slots for scan times ----

  /** A scan of the matrix: when it was made, what it read, whether it was accepted, and the debounce times. */
  datatype Scan = Scan(time: nat, keys: Matrix, accepted: bool, down: nat, up: nat)

  /** The last of the first n scans whose time goes to slot s, or a negative number. */
  function Latest(n: nat, s: nat): int {
    n - 1 - (n - s) % SCAN_TIME_COUNT
  }

  lemma LatestNext(n: nat, s: nat)
    requires s < SCAN_TIME_COUNT
    ensures Latest(n + 1, s) == if s == (n + 1) % SCAN_TIME_COUNT then n else Latest(n, s)
    ensures n - SCAN_TIME_COUNT <= Latest(n, s) < n
  {
    var d := n - s;
    var q, r := d / SCAN_TIME_COUNT, d % SCAN_TIME_COUNT;
    assert d == SCAN_TIME_COUNT * q + r;
    NextResidue(d + 1, if r < SCAN_TIME_COUNT - 1 then q else q + 1, if r < SCAN_TIME_COUNT - 1 then r + 1 else 0);
    if r == SCAN_TIME_COUNT - 1 {
      NextResidue(n + 1, q + 1, s);
    } else if s == (n + 1) % SCAN_TIME_COUNT {
      NextResidue(d + 1, (n + 1) / SCAN_TIME_COUNT, 0);
    }
  }

  lemma NextResidue(x: int, q: int, r: int)
    requires 0 <= r < SCAN_TIME_COUNT && x == SCAN_TIME_COUNT * q + r
    ensures x % SCAN_TIME_COUNT == r
  {}

  /** The slot of an edge holds the time of the last scan that took it over. */
  lemma LatestIsSlotScan(n: nat, e: nat)
    requires e <= n
    ensures Latest(n + 1, (e + 1) % SCAN_TIME_COUNT) == SlotScan(e, n)
  {
    var d := n - e;
    var q, r := d / SCAN_TIME_COUNT, d % SCAN_TIME_COUNT;
    var p, s := (e + 1) / SCAN_TIME_COUNT, (e + 1) % SCAN_TIME_COUNT;
    assert d == SCAN_TIME_COUNT * q + r && e + 1 == SCAN_TIME_COUNT * p + s;
    NextResidue(n + 1 - s, p + q, r);
  }

  /** times[s] is the time of the last scan whose time goes to slot s. */
  ghost predicate SlotsHold(history: seq<Scan>, times: seq<nat>) {
    && |times| == SCAN_TIME_COUNT
    && forall s :: 0 <= s < SCAN_TIME_COUNT ==>
         var m := Latest(|history|, s);
         m < |history| && (m >= 0 ==> times[s] == history[m].time % WORD)
  }

  lemma SlotsNext(history: seq<Scan>, scan: Scan, times: seq<nat>)
    requires SlotsHold(history, times)
    ensures |times| == SCAN_TIME_COUNT
    ensures SlotsHold(history + [scan], times[(|history| + 1) % SCAN_TIME_COUNT := scan.time % WORD])
  {
    hide Latest;
    var i := (|history| + 1) % SCAN_TIME_COUNT;
    var history', times' := history + [scan], times[i := scan.time % WORD];
    assert |history'| == |history| + 1;
    forall s | 0 <= s < SCAN_TIME_COUNT
      ensures var m := Latest(|history'|, s); m < |history'| && (m >= 0 ==> times'[s] == history'[m].time % WORD)
    {
      LatestNext(|history|, s);
      assert Latest(|history|, s) < |history|;
    }
  }

  /** What the scans say of one key. */
  ghost function Readings(history: seq<Scan>, c: nat, i: nat): (r: seq<Reading>)
    requires c < KEYBOARD_COLS && i < KEYBOARD_ROWS
    ensures |r| == |history|
    ensures forall k :: 0 <= k < |r| ==> r[k] == ReadingOf(history[k], c, i)
  {
    seq(|history|, k requires 0 <= k < |history| => ReadingOf(history[k], c, i))
  }

  function ReadingOf(scan: Scan, c: nat, i: nat): Reading
    requires c < KEYBOARD_COLS && i < KEYBOARD_ROWS
  {
    var pressed := Key(scan.keys[c], i);
    Reading(scan.time, pressed, scan.accepted, if pressed then scan.down else scan.up)
  }

  lemma OneMoreReading(history: seq<Scan>, scan: Scan, c: nat, i: nat)
    requires c < KEYBOARD_COLS && i < KEYBOARD_ROWS
    ensures Readings(history + [scan], c, i) == Readings(history, c, i) + [ReadingOf(scan, c, i)]
  {
    hide ReadingOf;
  }

  /** The state of one key is a function of its readings. */
  ghost predicate KeyIs(first: bool, r: seq<Reading>, state: bool, previous: bool, debouncing: bool, edge: nat) {
    && state == Value(first, r) && previous == Last(first, r) && debouncing == Settling(first, r)
    && edge == (Edge(first, r) + 1) % SCAN_TIME_COUNT
  }

  /** A scan that is not accepted changes nothing. */
  lemma IgnoredReading(first: bool, r: seq<Reading>, x: Reading, state: bool, previous: bool, debouncing: bool,
                       edge: nat)
    requires KeyIs(first, r, state, previous, debouncing, edge) && !x.accepted
    ensures KeyIs(first, r + [x], state, previous, debouncing, edge)
  {
    assert (r + [x])[..|r|] == r;
  }

  /** What the two loops do to a key in an accepted scan, when elapsed is the time since the one in its slot. */
  lemma AcceptedReading(first: bool, r: seq<Reading>, x: Reading, state: bool, previous: bool, debouncing: bool,
                        edge: nat, elapsed: nat)
    requires KeyIs(first, r, state, previous, debouncing, edge) && x.accepted
    requires Edge(first, r + [x]) >= 0 ==> elapsed == ElapsedAt(r + [x], Edge(first, r + [x]), |r|)
    ensures var starts := x.pressed != previous;
            var done := (debouncing || starts) && elapsed >= x.debounce;
            KeyIs(first, r + [x], if done then x.pressed else state, x.pressed, (debouncing || starts) && !done,
                  if starts then (|r| + 1) % SCAN_TIME_COUNT else edge)
    ensures debouncing || x.pressed != previous ==> (Due(first, r + [x]) <==> elapsed >= x.debounce)
  {
    hide ElapsedAt;
    assert (r + [x])[..|r|] == r;
    if debouncing { SettlingHasEdge(first, r); }
  }

  /** A key that takes another value then is debounced. */
  lemma FlippedReading(first: bool, r: seq<Reading>, x: Reading, state: bool, previous: bool, debouncing: bool,
                       edge: nat, elapsed: nat)
    requires KeyIs(first, r, state, previous, debouncing, edge) && x.accepted && Monotone(r + [x])
    requires Edge(first, r + [x]) >= 0 ==> elapsed == ElapsedAt(r + [x], Edge(first, r + [x]), |r|)
    ensures (debouncing || x.pressed != previous) && elapsed >= x.debounce && x.pressed != state ==>
      Debounced(r + [x], x.pressed, x.debounce)
  {
    hide ElapsedAt, Edge, Last, Settling, Due, Value, Monotone, Debounced;
    AcceptedReading(first, r, x, state, previous, debouncing, edge, elapsed);
    assert (r + [x])[..|r|] == r;
    if Value(first, r + [x]) != Value(first, r) { FlipsAreDebounced(first, r + [x]); }
  }

  /** Records the slot of this scan for the rows that read differently: one column of the first loop. */
  method NoteColumn(column: bv8, previous: bv8, debouncing: bv8, edges: seq<nat>, slot: nat)
      returns (debouncing': bv8, edges': seq<nat>)
    requires |edges| == KEYBOARD_ROWS
    ensures |edges'| == KEYBOARD_ROWS
    ensures forall i :: 0 <= i < KEYBOARD_ROWS ==>
      edges'[i] == if Key(column, i) != Key(previous, i) then slot else edges[i]
    ensures forall i :: 0 <= i < KEYBOARD_ROWS ==>
      Key(debouncing', i) == (Key(debouncing, i) || Key(column, i) != Key(previous, i))
  {
    hide Key, Mask;
    var diff := column ^ previous;
    debouncing', edges' := debouncing, edges;
    NoKeys(diff);
    forall i | 0 <= i < KEYBOARD_ROWS
      ensures Key(diff, i) == (Key(column, i) != Key(previous, i))
    {
      XorKey(column, previous, i);
    }
    if diff == 0 {
      return;
    }
    for i := 0 to KEYBOARD_ROWS
      invariant |edges'| == KEYBOARD_ROWS
      invariant forall r :: 0 <= r < KEYBOARD_ROWS ==> edges'[r] == if r < i && Key(diff, r) then slot else edges[r]
    {
      if Key(diff, i) {
        edges' := edges'[i := slot];
      }
    }
    debouncing' := debouncing | diff;
    forall i | 0 <= i < KEYBOARD_ROWS
      ensures Key(debouncing', i) == (Key(debouncing, i) || Key(diff, i))
    {
      OrKey(debouncing, diff, i);
    }
  }

  /** A key is done debouncing when its debounce time has elapsed since the time in its slot. */
  predicate Done(debouncing: bv8, column: bv8, elapsed: seq<nat>, down: nat, up: nat, i: nat)
    requires |elapsed| == KEYBOARD_ROWS && i < KEYBOARD_ROWS
  {
    Key(debouncing, i) && elapsed[i] >= if Key(column, i) then down else up
  }

  /** One column of the second loop: the keys that are done take their new value. */
  method SettleColumn(column: bv8, state: bv8, debouncing: bv8, elapsed: seq<nat>, down: nat, up: nat)
      returns (state': bv8, debouncing': bv8, changed: seq<nat>)
    requires |elapsed| == KEYBOARD_ROWS
    ensures forall i :: 0 <= i < KEYBOARD_ROWS ==>
      Key(state', i) == if Done(debouncing, column, elapsed, down, up, i) then Key(column, i) else Key(state, i)
    ensures forall i :: 0 <= i < KEYBOARD_ROWS ==>
      Key(debouncing', i) == (Key(debouncing, i) && !Done(debouncing, column, elapsed, down, up, i))
    ensures forall k :: 0 <= k < |changed| ==> changed[k] < KEYBOARD_ROWS
    ensures forall k, m :: 0 <= k < m < |changed| ==> changed[k] < changed[m]
    ensures forall i :: 0 <= i < KEYBOARD_ROWS ==> (i in changed <==> Key(state', i) != Key(state, i))
  {
    hide Key, Mask;
    state', debouncing', changed := state, debouncing, [];
    NoKeys(debouncing);
    if debouncing == 0 {
      return;
    }
    for i := 0 to KEYBOARD_ROWS
      invariant forall r :: 0 <= r < KEYBOARD_ROWS ==>
        Key(state', r) ==
          if r < i && Done(debouncing, column, elapsed, down, up, r) then Key(column, r) else Key(state, r)
      invariant forall r :: 0 <= r < KEYBOARD_ROWS ==>
        Key(debouncing', r) == (Key(debouncing, r) && !(r < i && Done(debouncing, column, elapsed, down, up, r)))
      invariant forall k :: 0 <= k < |changed| ==> changed[k] < i
      invariant forall k, m :: 0 <= k < m < |changed| ==> changed[k] < changed[m]
      invariant forall r :: 0 <= r < i ==> (r in changed <==> Key(state', r) != Key(state, r))
    {
      if !Key(debouncing, i) {
        continue;
      }
      if elapsed[i] < (if Key(column, i) then down else up) {
        continue;
      }
      debouncing' := ClearRow(debouncing', i);
      if Key(state', i) == Key(column, i) {
        continue;
      }
      state' := FlipRow(state', i);
      changed := changed + [i];
    }
  }

  method ClearRow(x: bv8, i: nat) returns (y: bv8)
    requires i < KEYBOARD_ROWS
    ensures forall r :: 0 <= r < KEYBOARD_ROWS ==> Key(y, r) == (Key(x, r) && r != i)
  {
    hide Key;
    y := x & !Mask(i);
    forall r | 0 <= r < KEYBOARD_ROWS
      ensures Key(y, r) == (Key(x, r) && r != i)
    {
      ClearKey(x, i, r);
    }
  }

  method FlipRow(x: bv8, i: nat) returns (y: bv8)
    requires i < KEYBOARD_ROWS
    ensures forall r :: 0 <= r < KEYBOARD_ROWS ==> Key(y, r) == (Key(x, r) != (r == i))
  {
    hide Key;
    y := x ^ Mask(i);
    forall r | 0 <= r < KEYBOARD_ROWS
      ensures Key(y, r) == (Key(x, r) != (r == i))
    {
      FlipKey(x, i, r);
    }
  }

  class KeyboardScan {
    /** The debounced matrix, the previous accepted scan, and the keys being debounced. */
    var state: Matrix
    var prevState: Matrix
    var debouncing: Matrix
    var scanTime: seq<nat>
    var scanTimeIndex: nat
    var edgeIndex: seq<seq<nat>>
    var debounceDown: nat
    var debounceUp: nat

    /** All scans, and what keyboard_scan_init read. */
    ghost var history: seq<Scan>
    ghost var initial: Matrix

    ghost predicate Times()
      reads `scanTime, `scanTimeIndex, `history
    {
      && scanTimeIndex == |history| % SCAN_TIME_COUNT
      && (forall j, k :: 0 <= j <= k < |history| ==> history[j].time <= history[k].time)
      && SlotsHold(history, scanTime)
    }

    ghost predicate EdgesInRange()
      reads `edgeIndex
    {
      && |edgeIndex| == KEYBOARD_COLS
      && (forall c :: 0 <= c < KEYBOARD_COLS ==> |edgeIndex[c]| == KEYBOARD_ROWS)
      && forall c, i :: 0 <= c < KEYBOARD_COLS && 0 <= i < KEYBOARD_ROWS ==> edgeIndex[c][i] < SCAN_TIME_COUNT
    }

    ghost predicate KeyInv(c: nat, i: nat)
      requires EdgesInRange() && c < KEYBOARD_COLS && i < KEYBOARD_ROWS
      reads this
    {
      KeyIs(Key(initial[c], i), Readings(history, c, i),
            Key(state[c], i), Key(prevState[c], i), Key(debouncing[c], i), edgeIndex[c][i])
    }

    /** Every key is what its readings make of it. */
    ghost predicate Valid()
      reads this
    {
      && Times() && EdgesInRange()
      && forall c, i :: 0 <= c < KEYBOARD_COLS && 0 <= i < KEYBOARD_ROWS ==> KeyInv(c, i)
    }

    /** keyboard_scan_init */
    constructor (keys: Matrix, down: nat, up: nat)
      ensures Valid() && history == [] && initial == keys && state == keys && debounceDown == down && debounceUp == up
    {
      state, prevState, debouncing := keys, keys, seq(KEYBOARD_COLS, _ => 0);
      scanTime, scanTimeIndex := seq(SCAN_TIME_COUNT, _ => 0), 0;
      edgeIndex := seq(KEYBOARD_COLS, _ => seq(KEYBOARD_ROWS, _ => 0));
      debounceDown, debounceUp := down, up;
      history, initial := [], keys;
      new;
      NoKeys(0);
    }

    /** Saves the time of a scan in the next slot. */
    method SaveTime(now: nat, ghost scan: Scan)
      requires Times() && scan.time == now && (history != [] ==> history[|history| - 1].time <= now)
      modifies `scanTime, `scanTimeIndex, `history
      ensures Times() && history == old(history) + [scan] && |scanTime| == SCAN_TIME_COUNT
    {
      hide SlotsHold;
      SlotsNext(history, scan, scanTime);
      scanTimeIndex := scanTimeIndex + 1;
      if scanTimeIndex >= SCAN_TIME_COUNT {
        scanTimeIndex := 0;
      }
      scanTime := scanTime[scanTimeIndex := now % WORD];
      history := history + [scan];
    }

    /** The first loop: starts debouncing the keys that read differently from the previous accepted scan. */
    method NoteEdges(newState: Matrix)
      requires EdgesInRange() && scanTimeIndex < SCAN_TIME_COUNT
      modifies `edgeIndex, `debouncing, `prevState
      ensures EdgesInRange() && prevState == newState
      ensures forall c, i :: 0 <= c < KEYBOARD_COLS && 0 <= i < KEYBOARD_ROWS ==>
        edgeIndex[c][i] ==
          if Key(newState[c], i) != Key(old(prevState)[c], i) then scanTimeIndex else old(edgeIndex)[c][i]
      ensures forall c, i :: 0 <= c < KEYBOARD_COLS && 0 <= i < KEYBOARD_ROWS ==>
        Key(debouncing[c], i) == (Key(old(debouncing)[c], i) || Key(newState[c], i) != Key(old(prevState)[c], i))
    {
      hide Key;
      for c := 0 to KEYBOARD_COLS
        invariant |edgeIndex| == KEYBOARD_COLS && forall a :: 0 <= a < KEYBOARD_COLS ==> |edgeIndex[a]| == KEYBOARD_ROWS
        invariant forall a :: 0 <= a < c ==> prevState[a] == newState[a]
        invariant forall a, i :: 0 <= a < c && 0 <= i < KEYBOARD_ROWS ==>
          edgeIndex[a][i] ==
            if Key(newState[a], i) != Key(old(prevState)[a], i) then scanTimeIndex else old(edgeIndex)[a][i]
        invariant forall a, i :: 0 <= a < c && 0 <= i < KEYBOARD_ROWS ==>
          Key(debouncing[a], i) == (Key(old(debouncing)[a], i) || Key(newState[a], i) != Key(old(prevState)[a], i))
        invariant forall a :: c <= a < KEYBOARD_COLS ==>
          prevState[a] == old(prevState)[a] && debouncing[a] == old(debouncing)[a] && edgeIndex[a] == old(edgeIndex)[a]
      {
        var d, e := NoteColumn(newState[c], prevState[c], debouncing[c], edgeIndex[c], scanTimeIndex);
        debouncing := debouncing[c := d];
        edgeIndex := edgeIndex[c := e];
        prevState := prevState[c := newState[c]];
      }
    }

    /** Whether a key is done debouncing in this scan. */
    ghost predicate KeyDone(now: nat, newState: Matrix, c: nat, i: nat)
      requires |scanTime| == SCAN_TIME_COUNT && EdgesInRange() && c < KEYBOARD_COLS && i < KEYBOARD_ROWS
      reads this
    {
      Done(debouncing[c], newState[c], ColumnElapsed(now, edgeIndex[c], scanTime), debounceDown, debounceUp, i)
    }

    /** The second loop: the keys that are done debouncing take their new value. */
    method Settle(now: nat, newState: Matrix) returns (changes: seq<(nat, nat)>)
      requires |scanTime| == SCAN_TIME_COUNT && EdgesInRange()
      modifies `state, `debouncing
      ensures forall c, i :: 0 <= c < KEYBOARD_COLS && 0 <= i < KEYBOARD_ROWS ==>
        Key(state[c], i) == if old(KeyDone(now, newState, c, i)) then Key(newState[c], i) else Key(old(state)[c], i)
      ensures forall c, i :: 0 <= c < KEYBOARD_COLS && 0 <= i < KEYBOARD_ROWS ==>
        Key(debouncing[c], i) == (Key(old(debouncing)[c], i) && !old(KeyDone(now, newState, c, i)))
      ensures forall c, i :: 0 <= c < KEYBOARD_COLS && 0 <= i < KEYBOARD_ROWS ==>
        ((c, i) in changes <==> Key(state[c], i) != Key(old(state)[c], i))
    {
      hide Key, Done, ColumnElapsed;
      changes := [];
      for c := 0 to KEYBOARD_COLS
        invariant forall a, i :: 0 <= a < c && 0 <= i < KEYBOARD_ROWS ==>
          Key(state[a], i) == if old(KeyDone(now, newState, a, i)) then Key(newState[a], i) else Key(old(state)[a], i)
        invariant forall a, i :: 0 <= a < c && 0 <= i < KEYBOARD_ROWS ==>
          Key(debouncing[a], i) == (Key(old(debouncing)[a], i) && !old(KeyDone(now, newState, a, i)))
        invariant forall a, i :: 0 <= a < c && 0 <= i < KEYBOARD_ROWS ==>
          ((a, i) in changes <==> Key(state[a], i) != Key(old(state)[a], i))
        invariant forall a :: c <= a < KEYBOARD_COLS ==>
          state[a] == old(state)[a] && debouncing[a] == old(debouncing)[a]
        invariant forall ch :: ch in changes ==> ch.0 < c
      {
        var elapsed := ColumnElapsed(now, edgeIndex[c], scanTime);
        var s, d, rows := SettleColumn(newState[c], state[c], debouncing[c], elapsed, debounceDown, debounceUp);
        state := state[c := s];
        debouncing := debouncing[c := d];
        changes := changes + OfColumn(c, rows);
      }
    }

    /** check_keys_changed. changes are the keys that flip, for keyboard_state_changed; queued says that the
        matrix goes to keyboard_fifo_add. */
    method CheckKeysChanged(now: nat, newState: Matrix) returns (changes: seq<(nat, nat)>, queued: bool)
      requires Valid() && (history != [] ==> history[|history| - 1].time <= now)
      modifies this
      ensures Valid() && initial == old(initial) && debounceDown == old(debounceDown) && debounceUp == old(debounceUp)
      ensures history == old(history) + [Scan(now, newState, !Ghosted(newState), debounceDown, debounceUp)]
      ensures Ghosted(newState) ==> unchanged(`state, `prevState, `debouncing, `edgeIndex)
      ensures !Ghosted(newState) ==> prevState == newState
      ensures forall c, i :: 0 <= c < KEYBOARD_COLS && 0 <= i < KEYBOARD_ROWS ==>
        (Key(state[c], i) != Key(old(state)[c], i) ==>
           && !Ghosted(newState)
           && Debounced(Readings(history, c, i), Key(state[c], i),
                        if Key(state[c], i) then debounceDown else debounceUp))
      ensures !Ghosted(newState) ==>
        forall c, i :: 0 <= c < KEYBOARD_COLS && 0 <= i < KEYBOARD_ROWS ==>
          (Key(debouncing[c], i) <==>
             && (Key(old(debouncing)[c], i) || Key(newState[c], i) != Key(old(prevState)[c], i))
             && !Due(Key(initial[c], i), Readings(history, c, i)))
      ensures forall c, i :: 0 <= c < KEYBOARD_COLS && 0 <= i < KEYBOARD_ROWS ==>
        ((c, i) in changes <==> Key(state[c], i) != Key(old(state)[c], i))
      ensures queued <==> changes != []
    {
      hide Key, KeyIs, Debounced, Due, Elapsed, Ghosted, Done, ColumnElapsed, SlotsHold, Readings, ReadingOf;
      changes, queued := [], false;
      ghost var h := history;
      ghost var scan := Scan(now, newState, !Ghosted(newState), debounceDown, debounceUp);
      SaveTime(now, scan);
      var ghosted := HasGhosting(newState);
      if ghosted {
        forall c, i | 0 <= c < KEYBOARD_COLS && 0 <= i < KEYBOARD_ROWS
          ensures KeyInv(c, i)
        {
          assert old(KeyInv(c, i));
          IgnoredKey(Key(initial[c], i), h, scan, c, i, Key(state[c], i), Key(prevState[c], i), Key(debouncing[c], i),
                     edgeIndex[c][i]);
        }
        return;
      }
      NoteEdges(newState);
      ghost var noted := debouncing;
      changes := Settle(now, newState);
      queued := changes != [];
      forall c, i | 0 <= c < KEYBOARD_COLS && 0 <= i < KEYBOARD_ROWS
        ensures KeyInv(c, i)
        ensures Key(state[c], i) != Key(old(state)[c], i) ==>
          Debounced(Readings(history, c, i), Key(state[c], i), if Key(state[c], i) then debounceDown else debounceUp)
        ensures Key(debouncing[c], i) <==>
             && (Key(old(debouncing)[c], i) || Key(newState[c], i) != Key(old(prevState)[c], i))
             && !Due(Key(initial[c], i), Readings(history, c, i))
      {
        assert old(KeyInv(c, i));
        DoneMeans(noted[c], newState[c], now, edgeIndex[c], scanTime, debounceDown, debounceUp, i);
        AcceptedKey(Key(initial[c], i), h, scan, scanTime, c, i, Key(old(state)[c], i), Key(old(prevState)[c], i),
                    Key(old(debouncing)[c], i), old(edgeIndex)[c][i], edgeIndex[c][i]);
      }
    }
  }

  lemma IgnoredKey(first: bool, h: seq<Scan>, scan: Scan, c: nat, i: nat, state: bool, previous: bool, debouncing: bool,
                   edge: nat)
    requires c < KEYBOARD_COLS && i < KEYBOARD_ROWS && !scan.accepted
    requires KeyIs(first, Readings(h, c, i), state, previous, debouncing, edge)
    ensures KeyIs(first, Readings(h + [scan], c, i), state, previous, debouncing, edge)
  {
    hide KeyIs;
    OneMoreReading(h, scan, c, i);
    IgnoredReading(first, Readings(h, c, i), ReadingOf(scan, c, i), state, previous, debouncing, edge);
  }

  lemma SlotTime(history: seq<Scan>, times: seq<nat>, e: nat)
    requires SlotsHold(history, times) && e < |history|
    ensures (e + 1) % SCAN_TIME_COUNT < |times|
    ensures times[(e + 1) % SCAN_TIME_COUNT] == history[SlotScan(e, |history| - 1)].time % WORD
  {
    hide Latest;
    LatestIsSlotScan(|history| - 1, e);
  }

  lemma SlotElapsed(history: seq<Scan>, times: seq<nat>, c: nat, i: nat, e: nat)
    requires c < KEYBOARD_COLS && i < KEYBOARD_ROWS && SlotsHold(history, times) && e < |history|
    ensures (e + 1) % SCAN_TIME_COUNT < |times|
    ensures Elapsed(history[|history| - 1].time, times[(e + 1) % SCAN_TIME_COUNT])
         == ElapsedAt(Readings(history, c, i), e, |history| - 1)
  {
    hide SlotsHold, SlotScan, Elapsed;
    SlotTime(history, times, e);
  }

  lemma ReadingsMonotone(history: seq<Scan>, c: nat, i: nat)
    requires c < KEYBOARD_COLS && i < KEYBOARD_ROWS
    requires forall j, k :: 0 <= j <= k < |history| ==> history[j].time <= history[k].time
    ensures Monotone(Readings(history, c, i))
  {
    hide Key;
  }

  /** The slot that is kept for a key is that of its last edge. */
  lemma EdgeSlot(first: bool, r: seq<Reading>, x: Reading, previous: bool, edge: nat)
    requires x.accepted && previous == Last(first, r) && edge == (Edge(first, r) + 1) % SCAN_TIME_COUNT
    ensures (if x.pressed != previous then (|r| + 1) % SCAN_TIME_COUNT else edge)
         == (Edge(first, r + [x]) + 1) % SCAN_TIME_COUNT
  {
    assert (r + [x])[..|r|] == r;
  }

  /** One key in an accepted scan, with the time in the slot of its edge. */
  lemma AcceptedKey(first: bool, h: seq<Scan>, scan: Scan, times: seq<nat>, c: nat, i: nat, state: bool, previous: bool,
                    debouncing: bool, edge: nat, edge': nat)
    requires c < KEYBOARD_COLS && i < KEYBOARD_ROWS && scan.accepted && SlotsHold(h + [scan], times)
    requires forall j, k :: 0 <= j <= k < |h + [scan]| ==> (h + [scan])[j].time <= (h + [scan])[k].time
    requires KeyIs(first, Readings(h, c, i), state, previous, debouncing, edge)
    requires edge' == (if Key(scan.keys[c], i) != previous then (|h| + 1) % SCAN_TIME_COUNT else edge) < |times|
    ensures var pressed := Key(scan.keys[c], i);
            var debounce := if pressed then scan.down else scan.up;
            var r := Readings(h + [scan], c, i);
            var busy := debouncing || pressed != previous;
            var done := busy && Elapsed(scan.time, times[edge']) >= debounce;
            && KeyIs(first, r, if done then pressed else state, pressed, busy && !done, edge')
            && (done && pressed != state ==> Debounced(r, pressed, debounce))
            && (busy && !done <==> busy && !Due(first, r))
  {
    hide *;
    KeyElapsed(first, h, scan, times, c, i, state, previous, debouncing, edge, edge');
    var x, r := ReadingOf(scan, c, i), Readings(h, c, i);
    OneMoreReading(h, scan, c, i);
    ReadingIs(scan, c, i);
    ReadingsMonotone(h + [scan], c, i);
    AcceptedReading(first, r, x, state, previous, debouncing, edge, Elapsed(scan.time, times[edge']));
    FlippedReading(first, r, x, state, previous, debouncing, edge, Elapsed(scan.time, times[edge']));
  }

  lemma ReadingIs(scan: Scan, c: nat, i: nat)
    requires c < KEYBOARD_COLS && i < KEYBOARD_ROWS
    ensures var pressed := Key(scan.keys[c], i);
      ReadingOf(scan, c, i) == Reading(scan.time, pressed, scan.accepted, if pressed then scan.down else scan.up)
  {}

  /** The time that is found elapsed is that since the scan in the slot. */
  lemma KeyElapsed(first: bool, h: seq<Scan>, scan: Scan, times: seq<nat>, c: nat, i: nat, state: bool, previous: bool,
                   debouncing: bool, edge: nat, edge': nat)
    requires c < KEYBOARD_COLS && i < KEYBOARD_ROWS && scan.accepted && SlotsHold(h + [scan], times)
    requires KeyIs(first, Readings(h, c, i), state, previous, debouncing, edge)
    requires edge' == (if Key(scan.keys[c], i) != previous then (|h| + 1) % SCAN_TIME_COUNT else edge) < |times|
    ensures var r' := Readings(h, c, i) + [ReadingOf(scan, c, i)];
      Edge(first, r') >= 0 ==> Elapsed(scan.time, times[edge']) == ElapsedAt(r', Edge(first, r'), |h|)
  {
    hide Elapsed, ElapsedAt, Edge, Last, Settling, Value, Key, SlotsHold;
    var x, r := ReadingOf(scan, c, i), Readings(h, c, i);
    OneMoreReading(h, scan, c, i);
    EdgeSlot(first, r, x, previous, edge);
    if Edge(first, r + [x]) >= 0 { SlotElapsed(h + [scan], times, c, i, Edge(first, r + [x])); }
  }

  lemma DoneMeans(debouncing: bv8, column: bv8, now: nat, edges: seq<nat>, times: seq<nat>, down: nat, up: nat, i: nat)
    requires |edges| == KEYBOARD_ROWS && i < KEYBOARD_ROWS && forall r :: 0 <= r < KEYBOARD_ROWS ==> edges[r] < |times|
    ensures Done(debouncing, column, ColumnElapsed(now, edges, times), down, up, i) <==>
      Key(debouncing, i) && Elapsed(now, times[edges[i]]) >= if Key(column, i) then down else up
  {
    hide Key, Elapsed;
  }

  /** tnow - scan_time[scan_edge_index[c][i]] for the rows of a column. */
  function ColumnElapsed(now: nat, edges: seq<nat>, times: seq<nat>): (r: seq<nat>)
    requires |edges| == KEYBOARD_ROWS && forall i :: 0 <= i < KEYBOARD_ROWS ==> edges[i] < |times|
    ensures |r| == KEYBOARD_ROWS
  {
    seq(KEYBOARD_ROWS, i requires 0 <= i < KEYBOARD_ROWS => Elapsed(now, times[edges[i]]))
  }

  function OfColumn(c: nat, rows: seq<nat>): (r: seq<(nat, nat)>)
    ensures forall a, i :: (a, i) in r <==> a == c && i in rows
  {
    if rows == [] then [] else [(c, rows[0])] + OfColumn(c, rows[1..])
  }

  // ---- Runs ----

  /** Any 32 consecutive scans take less than either debounce time. */
  predicate ShortRun(history: seq<Scan>) {
    && (forall j, k :: 0 <= j <= k < |history| ==> history[j].time <= history[k].time)
    && forall j, k :: 0 <= j <= k < |history| && k < j + SCAN_TIME_COUNT ==>
         history[k].time < history[j].time + history[k].down && history[k].time < history[j].time + history[k].up
  }

  /** In such a run no key ever flips. */
  lemma ShortRunsNeverFlip(history: seq<Scan>, first: bool, c: nat, i: nat)
    requires c < KEYBOARD_COLS && i < KEYBOARD_ROWS && ShortRun(history)
    ensures Value(first, Readings(history, c, i)) == first
    ensures Settling(first, Readings(history, c, i)) <==> Edge(first, Readings(history, c, i)) >= 0
  {
    NeverEnds(first, Readings(history, c, i));
  }

  /** Nothing is pressed; only the key in column 0 and row 0 is pressed. */
  const NO_KEY: Matrix := [0, 0, 0, 0, 0, 0, 0, 0, 0, 0, 0, 0, 0]

  const ONE_KEY: Matrix := [1, 0, 0, 0, 0, 0, 0, 0, 0, 0, 0, 0, 0]

  lemma OneKeyPressed()
    ensures Key(ONE_KEY[0], 0) && !Key(NO_KEY[0], 0) && !Ghosted(ONE_KEY)
  {
    NoKeys(0);
    assert Key(1, 0) by { MaskKey(0, 0); }
    hide Key;
    assert forall d :: 0 < d < KEYBOARD_COLS ==> ONE_KEY[d] == 0;
  }

  /** The key is held from scan 0 on, with a scan every 900 microseconds and debounce times of 30 milliseconds. */
  ghost predicate Held(history: seq<Scan>) {
    forall k :: 0 <= k < |history| ==> history[k] == Scan(900 * k, ONE_KEY, true, 30_000, 30_000)
  }

  lemma {:induction false} HeldFromTheStart(r: seq<Reading>)
    requires r != [] && forall k :: 0 <= k < |r| ==> r[k].accepted && r[k].pressed
    ensures Edge(false, r) == 0 && Last(false, r)
    decreases |r|
  {
    if |r| > 1 { HeldFromTheStart(r[..|r| - 1]); }
  }

  /** However long that goes on, the key is never seen. */
  method HeldForEver(n: nat) returns (s: KeyboardScan)
    ensures s.Valid() && |s.history| == n && Held(s.history) && s.state == NO_KEY
    ensures n > 0 ==> Key(s.debouncing[0], 0)
  {
    hide Key, Settling, Value, Ghosted, Readings;
    OneKeyPressed();
    s := new KeyboardScan(NO_KEY, 30_000, 30_000);
    for k := 0 to n
      invariant s.Valid() && fresh(s) && |s.history| == k && Held(s.history) && s.initial == NO_KEY
      invariant s.debounceDown == s.debounceUp == 30_000
    {
      var changes, queued := s.CheckKeysChanged(900 * k, ONE_KEY);
    }
    NeverSeen(s, n);
  }

  lemma NeverSeen(s: KeyboardScan, n: nat)
    requires s.Valid() && |s.history| == n && Held(s.history) && s.initial == NO_KEY
    ensures s.state == NO_KEY && (n > 0 ==> Key(s.debouncing[0], 0))
  {
    hide Key, Settling, Value, Edge, Last, Readings, Held, SlotsHold;
    HeldIsShort(s.history);
    NoKeys(0);
    forall c | 0 <= c < KEYBOARD_COLS
      ensures s.state[c] == NO_KEY[c]
    {
      forall i | 0 <= i < KEYBOARD_ROWS
        ensures !Key(s.state[c], i)
      {
        assert s.KeyInv(c, i);
        ShortRunsNeverFlip(s.history, Key(s.initial[c], i), c, i);
      }
      NoKeys(s.state[c]);
    }
    if n > 0 {
      assert s.KeyInv(0, 0);
      HeldEdge(s.history);
      ShortRunsNeverFlip(s.history, false, 0, 0);
    }
  }

  lemma HeldIsShort(history: seq<Scan>)
    requires Held(history)
    ensures ShortRun(history)
  {}

  lemma HeldEdge(history: seq<Scan>)
    requires Held(history) && history != []
    ensures Edge(false, Readings(history, 0, 0)) == 0
  {
    OneKeyPressed();
    hide Key;
    HeldFromTheStart(Readings(history, 0, 0));
  }

  /** Held for ten times the debounce time, in two scans, the key is seen. */
  method HeldLongEnough() returns (s: KeyboardScan)
    ensures s.Valid() && |s.history| == 2 && Key(s.state[0], 0)
  {
    hide Key, Settling, Value, Ghosted;
    OneKeyPressed();
    s := new KeyboardScan(NO_KEY, 10, 1000);
    var changes, queued := s.CheckKeysChanged(100, ONE_KEY);
    changes, queued := s.CheckKeysChanged(200, ONE_KEY);
    ghost var r := Readings(s.history, 0, 0);
    HeldFromTheStart(r);
    HeldKeySettles(false, r, 1);
    assert s.KeyInv(0, 0);
  }
}
