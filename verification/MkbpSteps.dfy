/** mkbp_fifo_add and mkbp_clear_fifo of fw/common/keyboard_mkbp.c store by store, with host commands between any
    two stores. */
module MkbpSteps {
  import opened MachineInts
  import opened MkbpEvents

  const FIFO_DEPTH: nat := 16
  const KEY_MATRIX: nat := 0
  const KEYBOARD_COLS: nat := 13

  datatype Entry = Entry(eventType: nat, data: seq<uint8>)
  {
    ghost predicate Valid() { eventType in FIFO_TYPES && |data| == DataSize(eventType) }
  }

  /** A slot after memset: a key matrix with no key pressed. */
  const ZERO: Entry := Entry(KEY_MATRIX, [0, 0, 0, 0, 0, 0, 0, 0, 0, 0, 0, 0, 0])

  /** get_data_size */
  function DataSize(e: nat): nat {
    if e == KEY_MATRIX then KEYBOARD_COLS
    else if e == 1 || e == 3 || e == 4 || e == 6 then 4
    else 0
  }

  /** The slot in the FIFO, for a position counted without wrapping. */
  function Slot(k: nat): (s: nat)
    ensures s < FIFO_DEPTH
  {
    k % FIFO_DEPTH
  }

  lemma SlotLaws(start: nat, k: nat)
    requires start < FIFO_DEPTH
    ensures Slot(start) == start && Slot(Slot(start + 1) + k) == Slot(start + (k + 1))
    ensures Slot(Slot(start + k) + 1) == Slot(start + (k + 1))
  {
    SlotOfSum(start + 1, k);
    SlotOfSum(start + k, 1);
  }

  lemma SlotOfSum(a: nat, b: nat)
    ensures Slot(Slot(a) + b) == Slot(a + b)
  {
    var q, r := a / FIFO_DEPTH, a % FIFO_DEPTH;
    var p, t := (r + b) / FIFO_DEPTH, (r + b) % FIFO_DEPTH;
    SlotIsRest(a + b, q + p, t);
  }

  lemma SlotIsRest(k: nat, q: nat, r: nat)
    requires r < FIFO_DEPTH && k == FIFO_DEPTH * q + r
    ensures Slot(k) == r
  {}

  lemma SlotsApart(start: nat, k: nat, m: nat)
    requires k < m < FIFO_DEPTH
    ensures Slot(start + k) != Slot(start + m)
  {
    var q, r := (start + k) / FIFO_DEPTH, (start + k) % FIFO_DEPTH;
    var d := m - k;
    if r + d < FIFO_DEPTH {
      SlotIsRest(start + m, q, r + d);
    } else {
      SlotIsRest(start + m, q + 1, r + d - FIFO_DEPTH);
    }
  }

  /** The variables that additions, clears and host commands share. */
  datatype Memory = Memory(events: set<nat>, last: nat, fifo: seq<Entry>, start: nat, end: nat, entries: nat)
  {
    ghost predicate Shape() {
      && EventSet(events) && last <= EVENT_COUNT
      && |fifo| == FIFO_DEPTH && start < FIFO_DEPTH && end < FIFO_DEPTH && entries <= FIFO_DEPTH
      && forall i :: 0 <= i < |fifo| ==> fifo[i].eventType in FIFO_TYPES
    }

    /** What get_next_event peeks at. */
    function Peek(): Head
      requires start < |fifo|
    {
      if entries == 0 then Empty else Type(fifo[start].eventType)
    }

    ghost predicate HeadIsSet()
      requires start < |fifo|
    {
      entries > 0 ==> fifo[start].eventType in events
    }

    /** The slot of the entry after k others. */
    function Place(k: nat): (s: nat)
      ensures s < FIFO_DEPTH
    {
      Slot(start + k)
    }

    /** The entries in the FIFO, first to last. */
    ghost function Contents(): (c: seq<Entry>)
      requires Shape()
      ensures |c| == entries && forall k :: 0 <= k < |c| ==> c[k] == fifo[Place(k)]
    {
      seq(entries, k requires 0 <= k < entries => fifo[Place(k)])
    }

    /** Between additions and clears. */
    ghost predicate Good() { Shape() && end == Slot(start + entries) && HeadIsSet() }
  }

  /** Where an addition of e, or a clear, is. wakes says whether the event will wake the host. */
  datatype Pc =
    | Idle
    | Typed(e: Entry, wakes: bool) | Copied(e: Entry, wakes: bool) | Moved(e: Entry, wakes: bool)
    | Queued(e: Entry, wakes: bool) | Sent(e: Entry, wakes: bool)
    | Clearing | StartCleared | EndCleared | Zeroing(i: nat)

  datatype State = State(m: Memory, pc: Pc)

  datatype Action = Begin(e: Entry, wakes: bool) | Clear | Step | Get(served: nat) | Send(event: nat)

  function Zeroed(): (f: seq<Entry>)
    ensures |f| == FIFO_DEPTH && forall i :: 0 <= i < FIFO_DEPTH ==> f[i] == ZERO
  {
    seq(FIFO_DEPTH, _ => ZERO)
  }

  function Init(): State { State(Memory({}, 0, Zeroed(), 0, 0, 0), Idle) }

  // ---- The steps ----

  /** What holds in every run. */
  ghost predicate Bounded(s: State) {
    && s.m.Shape()
    && match s.pc
       case Typed(e, _) => e.Valid() && s.m.entries < FIFO_DEPTH
       case Copied(e, _) => e.Valid() && s.m.entries < FIFO_DEPTH
       case Moved(e, _) => e.Valid() && s.m.entries < FIFO_DEPTH
       case Queued(e, _) => e.Valid()
       case Zeroing(i) => i < FIFO_DEPTH
       case _ => true
  }

  /** One addition or clear runs at a time, and a host command in one piece, but between any two of their stores. */
  ghost predicate Enabled(s: State, a: Action)
    requires Bounded(s)
  {
    match a
    case Begin(e, _) => s.pc.Idle? && e.Valid() && s.m.entries < FIFO_DEPTH
    case Clear => s.pc.Idle?
    case Step => !s.pc.Idle?
    case Get(x) => InTurn(s.m.events, s.m.Peek(), s.m.last, x)
    case Send(x) => x < EVENT_COUNT
  }

  /** The next store of mkbp_fifo_add or mkbp_clear_fifo. */
  function NextStore(s: State): State
    requires s.m.end < |s.m.fifo| && (s.pc.Zeroing? ==> s.pc.i < |s.m.fifo|)
  {
    var m := s.m;
    match s.pc
    case Idle => s
    case Typed(e, w) => State(m.(fifo := m.fifo[m.end := e]), Copied(e, w))
    case Copied(e, w) => State(m.(end := Slot(m.end + 1)), Moved(e, w))
    case Moved(e, w) => State(m.(entries := m.entries + 1), Queued(e, w))
    case Queued(e, w) => State(m.(events := m.events + {e.eventType}), Sent(e, w))
    case Sent(_, w) => State(m, if !w && m.entries == 1 then Clearing else Idle)
    case Clearing => State(m.(start := 0), StartCleared)
    case StartCleared => State(m.(end := 0), EndCleared)
    case EndCleared => State(m.(entries := 0), Zeroing(0))
    case Zeroing(i) => State(m.(fifo := m.fifo[i := ZERO]), if i + 1 == FIFO_DEPTH then Idle else Zeroing(i + 1))
  }

  /** A host command takes the head of the FIFO. */
  predicate Takes(m: Memory, x: nat) { x in FIFO_TYPES && m.entries > 0 }

  /** mkbp_get_next_event, when it serves x. */
  function Serve(m: Memory, x: nat): Memory
    requires |m.fifo| == FIFO_DEPTH
  {
    var rest := m.(events := m.events - {x}, last := x + 1);
    if Takes(m, x) then Taken(rest) else rest
  }

  /** fifo_remove, and the event of the next entry is set. */
  function Taken(m: Memory): Memory
    requires |m.fifo| == FIFO_DEPTH && m.entries > 0
  {
    var start := Slot(m.start + 1);
    m.(start := start, entries := m.entries - 1,
       events := m.events + if m.entries == 1 then {} else {m.fifo[start].eventType})
  }

  ghost function Apply(s: State, a: Action): State
    requires Bounded(s) && Enabled(s, a)
  {
    match a
    case Begin(e, w) =>
      State(s.m.(fifo := s.m.fifo[s.m.end := Entry(e.eventType, s.m.fifo[s.m.end].data)]), Typed(e, w))
    case Clear => s.(pc := Clearing)
    case Step => NextStore(s)
    case Get(x) => s.(m := Serve(s.m, x))
    case Send(x) => s.(m := s.m.(events := s.m.events + {x}))
  }

  // ---- What holds at each position ----

  lemma NextBounded(s: State, a: Action)
    requires Bounded(s) && Enabled(s, a)
    ensures Bounded(Apply(s, a))
  {
    hide Slot;
  }

  ghost predicate Inv(s: State) {
    var m := s.m;
    Bounded(s) &&
    match s.pc
    case Idle => m.Good()
    case Typed(_, _) => m.Good()
    case Copied(e, _) => m.Good() && m.fifo[m.end] == e
    case Moved(e, _) =>
      && m.HeadIsSet() && m.fifo[Slot(m.start + m.entries)] == e && m.end == Slot(m.start + m.entries + 1)
    case Queued(e, _) =>
      && m.end == Slot(m.start + m.entries) && (m.entries != 1 ==> m.HeadIsSet())
      && (m.entries > 0 ==> m.fifo[Slot(m.start + m.entries - 1)] == e)
    case Sent(_, _) => m.Good()
    case Clearing => m.Good()
    case StartCleared => true
    case EndCleared => m.end == 0
    case Zeroing(_) => m.end == 0 && m.entries == 0
  }

  /** The clear is about to end, and a host command has taken entries between its stores. */
  predicate Tears(s: State, a: Action) {
    a == Step && s.pc == Zeroing(FIFO_DEPTH - 1) && s.m.start != 0
  }

  lemma InitInv()
    ensures Inv(Init())
  {}

  lemma BeginInv(s: State, e: Entry, w: bool)
    requires Inv(s) && Enabled(s, Begin(e, w))
    ensures Inv(Apply(s, Begin(e, w)))
    ensures Apply(s, Begin(e, w)).m.Contents() == s.m.Contents()
  {
    hide Slot;
    OutsideContents(s.m, Entry(e.eventType, s.m.fifo[s.m.end].data));
  }

  /** Writing the slot after the last entry changes no entry. */
  lemma OutsideContents(m: Memory, e: Entry)
    requires m.Good() && m.entries < FIFO_DEPTH && e.eventType in FIFO_TYPES
    ensures var m' := m.(fifo := m.fifo[m.end := e]); m'.Good() && m'.Contents() == m.Contents()
  {
    hide Slot;
    var m' := m.(fifo := m.fifo[m.end := e]);
    SlotLaws(m.start, 0);
    forall k: nat | k < m.entries
      ensures m.Place(k) != m.end
    {
      SlotsApart(m.start, k, m.entries);
    }
    assert m.entries > 0 ==> m.Place(0) != m.end;
    assert forall k: nat :: m'.Place(k) == m.Place(k);
  }

  /** The store that queues the entry of an addition, when no host command comes before it, is that of entries. */
  lemma StoreInv(s: State)
    requires Inv(s) && Enabled(s, Step) && !Tears(s, Step)
    ensures Inv(Apply(s, Step))
  {
    hide Slot;
    var m := s.m;
    SlotLaws(m.start, m.entries);
    if s.pc.Typed? { OutsideContents(m, s.pc.e); }
    if s.pc.Zeroing? || s.pc.EndCleared? || s.pc.StartCleared? { SlotLaws(0, 0); }
  }

  /** When an addition or a clear takes effect: at its store to entries. */
  lemma StoreContents(s: State)
    requires Inv(s) && Enabled(s, Step) && Inv(Apply(s, Step))
    requires !s.pc.Clearing? && !s.pc.StartCleared? && !s.pc.EndCleared?
    ensures Apply(s, Step).m.Contents() == s.m.Contents() + if s.pc.Moved? then [s.pc.e] else []
  {
    hide Slot;
    if s.pc.Typed? { OutsideContents(s.m, s.pc.e); }
  }

  /** A host command takes the first entry, or none. */
  lemma GetInv(s: State, x: nat)
    requires Inv(s) && Enabled(s, Get(x))
    ensures Inv(Apply(s, Get(x)))
    ensures var m' := Apply(s, Get(x)).m;
      if Takes(s.m, x) then
        && s.m.Contents() == [s.m.fifo[s.m.start]] + m'.Contents()
        && s.m.fifo[s.m.start].eventType == x
      else
        m'.Contents() == s.m.Contents()
  {
    hide Slot;
    if Takes(s.m, x) {
      TakeContents(s.m, x);
      TakeSlots(s.m, x);
      hide Memory.Contents, InTurn;
      InTurnAnswers(s.m.events, s.m.Peek(), s.m.last, x);
    } else {
      SameContents(s.m, Serve(s.m, x));
      hide Memory.Contents;
    }
  }

  /** The last entry, and the free slot after it, stay where they are. */
  lemma TakeSlots(m: Memory, x: nat)
    requires m.Shape() && Takes(m, x)
    ensures var m' := Serve(m, x);
      && Slot(m'.start + m'.entries) == Slot(m.start + m.entries)
      && Slot(m'.start + m'.entries + 1) == Slot(m.start + m.entries + 1)
      && (m'.entries > 0 ==> Slot(m'.start + m'.entries - 1) == Slot(m.start + m.entries - 1))
  {
    hide Slot;
    SlotLaws(m.start, m.entries);
    SlotLaws(m.start, m.entries - 1);
    if m.entries > 1 { SlotLaws(m.start, m.entries - 2); }
  }

  lemma TakeContents(m: Memory, x: nat)
    requires m.Shape() && Takes(m, x)
    ensures Serve(m, x).Shape()
    ensures m.Contents() == [m.fifo[m.start]] + Serve(m, x).Contents()
  {
    hide Slot;
    var m' := Serve(m, x);
    SlotLaws(m.start, 0);
    forall k: nat | k < m.entries - 1
      ensures m'.Place(k) == m.Place(k + 1)
    {
      SlotLaws(m.start, k);
    }
    assert m.start == m.Place(0);
  }

  /** Every action keeps the invariant, unless it ends a clear in which a host command took entries. */
  lemma NextInv(s: State, a: Action)
    requires Inv(s) && Enabled(s, a)
    ensures Inv(Apply(s, a)) <==> !Tears(s, a)
  {
    match a
    case Begin(e, w) => BeginInv(s, e, w);
    case Clear =>
    case Step => if Tears(s, a) { TearsFifo(s); } else { StoreInv(s); }
    case Get(x) => GetInv(s, x);
    case Send(x) => 
  }

  /** After such a clear, start and end differ although there is no entry. */
  lemma TearsFifo(s: State)
    requires Inv(s) && Enabled(s, Step) && Tears(s, Step)
    ensures var s' := Apply(s, Step);
      s'.pc.Idle? && s'.m.entries == 0 && s'.m.end == 0 && s'.m.start != 0 && !Inv(s')
  {}

  // ---- Where the retry loop of a host command never ends ----

  /** A host command that starts with this memory never ends. */
  ghost predicate NeverEnds(m: Memory)
    requires m.Shape() && m.events != {}
  {
    forall n :: Rounds(m.events, m.Peek(), m.last, n) == Empty
  }

  lemma NeverEndsIs(m: Memory)
    requires m.Shape() && m.events != {}
    ensures NeverEnds(m) <==> !Live(m.events, m.Peek())
  {
    hide Rounds, Live;
    LoopEndsIffLive(m.events, m.Peek(), m.last);
    if !Live(m.events, m.Peek()) {
      forall n: nat
        ensures Rounds(m.events, m.Peek(), m.last, n) == Empty
      {}
    }
  }

  predicate OnlyFifo(events: set<nat>) { events != {} && forall e :: e in events ==> e in FIFO_TYPES }

  /** Only events of the FIFO are set; and either an addition to an empty FIFO has queued its entry but not yet set
      its event, which is not set already; or a clear has stored start but not yet entries, and the event of the
      entry that start now points to is not set. */
  predicate Hangs(s: State)
    requires s.m.start < |s.m.fifo|
  {
    OnlyFifo(s.m.events) && s.m.entries > 0 &&
    match s.pc
    case Queued(e, _) => s.m.entries == 1 && e.eventType !in s.m.events
    case StartCleared => s.m.fifo[s.m.start].eventType !in s.m.events
    case EndCleared => s.m.fifo[s.m.start].eventType !in s.m.events
    case _ => false
  }

  /** At every position of an addition or a clear, a host command that finds an event set never ends exactly then. */
  lemma HangsExactly(s: State)
    requires Inv(s) && s.m.events != {}
    ensures NeverEnds(s.m) <==> Hangs(s)
  {
    hide Slot, NeverEnds;
    var m := s.m;
    NeverEndsIs(m);
    SlotLaws(m.start, 0);
    if OnlyFifo(m.events) {
      assert forall e :: e in m.events && Answers(m.Peek(), e) ==> m.Peek() in {Empty, Type(e)};
      if m.entries > 0 && m.HeadIsSet() { assert Answers(m.Peek(), m.fifo[m.start].eventType); }
      if m.entries == 0 { var e :| e in m.events; assert Answers(m.Peek(), e); }
    } else {
      var e :| e in m.events && e !in FIFO_TYPES;
      assert Answers(m.Peek(), e);
    }
  }

  /** The memory once e is queued, and once its event is set. */
  function QueuedMemory(m: Memory, e: Entry): Memory
    requires m.end < |m.fifo|
  {
    m.(fifo := m.fifo[m.end := e], end := Slot(m.end + 1), entries := m.entries + 1)
  }

  function SentMemory(m: Memory, e: Entry): Memory
    requires m.end < |m.fifo|
  {
    QueuedMemory(m, e).(events := m.events + {e.eventType})
  }

  function ClearedMemory(m: Memory): Memory { m.(fifo := Zeroed(), start := 0, end := 0, entries := 0) }

  /** What a whole addition does. */
  function AddedMemory(m: Memory, e: Entry, wakes: bool): Memory
    requires m.end < |m.fifo|
  {
    if wakes || m.entries > 0 then SentMemory(m, e) else ClearedMemory(SentMemory(m, e))
  }

  /** Seen from the start of an addition that nothing interrupts: which of its positions is one in which a host
      command never ends. */
  lemma HangsInAddition(m: Memory, e: Entry, wakes: bool)
    requires m.Good() && e.Valid() && m.entries < FIFO_DEPTH
    ensures Hangs(State(QueuedMemory(m, e), Queued(e, wakes))) <==>
      m.entries == 0 && OnlyFifo(m.events) && e.eventType !in m.events
    ensures m.entries == 0 ==>
      (Hangs(State(SentMemory(m, e).(start := 0), StartCleared)) <==>
        && m.end != 0 && OnlyFifo(m.events + {e.eventType})
        && m.fifo[0].eventType !in m.events + {e.eventType})
  {
    hide Slot;
  }

  // ---- Runs ----

  ghost predicate IsPath(states: seq<State>, actions: seq<Action>) {
    && |states| == |actions| + 1
    && (forall k :: 0 <= k < |states| ==> Bounded(states[k]))
    && forall k :: 0 <= k < |actions| ==>
         Enabled(states[k], actions[k]) && states[k + 1] == Apply(states[k], actions[k])
  }

  ghost predicate IsRun(states: seq<State>, actions: seq<Action>) {
    IsPath(states, actions) && states[0] == Init()
  }

  /** The invariant holds in every run, up to a clear in which a host command takes entries. */
  lemma {:induction false} RunInv(states: seq<State>, actions: seq<Action>, k: nat)
    requires IsRun(states, actions) && k < |states|
    requires forall j :: 0 <= j < k ==> !Tears(states[j], actions[j])
    ensures Inv(states[k])
  {
    hide Inv, Enabled, Apply, Init, Tears, Bounded;
    if k == 0 {
      InitInv();
    } else {
      RunInv(states, actions, k - 1);
      NextInv(states[k - 1], actions[k - 1]);
    }
  }

  /** Over every such run, at every point. */
  lemma HangsInRun(states: seq<State>, actions: seq<Action>, k: nat)
    requires IsRun(states, actions) && k < |states| && states[k].m.events != {}
    requires forall j :: 0 <= j < k ==> !Tears(states[j], actions[j])
    ensures NeverEnds(states[k].m) <==> Hangs(states[k])
  {
    hide Inv, Tears, NeverEnds, Hangs;
    RunInv(states, actions, k);
    HangsExactly(states[k]);
  }

  /** The entry that an action queues, and the one that it takes. */
  function QueuedBy(s: State, a: Action): seq<Entry> {
    if a.Step? && s.pc.Moved? then [s.pc.e] else []
  }

  function TakenBy(s: State, a: Action): seq<Entry>
    requires s.m.start < |s.m.fifo|
  {
    if a.Get? && Takes(s.m, a.served) then [s.m.fifo[s.m.start]] else []
  }

  ghost function QueuedIn(states: seq<State>, actions: seq<Action>, i: nat, n: nat): seq<Entry>
    requires IsRun(states, actions) && i <= n < |states|
  {
    if i == n then [] else QueuedIn(states, actions, i, n - 1) + QueuedBy(states[n - 1], actions[n - 1])
  }

  ghost function TakenIn(states: seq<State>, actions: seq<Action>, i: nat, n: nat): seq<Entry>
    requires IsRun(states, actions) && i <= n < |states|
  {
    if i == n then [] else TakenIn(states, actions, i, n - 1) + TakenBy(states[n - 1], actions[n - 1])
  }

  predicate InClear(pc: Pc) { pc.Clearing? || pc.StartCleared? || pc.EndCleared? }

  lemma NextContents(s: State, a: Action)
    requires Inv(s) && Enabled(s, a) && !Tears(s, a) && !InClear(s.pc)
    ensures Inv(Apply(s, a))
    ensures s.m.Contents() + QueuedBy(s, a) == TakenBy(s, a) + Apply(s, a).m.Contents()
  {
    NextInv(s, a);
    hide Inv, InTurn, Memory.Contents;
    match a
    case Begin(e, w) => BeginInv(s, e, w);
    case Step => StoreContents(s);
    case Get(x) => GetInv(s, x);
    case Clear => SameContents(s.m, Apply(s, a).m);
    case Send(x) => SameContents(s.m, Apply(s, a).m);
  }

  lemma SameContents(m: Memory, m': Memory)
    requires m.Shape() && m'.Shape() && m'.fifo == m.fifo && m'.start == m.start && m'.entries == m.entries
    ensures m'.Contents() == m.Contents()
  {}

  /** Between clears, host commands take the entries in the order in which additions queued them, none lost and
      none twice, however the commands fall between the stores. */
  lemma {:induction false} TakenInOrder(states: seq<State>, actions: seq<Action>, i: nat, n: nat)
    requires IsRun(states, actions) && i <= n < |states|
    requires forall j :: 0 <= j < n ==> !Tears(states[j], actions[j])
    requires forall j :: i <= j < n ==> !InClear(states[j].pc)
    ensures states[i].m.Contents() + QueuedIn(states, actions, i, n)
         == TakenIn(states, actions, i, n) + states[n].m.Contents()
  {
    hide Inv, Enabled, Apply, Init, Tears, Memory.Contents, QueuedBy, TakenBy;
    if i < n {
      TakenInOrder(states, actions, i, n - 1);
      RunInv(states, actions, n - 1);
      NextContents(states[n - 1], actions[n - 1]);
      MoveOn(states[i].m.Contents(), QueuedIn(states, actions, i, n - 1), TakenIn(states, actions, i, n - 1),
             states[n - 1].m.Contents(), QueuedBy(states[n - 1], actions[n - 1]),
             TakenBy(states[n - 1], actions[n - 1]), states[n].m.Contents());
    }
  }

  lemma MoveOn(first: seq<Entry>, queued: seq<Entry>, taken: seq<Entry>, c: seq<Entry>, q: seq<Entry>, t: seq<Entry>,
               c': seq<Entry>)
    requires first + queued == taken + c && c + q == t + c'
    ensures first + (queued + q) == (taken + t) + c'
  {
    assert first + (queued + q) == (first + queued) + q;
    assert (taken + c) + q == taken + (c + q);
    assert taken + (t + c') == (taken + t) + c';
  }

  // ---- What a list of actions leads to ----

  ghost predicate Leads(s: State, actions: seq<Action>, s': State)
    decreases |actions|
  {
    && Bounded(s)
    && if actions == [] then s' == s
       else Enabled(s, actions[0]) && Leads(Apply(s, actions[0]), actions[1..], s')
  }

  /** It is the last state of a path. */
  lemma {:induction false} LeadsIsPath(s: State, actions: seq<Action>, s': State) returns (states: seq<State>)
    requires Leads(s, actions, s')
    ensures IsPath(states, actions) && states[0] == s && states[|actions|] == s'
    decreases |actions|
  {
    hide Bounded, Enabled, Apply;
    if actions == [] {
      states := [s];
    } else {
      var rest := LeadsIsPath(Apply(s, actions[0]), actions[1..], s');
      states := [s] + rest;
      forall k | 0 <= k < |actions|
        ensures Enabled(states[k], actions[k]) && states[k + 1] == Apply(states[k], actions[k])
      {
        if k > 0 { assert rest[k] == Apply(rest[k - 1], actions[1..][k - 1]); }
      }
    }
  }

  lemma {:induction false} LeadsOn(s: State, a: seq<Action>, s': State, b: seq<Action>, t: State)
    requires Leads(s, a, s') && Leads(s', b, t)
    ensures Leads(s, a + b, t)
    decreases |a|
  {
    hide Bounded, Enabled, Apply;
    if a == [] {
      assert a + b == b;
    } else {
      assert (a + b)[1..] == a[1..] + b;
      LeadsOn(Apply(s, a[0]), a[1..], s', b, t);
    }
  }

  lemma Then(s: State, actions: seq<Action>, s': State, a: Action)
    requires Leads(s, actions, s') && Bounded(s') && Enabled(s', a)
    ensures Leads(s, actions + [a], Apply(s', a)) && Bounded(Apply(s', a))
  {
    hide Bounded, Enabled, Apply;
    NextBounded(s', a);
    LeadsOn(s, actions, s', [a], Apply(s', a));
  }

  /** n stores of an addition or a clear. */
  function Stores(n: nat): seq<Action> { if n == 0 then [] else Stores(n - 1) + [Step] }

  lemma {:induction false} StoresAdd(m: nat, n: nat)
    ensures Stores(m) + Stores(n) == Stores(m + n)
  {
    if n > 0 {
      StoresAdd(m, n - 1);
      assert Stores(m) + (Stores(n - 1) + [Step]) == (Stores(m) + Stores(n - 1)) + [Step];
    } else {
      assert Stores(m) + Stores(0) == Stores(m);
    }
  }

  lemma StoresThen(s: State, actions: seq<Action>, n: nat, s': State)
    requires Leads(s, actions + Stores(n), s') && Bounded(s') && !s'.pc.Idle?
    ensures Leads(s, actions + Stores(n + 1), NextStore(s')) && Bounded(NextStore(s'))
  {
    hide Bounded, Leads;
    Then(s, actions + Stores(n), s', Step);
    assert (actions + Stores(n)) + [Step] == actions + Stores(n + 1);
  }

  /** An addition, up to the store that queues its entry. */
  lemma Queues(s: State, e: Entry, w: bool)
    requires Bounded(s) && s.pc == Idle && s.m.entries < FIFO_DEPTH && e.Valid()
    ensures Leads(s, [Begin(e, w)] + Stores(3), State(QueuedMemory(s.m, e), Queued(e, w)))
    ensures Bounded(State(QueuedMemory(s.m, e), Queued(e, w)))
  {
    hide Leads, Slot, Stores;
    Nothing(s, Begin(e, w));
    Then(s, [], s, Begin(e, w));
    var s1 := Apply(s, Begin(e, w));
    StoresThen(s, [Begin(e, w)], 0, s1);
    StoresThen(s, [Begin(e, w)], 1, NextStore(s1));
    StoresThen(s, [Begin(e, w)], 2, NextStore(NextStore(s1)));
    assert s1.m.fifo[s.m.end := e] == s.m.fifo[s.m.end := e];
  }

  lemma Nothing(s: State, a: Action)
    requires Bounded(s)
    ensures Leads(s, [], s) && Leads(s, [] + Stores(0), s) && [] + [a] == [a] + Stores(0)
  {
    assert [] + Stores(0) == [];
    assert [a] + Stores(0) == [a];
  }

  /** The last stores of a clear. */
  lemma Zeroes(s: State)
    requires Bounded(s) && s.pc == Zeroing(0)
    ensures Leads(s, [] + Stores(FIFO_DEPTH), State(s.m.(fifo := Zeroed()), Idle))
  {
    hide Leads, Stores;
    Nothing(s, Step);
    var t := s;
    for i := 0 to FIFO_DEPTH - 1
      invariant Leads(s, [] + Stores(i), t) && Bounded(t) && t == State(s.m.(fifo := t.m.fifo), Zeroing(i))
      invariant |t.m.fifo| == FIFO_DEPTH && forall k :: 0 <= k < i ==> t.m.fifo[k] == ZERO
    {
      StoresThen(s, [], i, t);
      t := NextStore(t);
    }
    StoresThen(s, [], FIFO_DEPTH - 1, t);
    assert NextStore(t).m.fifo == Zeroed();
  }

  /** A clear that nothing interrupts. */
  lemma Clears(s: State)
    requires Bounded(s) && s.pc.Clearing?
    ensures Leads(s, Stores(FIFO_DEPTH + 3), State(ClearedMemory(s.m), Idle))
  {
    hide Leads, Stores;
    Nothing(s, Step);
    StoresThen(s, [], 0, s);
    StoresThen(s, [], 1, NextStore(s));
    StoresThen(s, [], 2, NextStore(NextStore(s)));
    var t := NextStore(NextStore(NextStore(s)));
    Zeroes(t);
    LeadsOn(s, [] + Stores(3), t, [] + Stores(FIFO_DEPTH), State(ClearedMemory(s.m), Idle));
    StoresAdd(3, FIFO_DEPTH);
    assert ([] + Stores(3)) + ([] + Stores(FIFO_DEPTH)) == Stores(3) + Stores(FIFO_DEPTH);
  }

  /** An addition that nothing interrupts. */
  lemma Adds(s: State, e: Entry, w: bool)
    requires Bounded(s) && s.pc == Idle && s.m.entries < FIFO_DEPTH && e.Valid()
    ensures var stores := if w || s.m.entries > 0 then 5 else FIFO_DEPTH + 8;
      Leads(s, [Begin(e, w)] + Stores(stores), State(AddedMemory(s.m, e, w), Idle))
    ensures Bounded(State(AddedMemory(s.m, e, w), Idle))
  {
    hide Leads, Stores;
    var begin := [Begin(e, w)];
    var t := State(QueuedMemory(s.m, e), Queued(e, w));
    Queues(s, e, w);
    StoresThen(s, begin, 3, t);
    var t' := NextStore(t);
    assert t' == State(SentMemory(s.m, e), Sent(e, w));
    StoresThen(s, begin, 4, t');
    var u := NextStore(t');
    if u.pc.Clearing? {
      Clears(u);
      LeadsOn(s, begin + Stores(5), u, Stores(FIFO_DEPTH + 3), State(ClearedMemory(u.m), Idle));
      StoresAdd(5, FIFO_DEPTH + 3);
      assert (begin + Stores(5)) + Stores(FIFO_DEPTH + 3) == begin + (Stores(5) + Stores(FIFO_DEPTH + 3));
    }
  }

  // ---- Runs in which a host command goes wrong ----

  const KEY: Entry := Entry(KEY_MATRIX, [1, 0, 0, 0, 0, 0, 0, 0, 0, 0, 0, 0, 0])
  const BUTTON: Entry := Entry(3, [1, 0, 0, 0])

  /** Some run ends in s. */
  ghost predicate Reached(s: State) { exists actions :: Leads(Init(), actions, s) }

  lemma ReachedOn(s: State, b: seq<Action>, t: State)
    requires Reached(s) && Leads(s, b, t)
    ensures Reached(t)
  {
    hide Leads;
    var a :| Leads(Init(), a, s);
    LeadsOn(Init(), a, s, b, t);
  }

  lemma ReachedThen(s: State, a: Action)
    requires Reached(s) && Bounded(s) && Enabled(s, a)
    ensures Reached(Apply(s, a)) && Bounded(Apply(s, a))
  {
    hide Bounded, Leads, Enabled, Apply;
    var actions :| Leads(Init(), actions, s);
    Then(Init(), actions, s, a);
  }

  lemma StartIsReached()
    ensures Reached(Init()) && Bounded(Init())
  {
    assert Leads(Init(), [], Init());
  }

  lemma StuckNeverEnds(m: Memory)
    requires m.Shape() && OnlyFifo(m.events) && m.entries > 0 && m.fifo[m.start].eventType !in m.events
    ensures NeverEnds(m)
  {
    hide NeverEnds;
    NeverEndsIs(m);
  }

  function DroppedButton(): State {
    State(Memory({3}, 0, Zeroed()[0 := BUTTON], 0, 1, 1), StartCleared)
  }

  /** A button that does not wake the host is queued in slot 0, and its clear has stored start. */
  lemma ButtonIsDropped()
    ensures Reached(DroppedButton()) && Bounded(DroppedButton())
  {
    hide Leads, Reached, Stores;
    StartIsReached();
    Queues(Init(), BUTTON, false);
    var s := State(QueuedMemory(Init().m, BUTTON), Queued(BUTTON, false));
    ReachedOn(Init(), [Begin(BUTTON, false)] + Stores(3), s);
    ReachedThen(s, Step);
    ReachedThen(NextStore(s), Step);
    ReachedThen(NextStore(NextStore(s)), Step);
    assert NextStore(NextStore(NextStore(s))) == DroppedButton();
  }

  /** A button that does not wake the host leaves its event set. A key matrix is queued after it, and before its
      event is set a host command never ends. */
  lemma HangsWhenQueued()
    ensures exists s :: Reached(s) && Bounded(s) && s.pc == Queued(KEY, true) && s.m.events == {3} && NeverEnds(s.m)
  {
    hide Leads, Reached, Stores, NeverEnds;
    StartIsReached();
    Adds(Init(), BUTTON, false);
    var t := State(AddedMemory(Init().m, BUTTON, false), Idle);
    ReachedOn(Init(), [Begin(BUTTON, false)] + Stores(FIFO_DEPTH + 8), t);
    Queues(t, KEY, true);
    var s := State(QueuedMemory(t.m, KEY), Queued(KEY, true));
    ReachedOn(t, [Begin(KEY, true)] + Stores(3), s);
    StuckNeverEnds(s.m);
  }

  /** A key matrix has been delivered from slot 0. */
  function DeliveredKey(): State {
    State(Memory({}, 1, Zeroed()[0 := KEY], 1, 1, 0), Idle)
  }

  lemma KeyIsDelivered()
    ensures Reached(DeliveredKey()) && Bounded(DeliveredKey())
  {
    hide Leads, Reached, Stores;
    StartIsReached();
    Adds(Init(), KEY, true);
    var s := State(AddedMemory(Init().m, KEY, true), Idle);
    ReachedOn(Init(), [Begin(KEY, true)] + Stores(5), s);
    ReachedThen(s, Get(0));
    assert Apply(s, Get(0)) == DeliveredKey();
  }

  /** Then a button that does not wake the host is queued in slot 1. Once its clear has stored start, a host
      command never ends. */
  lemma HangsInClear()
    ensures exists s :: Reached(s) && Bounded(s) && s.pc == StartCleared && s.m.events == {3} && NeverEnds(s.m)
  {
    hide Leads, Reached, Stores, NeverEnds;
    KeyIsDelivered();
    var t := DeliveredKey();
    Queues(t, BUTTON, false);
    var s := State(QueuedMemory(t.m, BUTTON), Queued(BUTTON, false));
    ReachedOn(t, [Begin(BUTTON, false)] + Stores(3), s);
    ReachedThen(s, Step);
    s := NextStore(s);
    ReachedThen(s, Step);
    s := NextStore(s);
    ReachedThen(s, Step);
    s := NextStore(s);
    StuckNeverEnds(s.m);
  }

  /** No entry, but start and end differ. */
  function TornFifo(): State { State(Memory({}, 4, Zeroed(), 1, 0, 0), Idle) }

  /** A host command takes the button out of the clear. */
  lemma FifoIsTorn()
    ensures Reached(TornFifo()) && Bounded(TornFifo())
  {
    hide Leads, Reached, Stores;
    ButtonIsDropped();
    var s := DroppedButton();
    ReachedThen(s, Get(3));
    s := Apply(s, Get(3));
    ReachedThen(s, Step);
    s := NextStore(s);
    ReachedThen(s, Step);
    s := NextStore(s);
    assert s.m.events == {};
    Zeroes(s);
    ReachedOn(s, [] + Stores(FIFO_DEPTH), TornFifo());
  }

  /** After that the next entry is a key matrix, the only one queued, and the host gets another one. */
  lemma DeliversAnother()
    ensures var s := State(AddedMemory(TornFifo().m, KEY, true), Idle);
      Reached(s) && Bounded(s) && s.m.entries == 1 && Enabled(s, Get(0)) && TakenBy(s, Get(0)) == [ZERO] && KEY != ZERO
  {
    hide Leads, Reached, Stores;
    FifoIsTorn();
    Adds(TornFifo(), KEY, true);
    var s := State(AddedMemory(TornFifo().m, KEY, true), Idle);
    ReachedOn(TornFifo(), [Begin(KEY, true)] + Stores(5), s);
    assert KEY.data[0] != ZERO.data[0];
  }

  /** Or none at all: a button is queued instead, its event is set, and no addition or clear is under way, but the
      host command never ends. */
  lemma HangsWhenTorn()
    ensures exists s :: Reached(s) && Bounded(s) && s.pc == Idle && s.m.events == {3} && NeverEnds(s.m)
  {
    hide Leads, Reached, Stores, NeverEnds;
    FifoIsTorn();
    Adds(TornFifo(), BUTTON, true);
    var s := State(AddedMemory(TornFifo().m, BUTTON, true), Idle);
    ReachedOn(TornFifo(), [Begin(BUTTON, true)] + Stores(5), s);
    StuckNeverEnds(s.m);
  }
}
