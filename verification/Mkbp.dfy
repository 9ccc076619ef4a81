/** The event FIFO of fw/common/keyboard_mkbp.c and its delivery to the host by fw/common/mkbp_event.c. */
module Mkbp {
  import opened MachineInts
  import opened MkbpEvents
  import opened MkbpSteps

  datatype Status = Success | Overflow

  datatype Response = Unavailable | Error | Event(eventType: nat, data: seq<uint8>)

  /** What a source outside the FIFO answers. */
  datatype Answer = NoSource | Failed | Data(data: seq<uint8>)

  lemma SlotIs(k: nat)
    ensures Slot(k) == k % FIFO_DEPTH
  {}

  /** The event of the first of these entries is sent so that it raises the interrupt line. */
  predicate Tells(queue: seq<Entry>, hostAsleep: bool, wakeEvent: bool) {
    queue != [] && (!hostAsleep || wakeEvent || queue[0].eventType == KEY_MATRIX)
  }

  /** The entries whose first one is announced when event e is served: those left if e took one. */
  function Left(e: nat, before: seq<Entry>, after: seq<Entry>): seq<Entry> {
    if e in FIFO_TYPES && before != [] then after else []
  }

  /** The line after an answer to an event: it falls exactly if the answer is an event and no other is left. */
  predicate LineAfter(r: Response, events: set<nat>, before: bool, left: seq<Entry>, hostAsleep: bool,
                      wakeEvent: bool) {
    (before || Tells(left, hostAsleep, wakeEvent)) && !(r.Event? && events == {})
  }

  function HeadOf(contents: seq<Entry>): Head {
    if contents == [] then Empty else Type(contents[0].eventType)
  }

  /** The slots from start on hold the contents. */
  ghost predicate Holds(fifo: seq<Entry>, start: nat, contents: seq<Entry>)
    requires |fifo| == FIFO_DEPTH
  {
    forall k :: 0 <= k < |contents| ==> contents[k].Valid() && fifo[Slot(start + k)] == contents[k]
  }

  lemma HoldsHead(fifo: seq<Entry>, start: nat, contents: seq<Entry>)
    requires |fifo| == FIFO_DEPTH && start < FIFO_DEPTH && Holds(fifo, start, contents) && contents != []
    ensures fifo[start] == contents[0] && contents[0].Valid()
  {
    assert fifo[Slot(start + 0)] == contents[0];
  }

  lemma HoldsTail(fifo: seq<Entry>, start: nat, contents: seq<Entry>)
    requires |fifo| == FIFO_DEPTH && start < FIFO_DEPTH && Holds(fifo, start, contents) && contents != []
    ensures Holds(fifo, Slot(start + 1), contents[1..])
    ensures Slot(Slot(start + 1) + (|contents| - 1)) == Slot(start + |contents|)
  {
    hide Slot;
    SlotLaws(start, |contents| - 1);
    var rest := contents[1..];
    forall k | 0 <= k < |rest|
      ensures rest[k].Valid() && fifo[Slot(Slot(start + 1) + k)] == rest[k]
    {
      SlotLaws(start, k);
      assert rest[k] == contents[k + 1];
    }
  }

  lemma HoldsMore(fifo: seq<Entry>, start: nat, contents: seq<Entry>, e: Entry)
    requires |fifo| == FIFO_DEPTH && start < FIFO_DEPTH && Holds(fifo, start, contents)
    requires |contents| < FIFO_DEPTH && e.Valid()
    ensures Holds(fifo[Slot(start + |contents|) := e], start, contents + [e])
    ensures Slot(Slot(start + |contents|) + 1) == Slot(start + (|contents| + 1))
  {
    hide Slot;
    SlotLaws(start, |contents|);
    var fifo', contents' := fifo[Slot(start + |contents|) := e], contents + [e];
    forall k | 0 <= k < |contents'|
      ensures contents'[k].Valid() && fifo'[Slot(start + k)] == contents'[k]
    {
      if k < |contents| {
        SlotsApart(start, k, |contents|);
        assert contents'[k] == contents[k];
      }
    }
  }

  class Mkbp {
    var events: set<nat>
    var last: nat
    var interrupt: bool
    const fifo: array<Entry>
    var fifoStart: nat
    var fifoEnd: nat
    var fifoEntries: nat
    var enabled: bool
    var fifoMaxDepth: nat

    /** The entries in the FIFO, and since it was last cleared the ones added and the ones delivered. */
    ghost var contents: seq<Entry>
    ghost var added: seq<Entry>
    ghost var delivered: seq<Entry>

    ghost predicate Fifo()
      reads `fifoStart, `fifoEnd, `fifoEntries, `fifoMaxDepth, `contents, `added, `delivered, fifo
    {
      && fifo.Length == FIFO_DEPTH && fifoStart < FIFO_DEPTH && fifoEnd < FIFO_DEPTH
      && fifoMaxDepth <= FIFO_DEPTH && fifoEntries == |contents| <= FIFO_DEPTH
      && fifoEnd == Slot(fifoStart + fifoEntries)
      && Holds(fifo[..], fifoStart, contents)
      && (forall i :: 0 <= i < FIFO_DEPTH ==> fifo[i].eventType in FIFO_TYPES)
      && added == delivered + contents
    }

    /** A nonempty FIFO has the event bit of its head set. */
    ghost predicate Valid()
      reads this, fifo
    {
      && Fifo() && last <= EVENT_COUNT && EventSet(events)
      && (contents != [] ==> contents[0].eventType in events)
    }

    /** The memory that additions, clears and host commands share. */
    ghost function Mem(): Memory
      reads `events, `last, `fifoStart, `fifoEnd, `fifoEntries, fifo
    {
      Memory(events, last, fifo[..], fifoStart, fifoEnd, fifoEntries)
    }

    constructor ()
      ensures Valid() && contents == [] && events == {} && added == [] && fresh(fifo)
      ensures enabled && fifoMaxDepth == FIFO_DEPTH && last == 0
    {
      fifo := new Entry[FIFO_DEPTH](_ => ZERO);
      events, last, interrupt := {}, 0, false;
      fifoStart, fifoEnd, fifoEntries := 0, 0, 0;
      enabled, fifoMaxDepth := true, FIFO_DEPTH;
      contents, added, delivered := [], [], [];
    }

    /** Between calls the memory is one that an addition or a clear can start from. */
    lemma GoodMemory()
      requires Valid()
      ensures Mem().Good()
    {}

    /** mkbp_send_event. While the host sleeps, only a key matrix or a host event of the wake mask wakes it. */
    method SendEvent(e: nat, hostAsleep: bool, wakeEvent: bool) returns (sent: bool)
      modifies `events, `interrupt
      ensures events == old(events) + {e} && (sent <==> !hostAsleep || wakeEvent || e == KEY_MATRIX)
      ensures interrupt == (sent || old(interrupt))
    {
      events := events + {e};
      if hostAsleep && !wakeEvent && e != KEY_MATRIX {
        return false;
      }
      interrupt := true;
      sent := true;
    }

    /** mkbp_clear_fifo */
    method ClearFifo()
      requires Valid()
      modifies this, fifo
      ensures Valid() && contents == [] && added == [] && delivered == []
      ensures unchanged(`events, `last, `interrupt, `enabled, `fifoMaxDepth) && Mem() == ClearedMemory(old(Mem()))
    {
      fifoStart, fifoEnd, fifoEntries := 0, 0, 0;
      for i := 0 to FIFO_DEPTH
        invariant fifoStart == 0 && fifoEnd == 0 && fifoEntries == 0
        invariant forall k :: 0 <= k < i ==> fifo[k] == ZERO
        invariant unchanged(`events, `last, `interrupt, `enabled, `fifoMaxDepth, `contents, `added, `delivered)
      {
        fifo[i] := ZERO;
      }
      contents, added, delivered := [], [], [];
    }

    /** mkbp_fifo_add: queues the entry, unless the FIFO is full, the protocol is off, or the host sleeps on
        and nothing else is queued. */
    method FifoAdd(e: Entry, hostAsleep: bool, wakeEvent: bool) returns (status: Status)
      requires Valid() && e.Valid()
      modifies this, fifo
      ensures Valid() && unchanged(`last, `enabled, `fifoMaxDepth)
      ensures !old(enabled) && e.eventType == KEY_MATRIX ==> status == Success && unchanged(this) && unchanged(fifo)
      ensures (old(enabled) || e.eventType != KEY_MATRIX) && |old(contents)| >= old(fifoMaxDepth) ==>
        status == Overflow && unchanged(this) && unchanged(fifo)
      ensures (old(enabled) || e.eventType != KEY_MATRIX) && |old(contents)| < old(fifoMaxDepth) ==>
        && status == Success && events == old(events) + {e.eventType}
        && var wakes := !hostAsleep || wakeEvent || e.eventType == KEY_MATRIX;
        && interrupt == (wakes || old(interrupt))
        && if wakes || old(contents) != [] then
             contents == old(contents) + [e] && added == old(added) + [e] && delivered == old(delivered)
           else
             contents == [] && added == [] && delivered == []
      ensures (old(enabled) || e.eventType != KEY_MATRIX) && |old(contents)| < old(fifoMaxDepth) ==>
        Mem() == AddedMemory(old(Mem()), e, !hostAsleep || wakeEvent || e.eventType == KEY_MATRIX)
    {
      if !enabled && e.eventType == KEY_MATRIX {
        return Success;
      }
      if fifoEntries >= fifoMaxDepth {
        return Overflow;
      }
      Push(e);
      var sent := SendEvent(e.eventType, hostAsleep, wakeEvent);
      if !sent && fifoEntries == 1 {
        ClearFifo();
      }
      status := Success;
    }

    lemma HeadIs()
      requires Fifo() && contents != []
      ensures fifo[fifoStart] == contents[0] && contents[0].Valid()
    {
      HoldsHead(fifo[..], fifoStart, contents);
    }

    method Push(e: Entry)
      requires Fifo() && e.Valid() && fifoEntries < FIFO_DEPTH
      modifies `fifoEnd, `fifoEntries, `contents, `added, fifo
      ensures Fifo() && contents == old(contents) + [e] && added == old(added) + [e]
      ensures Mem() == QueuedMemory(old(Mem()), e)
    {
      hide Slot, Holds;
      HoldsMore(fifo[..], fifoStart, contents, e);
      SlotIs(fifoEnd + 1);
      fifo[fifoEnd] := e;
      fifoEnd := (fifoEnd + 1) % FIFO_DEPTH;
      fifoEntries := fifoEntries + 1;
      contents, added := contents + [e], added + [e];
    }

    /** fifo_remove */
    method FifoRemove() returns (data: seq<uint8>)
      requires Fifo() && fifoEntries > 0
      modifies `fifoStart, `fifoEntries, `contents, `delivered
      ensures Fifo() && contents == old(contents)[1..] && delivered == old(delivered) + [old(contents)[0]]
      ensures data == old(contents)[0].data
      ensures fifoStart == Slot(old(fifoStart) + 1) && fifoEntries == old(fifoEntries) - 1
    {
      hide Slot, Holds;
      HeadIs();
      HoldsTail(fifo[..], fifoStart, contents);
      SlotIs(fifoStart + 1);
      data := fifo[fifoStart].data;
      fifoStart := (fifoStart + 1) % FIFO_DEPTH;
      fifoEntries := fifoEntries - 1;
      delivered := delivered + [contents[0]];
      contents := contents[1..];
    }

    /** get_next_event, the source of a FIFO type. */
    method GetData(e: nat, hostAsleep: bool, wakeEvent: bool) returns (busy: bool, data: seq<uint8>)
      requires Fifo() && e in FIFO_TYPES && last <= EVENT_COUNT && EventSet(events)
      requires contents != [] && contents[0].eventType != e ==> contents[0].eventType in events
      modifies `events, `interrupt, `fifoStart, `fifoEntries, `contents, `delivered
      ensures busy <==> old(contents) != [] && old(contents)[0].eventType != e
      ensures busy || old(contents) == [] ==>
        Fifo() && unchanged(`events, `interrupt, `contents, `delivered, `fifoStart, `fifoEntries) && data == []
      ensures !busy && old(contents) != [] ==>
        && Valid() && contents == old(contents)[1..] && delivered == old(delivered) + [old(contents)[0]]
        && data == old(contents)[0].data && |data| > 0
        && events == old(events) + (if contents == [] then {} else {contents[0].eventType})
        && Mem() == Taken(old(Mem()))
        && interrupt == (old(interrupt) || Tells(contents, hostAsleep, wakeEvent))
    {
      if fifoEntries == 0 {
        return false, [];
      }
      hide Slot, Holds;
      HeadIs();
      if fifo[fifoStart].eventType != e {
        return true, [];
      }
      data := FifoRemove();
      if fifoEntries > 0 {
        HeadIs();
        var sent := SendEvent(fifo[fifoStart].eventType, hostAsleep, wakeEvent);
      }
      busy := false;
    }

    /** The next event that is set, after last, or EVENT_COUNT. */
    method FindEvent() returns (i: nat)
      requires last <= EVENT_COUNT && EventSet(events)
      ensures i <= EVENT_COUNT && (i == EVENT_COUNT <==> events == {})
      ensures i < EVENT_COUNT ==>
        First(events, last, (last + i) % EVENT_COUNT) && Distance(last, (last + i) % EVENT_COUNT) == i
    {
      hide Distance;
      i := 0;
      while i < EVENT_COUNT && (last + i) % EVENT_COUNT !in events
        invariant i <= EVENT_COUNT
        invariant forall x :: x in events ==> i <= Distance(last, x)
      {
        NotFound(events, last, i);
        i := i + 1;
      }
      if i < EVENT_COUNT { DistanceAt(last, i); }
    }

    /** What serving event e does; the host gets r. */
    twostate predicate Serves(e: nat, source: nat -> Answer, r: Response)
      reads this
    {
      if e in FIFO_TYPES && old(contents) != [] then
        && r == Event(e, old(contents)[0].data)
        && contents == old(contents)[1..] && delivered == old(delivered) + [old(contents)[0]]
        && events == old(events) - {e} + (if contents == [] then {} else {contents[0].eventType})
      else
        && unchanged(`contents, `delivered) && events == old(events) - {e}
        && r == if e in FIFO_TYPES then Error
                else match source(e) case Data(d) => Event(e, d) case _ => Error
    }

    /** One round of mkbp_get_next_event, with event e. */
    method Round(e: nat, source: nat -> Answer, hostAsleep: bool, wakeEvent: bool) returns (busy: bool, r: Response)
      requires Valid() && e in events
      modifies `events, `last, `interrupt, `fifoStart, `fifoEntries, `contents, `delivered
      ensures Valid() && last == e + 1 && (busy <==> !Answers(HeadOf(old(contents)), e))
      ensures busy ==> unchanged(`events, `interrupt, `contents, `delivered, `fifoStart, `fifoEntries)
      ensures !busy ==> Serves(e, source, r)
      ensures !busy ==>
        interrupt == LineAfter(r, events, old(interrupt), Left(e, old(contents), contents), hostAsleep, wakeEvent)
      ensures !busy ==> Mem() == Serve(old(Mem()), e)
    {
      if contents != [] { HeadIs(); }
      hide Fifo;
      last := e + 1;
      events := events - {e};
      if e !in FIFO_TYPES {
        match source(e) {
          case NoSource => return false, Error;
          case Failed => return false, Error;
          case Data(d) =>
            if events == {} { interrupt := false; }
            return false, Event(e, d);
        }
      }
      var data;
      busy, data := GetData(e, hostAsleep, wakeEvent);
      if busy {
        events := events + {e};
        assert events == old(events);
        return true, Error;
      }
      if |data| == 0 { return false, Error; }
      if events == {} { interrupt := false; }
      return false, Event(e, data);
    }

    /** mkbp_get_next_event. source answers for the types outside the FIFO, and served is the event that the
        host gets, or that its source fails to give. */
    method GetNextEvent(source: nat -> Answer, hostAsleep: bool, wakeEvent: bool)
      returns (r: Response, ghost served: nat)
      requires Valid()
      modifies `events, `last, `interrupt, `fifoStart, `fifoEntries, `contents, `delivered
      ensures Valid()
      ensures old(events) == {} ==>
        r == Unavailable && !interrupt && unchanged(`events, `last, `contents, `delivered)
      ensures old(events) != {} ==>
        && InTurn(old(events), HeadOf(old(contents)), old(last), served) && last == served + 1
        && Serves(served, source, r) && Mem() == Serve(old(Mem()), served)
      ensures old(events) != {} ==>
        interrupt == LineAfter(r, events, old(interrupt), Left(served, old(contents), contents), hostAsleep, wakeEvent)
      ensures old(interrupt) ==> (!interrupt <==> r.Unavailable? || (r.Event? && events == {}))
      ensures r.Unavailable? ==> events == {}
    {
      hide Fifo, Distance;
      ghost var head := HeadOf(contents);
      ghost var steps := 0;
      if contents != [] { ghost var d := Distance(last, contents[0].eventType); }
      while true
        invariant Valid() && unchanged(`events, `interrupt, `contents, `delivered)
        invariant unchanged(`fifoStart, `fifoEnd, `fifoEntries, fifo)
        invariant forall x :: x in events && Answers(head, x) ==> Distance(last, x) + steps == Distance(old(last), x)
        invariant last == old(last) || events != {}
        decreases EVENT_COUNT - steps
      {
        var i := FindEvent();
        if i == EVENT_COUNT {
          interrupt := false;
          return Unavailable, 0;
        }
        var e := (last + i) % EVENT_COUNT;
        NextRound(events, head, last, e);
        served := e;
        var busy;
        busy, r := Round(e, source, hostAsleep, wakeEvent);
        if !busy { return; }
        assert Answers(head, contents[0].eventType);
        steps := steps + i + 1;
      }
    }

    /** One piece of work: what it does to the FIFO is in l, and call is the command, if it finds an event set. */
    method Perform(w: Work, source: nat -> Answer)
        returns (responses: seq<Response>, ghost l: Log, ghost call: seq<Call>)
      requires Valid() && WorkOk(w)
      modifies this, fifo
      ensures Valid() && unchanged(`enabled, `fifoMaxDepth)
      ensures Logged(w, l, old(contents), enabled, fifoMaxDepth) && ReplyOk(l, old(contents))
      ensures contents == NextQueue(old(contents), l)
      ensures responses == if l.Reply? then [l.response] else []
      ensures CallOf(call, l, old(events), old(last), events, last)
      ensures LineOk(l, Line(old(interrupt), old(events)), Line(interrupt, events))
    {
      hide Fifo, InTurn;
      responses, call := [], [];
      match w {
        case Add(e, h) =>
          var status := FifoAdd(e, h.asleep, h.wakeEvent);
          l := Outcome(w, old(contents), enabled, fifoMaxDepth);
        case Flush =>
          ClearFifo();
          l := Emptied;
        case Send(e, h) =>
          var sent := SendEvent(e, h.asleep, h.wakeEvent);
          l := Kept;
        case Get(h) =>
          var r, served := GetNextEvent(source, h.asleep, h.wakeEvent);
          responses := [r];
          l := Reply(r);
          if old(events) != {} {
            InTurnAnswers(old(events), HeadOf(old(contents)), old(last), served);
            call := [Call(old(events), HeadOf(old(contents)), old(last), served)];
          }
      }
    }

    /** Any sequence of additions, clears, events of other sources, and host commands. Every host command gets a
        response, and calls are the ones that found an event set. The entries that the host got since the last
        clear, and after them those in the FIFO, are the ones that were accepted since then. */
    method Run(work: seq<Work>, source: nat -> Answer)
        returns (responses: seq<Response>, ghost log: seq<Log>, ghost calls: seq<Call>, ghost lines: seq<Line>)
      requires Valid() && forall k :: 0 <= k < |work| ==> WorkOk(work[k])
      modifies this, fifo
      ensures Valid() && Calls(calls) && unchanged(`enabled, `fifoMaxDepth)
      ensures LogOf(work, log, old(contents), enabled, fifoMaxDepth) && responses == Replies(log)
      ensures |calls| == Answered(responses)
      ensures contents == QueueAfter(old(contents), log)
      ensures GotSince(log) + contents == AddedSince(old(contents), log)
      ensures LinesOk(log, lines) && lines[0] == Line(old(interrupt), old(events))
      ensures lines[|work|] == Line(interrupt, events)
    {
      hide Valid, Recorded, Follows, CallOf, Logged, ReplyOk, NextQueue, QueueAfter, LineOk, LinesOk;
      NoLines(Line(interrupt, events));
      responses, log, calls, lines := [], [], [], [Line(interrupt, events)];
      RecordNothing(old(contents), enabled, fifoMaxDepth, events, last);
      for k := 0 to |work|
        invariant Valid() && unchanged(`enabled, `fifoMaxDepth)
        invariant Recorded(work[..k], log, responses, calls, old(contents), enabled, fifoMaxDepth)
        invariant Follows(calls, events, last) && contents == QueueAfter(old(contents), log)
        invariant |log| == k && |lines| == k + 1 && LinesOk(log, lines) && lines[k] == Line(interrupt, events)
        invariant lines[0] == Line(old(interrupt), old(events))
      {
        ghost var e, t := events, last;
        var rs, l, call := Perform(work[k], source);
        RecordOne(work[..k], log, responses, calls, old(contents), enabled, fifoMaxDepth, work[k], l, rs, call, e, t,
                  events, last);
        assert work[..k + 1] == work[..k] + [work[k]];
        OneMoreLine(log, lines, l, Line(interrupt, events));
        responses, log, calls, lines := responses + rs, log + [l], calls + call, lines + [Line(interrupt, events)];
      }
      assert work[..|work|] == work;
      RecordedMeans(work, log, responses, calls, old(contents), enabled, fifoMaxDepth);
    }
  }

  lemma DistanceAt(last: nat, i: nat)
    requires last <= EVENT_COUNT && i < EVENT_COUNT
    ensures Distance(last, (last + i) % EVENT_COUNT) == i
  {}

  lemma NotFound(events: set<nat>, last: nat, i: nat)
    requires last <= EVENT_COUNT && i < EVENT_COUNT && EventSet(events) && (last + i) % EVENT_COUNT !in events
    requires forall x :: x in events ==> i <= Distance(last, x)
    ensures forall x :: x in events ==> i + 1 <= Distance(last, x)
  {
    hide Distance;
    forall x | x in events
      ensures i + 1 <= Distance(last, x)
    {
      DistanceAt(last, i);
      if Distance(last, x) == i { DistanceInjective(last, x, (last + i) % EVENT_COUNT); }
    }
  }

  // ---- Runs ----

  /** What SendEvent asks of the host. */
  datatype Host = Host(asleep: bool, wakeEvent: bool)

  datatype Work = Add(entry: Entry, host: Host) | Flush | Send(event: nat, host: Host) | Get(host: Host)

  ghost predicate WorkOk(w: Work) {
    (w.Add? ==> w.entry.Valid()) && (w.Send? ==> w.event < EVENT_COUNT)
  }

  /** What a piece of work did to the FIFO. */
  datatype Log = Accepted(entry: Entry) | Emptied | Kept | Reply(response: Response)

  /** What becomes of an addition, by the entries that are queued. */
  function Outcome(w: Work, queue: seq<Entry>, enabled: bool, depth: nat): Log
    requires w.Add?
  {
    var wakes := !w.host.asleep || w.host.wakeEvent || w.entry.eventType == KEY_MATRIX;
    if (!enabled && w.entry.eventType == KEY_MATRIX) || |queue| >= depth then Kept
    else if wakes || queue != [] then Accepted(w.entry)
    else Emptied
  }

  predicate Logged(w: Work, l: Log, queue: seq<Entry>, enabled: bool, depth: nat) {
    match w
    case Add(_, _) => l == Outcome(w, queue, enabled, depth)
    case Flush => l == Emptied
    case Send(_, _) => l == Kept
    case Get(_) => l.Reply?
  }

  /** The interrupt line to the host, and the events that are set. */
  datatype Line = Line(raised: bool, events: set<nat>)

  /** Work lowers the line exactly if it is a command that finds no event, or that answers with the last one; so
      never while an event is set. */
  predicate LineOk(l: Log, before: Line, after: Line) {
    before.raised ==>
      && (!after.raised <==>
            l.Reply? && (l.response.Unavailable? || (l.response.Event? && after.events == {})))
      && (!after.raised ==> after.events == {})
  }

  predicate LinesOk(log: seq<Log>, lines: seq<Line>) {
    |lines| == |log| + 1 && forall k :: 0 <= k < |log| ==> LineOk(log[k], lines[k], lines[k + 1])
  }

  lemma NoLines(line: Line)
    ensures LinesOk([], [line])
  {}

  lemma OneMoreLine(log: seq<Log>, lines: seq<Line>, l: Log, line: Line)
    requires LinesOk(log, lines) && LineOk(l, lines[|log|], line)
    ensures LinesOk(log + [l], lines + [line]) && |lines| == |log| + 1
  {
    hide LineOk;
  }

  /** Once raised, the line stays raised as long as events are set. */
  lemma {:induction false} LineStays(log: seq<Log>, lines: seq<Line>, i: nat, k: nat)
    requires LinesOk(log, lines) && i <= k < |lines| && lines[i].raised
    requires forall j :: i < j <= k ==> lines[j].events != {}
    ensures lines[k].raised
    decreases k - i
  {
    if i < k {
      assert LineOk(log[i], lines[i], lines[i + 1]);
      LineStays(log, lines, i + 1, k);
    }
  }

  /** The response has the data of a FIFO entry. */
  predicate FromFifo(l: Log) {
    l.Reply? && l.response.Event? && l.response.eventType in FIFO_TYPES
  }

  /** Such a response is the first entry of the queue. */
  predicate ReplyOk(l: Log, queue: seq<Entry>) {
    FromFifo(l) ==> queue != [] && l.response == Event(queue[0].eventType, queue[0].data)
  }

  function NextQueue(queue: seq<Entry>, l: Log): seq<Entry> {
    match l
    case Accepted(e) => queue + [e]
    case Emptied => []
    case Kept => queue
    case Reply(_) => if FromFifo(l) && queue != [] then queue[1..] else queue
  }

  function QueueAfter(first: seq<Entry>, log: seq<Log>): seq<Entry> {
    if log == [] then first else NextQueue(QueueAfter(first, log[..|log| - 1]), log[|log| - 1])
  }

  /** The log of the work, from a FIFO that holds first. */
  predicate LogOf(work: seq<Work>, log: seq<Log>, first: seq<Entry>, enabled: bool, depth: nat) {
    && |work| == |log|
    && (log != [] ==>
          var n := |log| - 1;
          var queue := QueueAfter(first, log[..n]);
          && LogOf(work[..n], log[..n], first, enabled, depth)
          && Logged(work[n], log[n], queue, enabled, depth) && ReplyOk(log[n], queue))
  }

  /** The entries accepted, and those that the host got, since the last clear. */
  function AddedSince(first: seq<Entry>, log: seq<Log>): seq<Entry> {
    if log == [] then first
    else
      var before := AddedSince(first, log[..|log| - 1]);
      match log[|log| - 1]
      case Accepted(e) => before + [e]
      case Emptied => []
      case _ => before
  }

  function GotSince(log: seq<Log>): seq<Entry> {
    if log == [] then []
    else
      var l, before := log[|log| - 1], GotSince(log[..|log| - 1]);
      if FromFifo(l) then before + [Entry(l.response.eventType, l.response.data)]
      else if l.Emptied? then []
      else before
  }

  function Replies(log: seq<Log>): seq<Response> {
    if log == [] then []
    else Replies(log[..|log| - 1]) + if log[|log| - 1].Reply? then [log[|log| - 1].response] else []
  }

  function Answered(responses: seq<Response>): nat {
    if responses == [] then 0
    else Answered(responses[..|responses| - 1]) + if responses[|responses| - 1].Unavailable? then 0 else 1
  }

  /** call is the command that l replies to, if it finds an event set. */
  ghost predicate CallOf(call: seq<Call>, l: Log, events: set<nat>, last: nat, events': set<nat>, last': nat) {
    if call == [] then events <= events' && last' == last && (l.Reply? ==> l.response.Unavailable?)
    else
      && |call| == 1 && CallOk(call[0]) && call[0].events == events && call[0].last == last
      && last' == call[0].served + 1 && call[0].events - {call[0].served} <= events'
      && l.Reply? && !l.response.Unavailable?
  }

  ghost predicate Recorded(work: seq<Work>, log: seq<Log>, responses: seq<Response>, calls: seq<Call>,
                           first: seq<Entry>, enabled: bool, depth: nat) {
    && LogOf(work, log, first, enabled, depth) && responses == Replies(log)
    && |calls| == Answered(responses) && Calls(calls)
  }

  lemma RecordNothing(first: seq<Entry>, enabled: bool, depth: nat, events: set<nat>, last: nat)
    ensures Recorded([], [], [], [], first, enabled, depth)
    ensures Follows([], events, last) && QueueAfter(first, []) == first
  {}

  lemma RecordOne(work: seq<Work>, log: seq<Log>, responses: seq<Response>, calls: seq<Call>, first: seq<Entry>,
                  enabled: bool, depth: nat, w: Work, l: Log, rs: seq<Response>, call: seq<Call>, events: set<nat>,
                  last: nat, events': set<nat>, last': nat)
    requires Recorded(work, log, responses, calls, first, enabled, depth) && Follows(calls, events, last)
    requires Logged(w, l, QueueAfter(first, log), enabled, depth) && ReplyOk(l, QueueAfter(first, log))
    requires rs == (if l.Reply? then [l.response] else []) && CallOf(call, l, events, last, events', last')
    ensures Recorded(work + [w], log + [l], responses + rs, calls + call, first, enabled, depth)
    ensures Follows(calls + call, events', last')
    ensures QueueAfter(first, log + [l]) == NextQueue(QueueAfter(first, log), l)
  {
    hide LogOf, Replies, QueueAfter, Logged, ReplyOk, NextQueue, Calls, Follows, CallOf;
    OneMoreLog(work, log, first, enabled, depth, w, l);
    OneMoreReply(responses, rs);
    CallsGoOn(calls, call, l, events, last, events', last');
  }

  lemma CallsGoOn(calls: seq<Call>, call: seq<Call>, l: Log, events: set<nat>, last: nat, events': set<nat>, last': nat)
    requires Calls(calls) && Follows(calls, events, last) && CallOf(call, l, events, last, events', last')
    ensures Calls(calls + call) && Follows(calls + call, events', last')
    ensures |call| == if !l.Reply? || l.response.Unavailable? then 0 else 1
  {
    hide Calls, CallOk;
    if call == [] {
      assert calls + call == calls;
    } else {
      OneMoreCall(calls, call[0]);
      assert call == [call[0]];
    }
  }

  lemma RecordedMeans(work: seq<Work>, log: seq<Log>, responses: seq<Response>, calls: seq<Call>, first: seq<Entry>,
                      enabled: bool, depth: nat)
    requires Recorded(work, log, responses, calls, first, enabled, depth)
    ensures LogOf(work, log, first, enabled, depth) && responses == Replies(log) && |calls| == Answered(responses)
    ensures Calls(calls) && GotSince(log) + QueueAfter(first, log) == AddedSince(first, log)
  {
    hide LogOf, QueueAfter, GotSince, AddedSince;
    InOrder(work, log, first, enabled, depth);
  }

  lemma OneMoreLog(work: seq<Work>, log: seq<Log>, first: seq<Entry>, enabled: bool, depth: nat, w: Work, l: Log)
    requires LogOf(work, log, first, enabled, depth)
    requires Logged(w, l, QueueAfter(first, log), enabled, depth) && ReplyOk(l, QueueAfter(first, log))
    ensures LogOf(work + [w], log + [l], first, enabled, depth)
    ensures QueueAfter(first, log + [l]) == NextQueue(QueueAfter(first, log), l)
    ensures Replies(log + [l]) == Replies(log) + if l.Reply? then [l.response] else []
  {
    hide Logged, ReplyOk, NextQueue;
    assert (log + [l])[..|log|] == log && (work + [w])[..|work|] == work;
  }

  lemma OneMoreReply(responses: seq<Response>, rs: seq<Response>)
    requires |rs| <= 1
    ensures Answered(responses + rs) == Answered(responses) + if rs == [] || rs[0].Unavailable? then 0 else 1
  {
    if rs == [] { assert responses + rs == responses; } else { assert (responses + rs)[..|responses|] == responses; }
  }

  /** The host gets the accepted entries in order, none lost and none twice. */
  lemma {:induction false} InOrder(work: seq<Work>, log: seq<Log>, first: seq<Entry>, enabled: bool, depth: nat)
    requires LogOf(work, log, first, enabled, depth)
    ensures GotSince(log) + QueueAfter(first, log) == AddedSince(first, log)
    decreases |log|
  {
    hide Logged, ReplyOk, NextQueue;
    if log != [] {
      var n := |log| - 1;
      InOrder(work[..n], log[..n], first, enabled, depth);
      InOrderStep(QueueAfter(first, log[..n]), GotSince(log[..n]), AddedSince(first, log[..n]), log[n]);
    }
  }

  lemma InOrderStep(queue: seq<Entry>, got: seq<Entry>, added: seq<Entry>, l: Log)
    requires ReplyOk(l, queue) && got + queue == added
    ensures l.Accepted? ==> got + NextQueue(queue, l) == added + [l.entry]
    ensures FromFifo(l) ==> (got + [Entry(l.response.eventType, l.response.data)]) + NextQueue(queue, l) == added
    ensures l.Kept? || (l.Reply? && !FromFifo(l)) ==> NextQueue(queue, l) == queue
    ensures l.Emptied? ==> NextQueue(queue, l) == []
  {
    if FromFifo(l) { assert queue == [queue[0]] + queue[1..]; }
  }

  /** What the last call left. */
  ghost predicate Follows(calls: seq<Call>, events: set<nat>, last: nat) {
    calls != [] ==> var c := calls[|calls| - 1]; last == c.served + 1 && c.events - {c.served} <= events
  }

  lemma OneMoreCall(calls: seq<Call>, c: Call)
    requires Calls(calls) && CallOk(c) && Follows(calls, c.events, c.last)
    ensures Calls(calls + [c]) && (calls + [c])[|calls|] == c
  {
    hide CallOk;
    var more := calls + [c];
    forall k | 0 <= k < |more|
      ensures CallOk(more[k])
    {
      if k < |calls| { assert CallOk(calls[k]); }
    }
  }

  /** If the first event in turn is answered, it is the one to serve; otherwise the round robin goes past it. */
  lemma NextRound(events: set<nat>, head: Head, last: nat, e: nat)
    requires last <= EVENT_COUNT && EventSet(events) && First(events, last, e)
    ensures Answers(head, e) ==> InTurn(events, head, last, e)
    ensures !Answers(head, e) ==> forall x :: x in events && Answers(head, x) ==>
      Distance(e + 1, x) + Distance(last, e) + 1 == Distance(last, x)
  {
    if !Answers(head, e) {
      forall x | x in events && Answers(head, x)
        ensures Distance(e + 1, x) + Distance(last, e) + 1 == Distance(last, x)
      {
        OthersGetNearer(last, e, x);
      }
    }
  }
}
