/** The round robin over event types of fw/common/mkbp_event.c, when some types come from one shared FIFO
    that is served strictly in order. */
module MkbpEvents {
  const EVENT_COUNT: nat := 7

  /** Key matrix, button, switch and sysrq: their data is in the FIFO. */
  const FIFO_TYPES: set<nat> := {0, 3, 4, 6}

  /** The head of the FIFO, by type. */
  datatype Head = Empty | Type(t: nat)

  predicate EventSet(events: set<nat>) { forall e :: e in events ==> e < EVENT_COUNT }

  /** How many types after last the round robin comes to e. */
  function Distance(last: nat, e: nat): (d: nat)
    requires last <= EVENT_COUNT && e < EVENT_COUNT
    ensures d < EVENT_COUNT && (last + d) % EVENT_COUNT == e
  {
    (e + EVENT_COUNT - last) % EVENT_COUNT
  }

  /** The source of this event gives an answer: it is not a FIFO type that waits for another one. */
  predicate Answers(head: Head, e: nat) {
    e !in FIFO_TYPES || head.Empty? || head == Type(e)
  }

  /** Some event that is set is answered, if any is set. */
  ghost predicate Live(events: set<nat>, head: Head) {
    events == {} || exists e :: e in events && Answers(head, e)
  }

  /** e is the first in turn of the events that are set and answered. */
  ghost predicate InTurn(events: set<nat>, head: Head, last: nat, e: nat)
    requires last <= EVENT_COUNT && EventSet(events)
  {
    && e in events && Answers(head, e)
    && forall x :: x in events && Answers(head, x) ==> Distance(last, e) <= Distance(last, x)
  }

  lemma InTurnAnswers(events: set<nat>, head: Head, last: nat, e: nat)
    requires last <= EVENT_COUNT && EventSet(events) && InTurn(events, head, last, e)
    ensures e in events && Answers(head, e)
  {}

  /** The first event that is set, in the order of the round robin. */
  ghost predicate First(events: set<nat>, last: nat, e: nat)
    requires last <= EVENT_COUNT && EventSet(events)
  {
    e in events && forall x :: x in events ==> Distance(last, e) <= Distance(last, x)
  }

  lemma FirstExists(events: set<nat>, last: nat) returns (e: nat)
    requires last <= EVENT_COUNT && EventSet(events) && events != {}
    ensures First(events, last, e)
  {
    var x :| x in events;
    var rest := events - {x};
    if rest == {} {
      assert forall y :: y in events ==> y == x || y in rest;
      return x;
    }
    e := FirstExists(rest, last);
    if Distance(last, x) < Distance(last, e) { e := x; }
  }

  lemma DistanceIs(last: nat, e: nat)
    requires last <= EVENT_COUNT && e < EVENT_COUNT
    ensures Distance(last, e) == if e >= last then e - last else e + EVENT_COUNT - last
  {}

  lemma DistanceInjective(last: nat, x: nat, y: nat)
    requires last <= EVENT_COUNT && x < EVENT_COUNT && y < EVENT_COUNT && Distance(last, x) == Distance(last, y)
    ensures x == y
  {
    hide Distance;
    DistanceIs(last, x);
    DistanceIs(last, y);
  }

  lemma OnlyOneFirst(events: set<nat>, last: nat, e: nat)
    requires last <= EVENT_COUNT && EventSet(events) && First(events, last, e)
    ensures forall x: nat :: First(events, last, x) ==> x == e
  {
    forall x: nat | First(events, last, x)
      ensures x == e
    {
      DistanceInjective(last, x, e);
    }
  }

  /** Serving e moves every other event nearer, if it comes later; so no event starves. */
  lemma OthersGetNearer(last: nat, e: nat, x: nat)
    requires last <= EVENT_COUNT && e < EVENT_COUNT && x < EVENT_COUNT && x != e
    requires Distance(last, e) <= Distance(last, x)
    ensures Distance(e + 1, x) == Distance(last, x) - Distance(last, e) - 1
  {
    hide Distance;
    DistanceIs(last, e);
    DistanceIs(last, x);
    DistanceIs(e + 1, x);
  }

  // ---- The retry loop of mkbp_get_next_event ----

  /** The loop, with a bound on the number of rounds: the event that it serves, or none when all the rounds
      met a source that answers busy. */
  ghost function Rounds(events: set<nat>, head: Head, last: nat, n: nat): (r: Head)
    requires last <= EVENT_COUNT && EventSet(events) && events != {}
    decreases n
  {
    if n == 0 then Empty
    else
      FirstExistsHere(events, last);
      var e: nat :| First(events, last, e);
      if Answers(head, e) then Type(e) else Rounds(events, head, e + 1, n - 1)
  }

  lemma FirstExistsHere(events: set<nat>, last: nat)
    requires last <= EVENT_COUNT && EventSet(events) && events != {}
    ensures exists e :: First(events, last, e)
  {
    var e := FirstExists(events, last);
  }

  /** The loop ends exactly if some event that is set is answered; and then within one turn, with the first
      such event. */
  lemma {:induction false} LoopEndsIffLive(events: set<nat>, head: Head, last: nat)
    requires last <= EVENT_COUNT && EventSet(events) && events != {}
    ensures (exists n :: Rounds(events, head, last, n) != Empty) <==> Live(events, head)
    ensures Live(events, head) ==>
      var r := Rounds(events, head, last, EVENT_COUNT);
      r.Type? && InTurn(events, head, last, r.t)
  {
    if Live(events, head) {
      var live := set e | e in events && Answers(head, e);
      var e :| e in events && Answers(head, e);
      assert e in live;
      var f := FirstExists(live, last);
      assert InTurn(events, head, last, f);
      ReachesFirst(events, head, last, EVENT_COUNT, f);
      assert Rounds(events, head, last, EVENT_COUNT) != Empty;
    } else {
      forall n: nat
        ensures Rounds(events, head, last, n) == Empty
      {
        NeverAnswered(events, head, last, n);
      }
    }
  }

  lemma {:induction false} ReachesFirst(events: set<nat>, head: Head, last: nat, n: nat, f: nat)
    requires last <= EVENT_COUNT && EventSet(events) && InTurn(events, head, last, f) && Distance(last, f) < n
    ensures Rounds(events, head, last, n) == Type(f)
    decreases n
  {
    hide Distance;
    FirstExistsHere(events, last);
    var e: nat :| First(events, last, e);
    OnlyOneFirst(events, last, e);
    if Answers(head, e) {
      DistanceInjective(last, e, f);
    } else {
      OthersGetNearer(last, e, f);
      forall x | x in events && Answers(head, x)
        ensures Distance(e + 1, f) <= Distance(e + 1, x)
      {
        OthersGetNearer(last, e, x);
      }
      ReachesFirst(events, head, e + 1, n - 1, f);
    }
  }

  lemma {:induction false} NeverAnswered(events: set<nat>, head: Head, last: nat, n: nat)
    requires last <= EVENT_COUNT && EventSet(events) && events != {} && !Live(events, head)
    ensures Rounds(events, head, last, n) == Empty
    decreases n
  {
    hide Distance;
    if n > 0 {
      FirstExistsHere(events, last);
      var e: nat :| First(events, last, e);
      OnlyOneFirst(events, last, e);
      NeverAnswered(events, head, e + 1, n - 1);
    }
  }

  // ---- Over many calls ----

  /** What a call of mkbp_get_next_event with an event set starts from, and which event it serves. */
  datatype Call = Call(events: set<nat>, head: Head, last: nat, served: nat)

  /** Each call serves the first event in turn, and the events that it does not serve stay set. */
  ghost predicate Calls(calls: seq<Call>) {
    && (forall k :: 0 <= k < |calls| ==> CallOk(calls[k]))
    && forall k {:trigger calls[k].served} :: 0 <= k < |calls| - 1 ==>
         calls[k + 1].last == calls[k].served + 1 && calls[k].events - {calls[k].served} <= calls[k + 1].events
  }

  ghost predicate CallOk(c: Call) {
    c.last <= EVENT_COUNT && EventSet(c.events) && InTurn(c.events, c.head, c.last, c.served)
  }

  /** An event that is set, and whose source answers, is served within EVENT_COUNT calls. This is every event
      outside the FIFO types, and the type of an entry while it is at the head of the FIFO. */
  lemma {:induction false} NoneStarves(calls: seq<Call>, x: nat) returns (k: nat)
    requires Calls(calls) && |calls| >= EVENT_COUNT && x in calls[0].events
    requires x in FIFO_TYPES ==> forall m :: 0 <= m < |calls| ==> Answers(calls[m].head, x)
    ensures k < EVENT_COUNT && calls[k].served == x
    ensures forall m :: 0 <= m < k ==> calls[m].served != x
  {
    hide InTurn;
    k := 0;
    assert CallOk(calls[0]);
    while calls[k].served != x
      invariant k < EVENT_COUNT && CallOk(calls[k]) && x in calls[k].events
        && Distance(calls[k].last, x) + k < EVENT_COUNT
      invariant forall m :: 0 <= m < k ==> calls[m].served != x
      decreases EVENT_COUNT - k
    {
      assert Answers(calls[k].head, x);
      Passed(calls[k], x);
      assert CallOk(calls[k + 1]);
      k := k + 1;
    }
  }

  lemma Passed(c: Call, x: nat)
    requires CallOk(c) && x in c.events && Answers(c.head, x) && c.served != x
    ensures Distance(c.served + 1, x) < Distance(c.last, x)
  {
    OthersGetNearer(c.last, c.served, x);
  }
}
