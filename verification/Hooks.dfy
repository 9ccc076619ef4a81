/** The deferred calls of fw/common/hooks.c: the steps of the hook task, interleaved with the steps of any
    number of callers of hook_call_deferred in tasks and interrupts. Times are in microseconds. */
module Hooks {
  const HOOK_TICK_INTERVAL: nat := 500_000

  /** Where a caller is inside hook_call_deferred: it has computed a deadline, stored it, or set the flag. */
  datatype Call = Computed(i: nat, deadline: nat) | Stored(i: nat) | Flagged(i: nat)

  /** Where the hook task is. t is its copy of the time, and next the sleep it plans.
      Due: it has tested routine i and found it due, and clears its slot next; touched says that the slot
      was written in between. */
  datatype Pc =
    | Boot
    | Top
    | Scan(t: nat, i: nat)
    | Due(t: nat, i: nat, touched: bool)
    | Periodic(t: nat)
    | Reread
    | ClearFlag(t: nat, next: nat)
    | Plan(t: nat, i: nat, next: nat)
    | Decide(t: nat, next: nat)
    | Enter(t: nat, next: nat)
    | Asleep(t: nat, next: nat, since: nat)

  /** until is __deferred_until, where 0 is an idle slot; flag is defer_new_call; wake says that an event is
      pending for the hook task. */
  datatype State =
    State(now: nat, until: seq<nat>, flag: bool, wake: bool, lastTick: int, pc: Pc, calls: map<nat, Call>)

  datatype Action =
    | Elapse(us: nat)
    | Begin(caller: nat, i: nat, us: nat)
    | Store(caller: nat)
    | Flag(caller: nat)
    | Wake(caller: nat)
    | Cancel(i: nat)
    | Hook

  function Init(n: nat): State {
    State(1, seq(n, _ => 0), false, false, 0 - HOOK_TICK_INTERVAL, Boot, map[])
  }

  // ---- The steps ----

  predicate Enabled(s: State, a: Action) {
    match a
    case Elapse(_) => true
    case Begin(c, i, _) => c !in s.calls && i < |s.until|
    case Store(c) => c in s.calls && s.calls[c].Computed? && s.calls[c].i < |s.until|
    case Flag(c) => c in s.calls && s.calls[c].Stored?
    case Wake(c) => c in s.calls && s.calls[c].Flagged?
    case Cancel(i) => i < |s.until|
    case Hook => s.pc.Asleep? ==> s.wake || s.now >= s.pc.since + s.pc.next
  }

  /** A write to slot i by a caller. */
  function Write(s: State, i: nat, deadline: nat): State
    requires i < |s.until|
  {
    s.(until := s.until[i := deadline], pc := if s.pc.Due? && s.pc.i == i then s.pc.(touched := true) else s.pc)
  }

  function Apply(s: State, a: Action): State
    requires Enabled(s, a)
  {
    match a
    case Elapse(us) => s.(now := s.now + us)
    case Begin(c, i, us) => s.(calls := s.calls[c := Computed(i, s.now + us)])
    case Store(c) =>
      Write(s, s.calls[c].i, s.calls[c].deadline).(calls := s.calls[c := Stored(s.calls[c].i)])
    case Flag(c) => s.(flag := true, calls := s.calls[c := Flagged(s.calls[c].i)])
    case Wake(c) => s.(wake := s.wake || !s.pc.Boot?, calls := s.calls - {c})
    case Cancel(i) => Write(s, i, 0)
    case Hook => HookStep(s)
  }

  /** hook_task, between two accesses to the shared variables. */
  function HookStep(s: State): State
    requires Enabled(s, Hook)
  {
    match s.pc
    case Boot => s.(pc := Top)
    case Top => s.(pc := Scan(s.now, 0))
    case Scan(t, i) =>
      if i >= |s.until| then s.(pc := Periodic(t))
      else if s.until[i] != 0 && s.until[i] < t then s.(pc := Due(t, i, false))
      else s.(pc := Scan(t, i + 1))
    case Due(t, i, _) =>
      if i < |s.until| then s.(until := s.until[i := 0], pc := Scan(t, i + 1)) else s
    case Periodic(t) =>
      s.(lastTick := if t - s.lastTick >= HOOK_TICK_INTERVAL then t else s.lastTick, pc := Reread)
    case Reread =>
      var t := s.now;
      s.(pc := ClearFlag(t, if s.lastTick + HOOK_TICK_INTERVAL > t then s.lastTick + HOOK_TICK_INTERVAL - t else 0))
    case ClearFlag(t, next) => s.(flag := false, pc := Plan(t, 0, next))
    case Plan(t, i, next) =>
      if i >= |s.until| || next == 0 then s.(pc := Decide(t, next))
      else s.(pc := Plan(t, i + 1, PlanFor(s.until[i], t, next)))
    case Decide(t, next) => s.(pc := if next > 0 && !s.flag then Enter(t, next) else Top)
    case Enter(t, next) =>
      if s.wake then s.(wake := false, pc := Top) else s.(pc := Asleep(t, next, s.now))
    case Asleep(_, _, _) => s.(wake := false, pc := Top)
  }

  function PlanFor(deadline: nat, t: nat, next: nat): (r: nat)
    requires next > 0
    ensures r <= next && (deadline != 0 && r > 0 ==> t + r <= deadline)
  {
    if deadline == 0 then next
    else if deadline < t then 0
    else if deadline - t < next then deadline - t
    else next
  }

  /** The hook task starts the routine of slot i. */
  predicate Starts(s: State, a: Action, i: nat) {
    a == Hook && s.pc.Due? && s.pc.i == i
  }

  // ---- What every step keeps ----

  ghost predicate InFlight(calls: map<nat, Call>, call: Call) {
    exists c :: c in calls && calls[c] == call
  }

  /** The planned sleep ends in time for slot i. */
  predicate Met(s: State, i: nat, t: nat, next: nat)
    requires i < |s.until|
  {
    s.until[i] == 0 || next == 0 || t + next <= s.until[i]
  }

  /** While the sleep is planned: the plan meets the deadline, or the flag prevents the sleep, or the caller
      has yet to set it. */
  ghost predicate Planned(s: State, i: nat, t: nat, next: nat)
    requires i < |s.until|
  {
    Met(s, i, t, next) || s.flag || InFlight(s.calls, Stored(i))
  }

  /** From then on: a wake event is pending, or the caller has yet to send it. */
  ghost predicate Covered(s: State, i: nat, t: nat, next: nat)
    requires i < |s.until|
  {
    Met(s, i, t, next) || s.wake || InFlight(s.calls, Stored(i)) || InFlight(s.calls, Flagged(i))
  }

  ghost predicate AllPlanned(s: State, k: nat, t: nat, next: nat) {
    k <= |s.until| && forall i :: 0 <= i < k ==> Planned(s, i, t, next)
  }

  ghost predicate AllCovered(s: State, t: nat, next: nat) {
    forall i :: 0 <= i < |s.until| ==> Covered(s, i, t, next)
  }

  predicate TickMet(s: State, t: nat, next: nat) {
    next == 0 || t + next <= s.lastTick + HOOK_TICK_INTERVAL
  }

  predicate CallsValid(s: State) {
    s.now > 0 && forall c :: c in s.calls ==>
      s.calls[c].i < |s.until| && (s.calls[c].Computed? ==> s.calls[c].deadline > 0)
  }

  ghost predicate Inv(s: State) {
    && CallsValid(s)
    && match s.pc
       case Boot => true
       case Top => true
       case Scan(t, _) => 0 < t <= s.now
       case Due(t, i, touched) => 0 < t <= s.now && i < |s.until| && (!touched ==> 0 < s.until[i] < t)
       case Periodic(t) => t <= s.now
       case Reread => true
       case ClearFlag(t, next) => t <= s.now && TickMet(s, t, next)
       case Plan(t, k, next) => t <= s.now && TickMet(s, t, next) && AllPlanned(s, k, t, next)
       case Decide(t, next) => t <= s.now && TickMet(s, t, next) && (next == 0 || AllPlanned(s, |s.until|, t, next))
       case Enter(t, next) => t <= s.now && TickMet(s, t, next) && next > 0 && AllCovered(s, t, next)
       case Asleep(t, next, since) =>
         t <= since <= s.now && TickMet(s, t, next) && next > 0 && AllCovered(s, t, next)
  }

  lemma InitInv(n: nat)
    ensures Inv(Init(n))
  {}

  predicate IsCall(a: Action) { !a.Hook? && !a.Elapse? }

  /** A caller's step keeps another call in flight where it is. */
  lemma CallKept(s: State, a: Action, call: Call)
    requires Enabled(s, a) && IsCall(a) && InFlight(s.calls, call)
    ensures var s' := Apply(s, a);
            || InFlight(s'.calls, call)
            || (call.Computed? && InFlight(s'.calls, Stored(call.i)))
            || (call.Stored? && s'.flag && InFlight(s'.calls, Flagged(call.i)))
            || (call.Flagged? && (s'.wake || s.pc.Boot?))
  {
    var s' := Apply(s, a);
    var c :| c in s.calls && s.calls[c] == call;
    if c in s'.calls { assert InFlight(s'.calls, s'.calls[c]); }
  }

  lemma CallKeepsPlanned(s: State, a: Action, i: nat, t: nat, next: nat)
    requires Enabled(s, a) && IsCall(a) && i < |s.until| && Planned(s, i, t, next)
    ensures Planned(Apply(s, a), i, t, next)
  {
    var s' := Apply(s, a);
    if InFlight(s.calls, Stored(i)) { CallKept(s, a, Stored(i)); }
    if a.Store? && s.calls[a.caller].i == i { assert s'.calls[a.caller] == Stored(i); }
  }

  lemma CallKeepsCovered(s: State, a: Action, i: nat, t: nat, next: nat)
    requires Enabled(s, a) && IsCall(a) && i < |s.until| && Covered(s, i, t, next) && !s.pc.Boot?
    ensures Covered(Apply(s, a), i, t, next)
  {
    var s' := Apply(s, a);
    if InFlight(s.calls, Stored(i)) { CallKept(s, a, Stored(i)); }
    if InFlight(s.calls, Flagged(i)) { CallKept(s, a, Flagged(i)); }
    if a.Store? && s.calls[a.caller].i == i { assert s'.calls[a.caller] == Stored(i); }
  }

  lemma CallInv(s: State, a: Action)
    requires Inv(s) && Enabled(s, a) && IsCall(a)
    ensures Inv(Apply(s, a))
  {
    var s' := Apply(s, a);
    CallsStayValid(s, a);
    hide Planned, Covered, CallsValid;
    forall i, t, next | 0 <= i < |s.until| && Planned(s, i, t, next)
      ensures Planned(s', i, t, next)
    {
      CallKeepsPlanned(s, a, i, t, next);
    }
    if !s.pc.Boot? {
      forall i, t, next | 0 <= i < |s.until| && Covered(s, i, t, next)
        ensures Covered(s', i, t, next)
      {
        CallKeepsCovered(s, a, i, t, next);
      }
    }
  }

  lemma CallsStayValid(s: State, a: Action)
    requires CallsValid(s) && Enabled(s, a) && IsCall(a)
    ensures var s' := Apply(s, a);
            && CallsValid(s') && |s'.until| == |s.until| && s'.now == s.now && s'.lastTick == s.lastTick
            && (s'.pc == s.pc || (s.pc.Due? && s'.pc == s.pc.(touched := true)))
            && (s.pc.Due? && s.pc.i < |s.until| && !s'.pc.touched ==> s'.until[s.pc.i] == s.until[s.pc.i])
  {}

  lemma PlanStep(s: State)
    requires Inv(s) && s.pc.Plan?
    ensures Inv(Apply(s, Hook))
  {
    var s' := Apply(s, Hook);
    var t, next := s.pc.t, s.pc.next;
    hide CallsValid, PlanFor;
    if s'.pc.Plan? {
      forall i | 0 <= i < s.pc.i + 1
        ensures Planned(s', i, t, s'.pc.next)
      {
        assert i < s.pc.i ==> Planned(s, i, t, next);
      }
    } else if next != 0 {
      assert s.pc.i == |s.until|;
      forall i | 0 <= i < |s.until|
        ensures Planned(s', i, t, next)
      {
        assert Planned(s, i, t, next);
      }
    }
  }

  lemma SleepStep(s: State)
    requires Inv(s) && Enabled(s, Hook) && (s.pc.Decide? || s.pc.Enter? || s.pc.Asleep?)
    ensures Inv(Apply(s, Hook))
  {
    var s' := Apply(s, Hook);
    hide CallsValid;
    if s'.pc.Enter? {
      forall i | 0 <= i < |s.until|
        ensures Covered(s', i, s.pc.t, s.pc.next)
      {
        assert Planned(s, i, s.pc.t, s.pc.next);
      }
    } else if s'.pc.Asleep? {
      forall i | 0 <= i < |s.until|
        ensures Covered(s', i, s.pc.t, s.pc.next)
      {
        assert Covered(s, i, s.pc.t, s.pc.next);
      }
    }
  }

  lemma ScanStep(s: State)
    requires Inv(s) && (s.pc.Boot? || s.pc.Top? || s.pc.Scan? || s.pc.Due?)
    ensures Inv(Apply(s, Hook))
  {
    hide AllPlanned, AllCovered, TickMet;
  }

  lemma PeriodicStep(s: State)
    requires Inv(s) && (s.pc.Periodic? || s.pc.Reread? || s.pc.ClearFlag?)
    ensures Inv(Apply(s, Hook))
  {
    hide Planned, AllCovered;
  }

  lemma HookInv(s: State)
    requires Inv(s) && Enabled(s, Hook)
    ensures Inv(Apply(s, Hook))
  {
    hide Inv, Apply;
    match s.pc
    case Plan(_, _, _) => PlanStep(s);
    case Decide(_, _) => SleepStep(s);
    case Enter(_, _) => SleepStep(s);
    case Asleep(_, _, _) => SleepStep(s);
    case Periodic(_) => PeriodicStep(s);
    case Reread => PeriodicStep(s);
    case ClearFlag(_, _) => PeriodicStep(s);
    case _ => ScanStep(s);
  }

  /** Every step of the hook task, of a caller and of time keeps the invariant. */
  lemma NextInv(s: State, a: Action)
    requires Inv(s) && Enabled(s, a)
    ensures Inv(Apply(s, a))
  {
    if a.Hook? {
      HookInv(s);
    } else if a.Elapse? {
      ElapseInv(s, a.us);
    } else {
      CallInv(s, a);
    }
  }

  lemma ElapseInv(s: State, us: nat)
    requires Inv(s)
    ensures Inv(Apply(s, Elapse(us)))
  {
    var s' := Apply(s, Elapse(us));
    assert forall i, t, next :: 0 <= i < |s.until| && Planned(s, i, t, next) ==> Planned(s', i, t, next);
    assert forall i, t, next :: 0 <= i < |s.until| && Covered(s, i, t, next) ==> Covered(s', i, t, next);
  }

  // ---- Runs ----

  ghost predicate IsRun(states: seq<State>, actions: seq<Action>, n: nat) {
    && |states| == |actions| + 1 && states[0] == Init(n)
    && forall k :: 0 <= k < |actions| ==>
      Enabled(states[k], actions[k]) && states[k + 1] == Apply(states[k], actions[k])
  }

  lemma {:induction false} RunInv(states: seq<State>, actions: seq<Action>, n: nat, k: nat)
    requires IsRun(states, actions, n) && k < |states|
    ensures Inv(states[k])
  {
    hide Inv, Apply, Enabled;
    if k == 0 {
      InitInv(n);
    } else {
      RunInv(states, actions, n, k - 1);
      NextInv(states[k - 1], actions[k - 1]);
    }
  }

  /** Whenever the hook task sleeps, for each armed slot a wake event is pending, or a caller still has to
      send one, or the sleep ends no later than the deadline; and no later than the next tick. Both ends
      count from the moment at which the task read the time: the time between that and the start of the
      sleep is added. */
  lemma SleepMissesNothing(states: seq<State>, actions: seq<Action>, n: nat, k: nat, i: nat)
    requires IsRun(states, actions, n) && k < |states| && states[k].pc.Asleep?
    requires i < |states[k].until| && states[k].until[i] != 0
    ensures var s := states[k];
            var lag := s.pc.since - s.pc.t;
            && 0 <= lag && s.pc.since + s.pc.next <= s.lastTick + HOOK_TICK_INTERVAL + lag
            && (|| s.pc.since + s.pc.next <= s.until[i] + lag
                || s.wake || InFlight(s.calls, Stored(i)) || InFlight(s.calls, Flagged(i)))
  {
    RunInv(states, actions, n, k);
    assert Covered(states[k], i, states[k].pc.t, states[k].pc.next);
  }

  /** That time does delay a wake: a sleep planned to end at a deadline ends at the deadline exactly if no
      time passes before it starts. */
  lemma SleepIsLateByTheLag(s: State, i: nat)
    requires Inv(s) && s.pc.Enter? && !s.wake && i < |s.until| && s.until[i] == s.pc.t + s.pc.next
    ensures var s' := Apply(s, Hook);
            && s'.pc.Asleep? && s'.pc.since + s'.pc.next == s.until[i] + (s.now - s.pc.t)
            && (s'.pc.since + s'.pc.next <= s.until[i] <==> s.now == s.pc.t)
  {}

  // ---- When routines run ----

  /** A step of a caller that writes slot i. */
  predicate Touches(s: State, a: Action, i: nat) {
    a == Cancel(i) || (a.Store? && a.caller in s.calls && s.calls[a.caller].i == i)
  }

  /** A routine never starts early, or after a cancellation, unless its slot was written between the test
      and the clearing. */
  lemma StartsOnTime(states: seq<State>, actions: seq<Action>, n: nat, k: nat, i: nat)
    requires IsRun(states, actions, n) && k < |actions| && Starts(states[k], actions[k], i)
    ensures i < |states[k].until| && (states[k].pc.touched || 0 < states[k].until[i] < states[k].now)
  {
    RunInv(states, actions, n, k);
  }

  /** touched records such a write. */
  lemma {:induction false} TouchedByACaller(states: seq<State>, actions: seq<Action>, n: nat, k: nat, i: nat)
      returns (j: nat)
    requires IsRun(states, actions, n) && k < |states|
    requires states[k].pc.Due? && states[k].pc.i == i && states[k].pc.touched
    ensures j < k && Touches(states[j], actions[j], i)
    ensures forall m :: j <= m <= k ==> states[m].pc.Due? && states[m].pc.i == i
  {
    var s, a := states[k - 1], actions[k - 1];
    TouchedStep(s, a, i);
    hide Inv, Apply, Touches, Enabled;
    j := k - 1;
    if !Touches(s, a, i) { j := TouchedByACaller(states, actions, n, k - 1, i); }
  }

  lemma TouchedStep(s: State, a: Action, i: nat)
    requires Enabled(s, a) && Apply(s, a).pc.Due? && Apply(s, a).pc.i == i && Apply(s, a).pc.touched
    ensures s.pc.Due? && s.pc.i == i && (s.pc.touched || Touches(s, a, i))
  {}

  /** Slot i holds the deadline, and the hook task is not about to clear it too early. */
  predicate Kept(s: State, i: nat, deadline: nat) {
    && i < |s.until| && s.until[i] == deadline && deadline > 0
    && (s.pc.Due? && s.pc.i == i ==> deadline < s.pc.t)
  }

  /** Storing a deadline makes it kept exactly if the hook task is not between testing the slot and clearing
      it, or the deadline is already past. */
  lemma StoreKeepsDeadline(s: State, c: nat)
    requires Inv(s) && Enabled(s, Store(c))
    ensures var i, d := s.calls[c].i, s.calls[c].deadline;
            Kept(Apply(s, Store(c)), i, d) <==> !(s.pc.Due? && s.pc.i == i && s.pc.t <= d)
  {}

  lemma KeptStep(s: State, a: Action, i: nat, deadline: nat)
    requires Inv(s) && Enabled(s, a) && Kept(s, i, deadline) && !Touches(s, a, i)
    ensures if Starts(s, a, i) then deadline < s.now else Kept(Apply(s, a), i, deadline)
  {}

  /** A kept deferral is never lost: until its slot is written again it stays armed, or its routine has
      started after the deadline. */
  lemma {:induction false} DeferralNeverLost(states: seq<State>, actions: seq<Action>, n: nat, k: nat, m: nat,
                                             i: nat, deadline: nat)
    requires IsRun(states, actions, n) && k <= m < |states| && Kept(states[k], i, deadline)
    requires forall j :: k <= j < m ==> !Touches(states[j], actions[j], i)
    ensures Kept(states[m], i, deadline) ||
            exists j :: k <= j < m && Starts(states[j], actions[j], i) && deadline < states[j].now
    decreases m - k
  {
    hide Inv, Apply, Kept, Touches, Starts, Enabled;
    if k < m {
      RunInv(states, actions, n, k);
      KeptStep(states[k], actions[k], i, deadline);
      if !Starts(states[k], actions[k], i) {
        DeferralNeverLost(states, actions, n, k + 1, m, i, deadline);
      }
    }
  }

  /** In that window a new deadline is lost: the routine starts at once and the slot is cleared. */
  lemma RearmLost(s: State, c: nat)
    requires Inv(s) && Enabled(s, Store(c)) && s.pc.Due? && s.pc.i == s.calls[c].i
    ensures var s' := Apply(s, Store(c));
            Starts(s', Hook, s.pc.i) && Apply(s', Hook).until[s.pc.i] == 0
  {}

  /** Slot i is not armed, and the hook task is not about to start its routine. */
  predicate Idle(s: State, i: nat) {
    i < |s.until| && s.until[i] == 0 && !(s.pc.Due? && s.pc.i == i)
  }

  /** From then on its routine does not start before the slot is armed again. */
  lemma {:induction false} CancelHolds(states: seq<State>, actions: seq<Action>, n: nat, k: nat, m: nat, i: nat)
    requires IsRun(states, actions, n) && k <= m < |actions| && Idle(states[k], i)
    requires forall j :: k <= j < m ==> !Touches(states[j], actions[j], i) || actions[j].Cancel?
    ensures Idle(states[m], i) && !Starts(states[m], actions[m], i)
    decreases m - k
  {
    hide Apply, Enabled, Touches;
    if k < m {
      IdleStep(states[k], actions[k], i);
      CancelHolds(states, actions, n, k + 1, m, i);
    }
  }

  lemma IdleStep(s: State, a: Action, i: nat)
    requires Enabled(s, a) && Idle(s, i) && (!Touches(s, a, i) || a.Cancel?)
    ensures Idle(Apply(s, a), i) && !Starts(s, a, i)
  {}

  /** Cancelling makes the slot idle exactly if the hook task is not in that window. */
  lemma CancelInWindow(s: State, i: nat)
    requires Inv(s) && i < |s.until|
    ensures Idle(Apply(s, Cancel(i)), i) <==> !Starts(s, Hook, i)
    ensures Starts(s, Hook, i) ==> Starts(Apply(s, Cancel(i)), Hook, i)
  {}

  /** The first loop of this pass has still to reach slot i, whose deadline is past. */
  predicate Ahead(s: State, i: nat, deadline: nat) {
    && i < |s.until| && s.until[i] == deadline && deadline > 0
    && match s.pc
       case Top => deadline < s.now
       case Scan(t, k) => k <= i && deadline < t
       case Due(t, k, _) => k <= i && deadline < t
       case _ => false
  }

  /** A routine whose deadline is past when a pass starts runs in that pass. */
  lemma {:induction false} PassRunsDueRoutines(states: seq<State>, actions: seq<Action>, n: nat, k: nat, m: nat,
                                               i: nat, deadline: nat)
    requires IsRun(states, actions, n) && k <= m < |states| && Ahead(states[k], i, deadline)
    requires forall j :: k <= j < m ==> !Touches(states[j], actions[j], i)
    requires states[m].pc.Periodic?
    ensures exists j :: k <= j < m && Starts(states[j], actions[j], i)
    decreases m - k
  {
    if !Starts(states[k], actions[k], i) {
      AheadStep(states[k], actions[k], i, deadline);
      PassRunsDueRoutines(states, actions, n, k + 1, m, i, deadline);
    }
  }

  lemma AheadStep(s: State, a: Action, i: nat, deadline: nat)
    requires Enabled(s, a) && Ahead(s, i, deadline) && !Touches(s, a, i) && !Starts(s, a, i)
    ensures Ahead(Apply(s, a), i, deadline)
  {}

  // ---- Deadlines and the clock ----

  /** A step of caller c. */
  predicate IsBy(a: Action, c: nat) {
    (a.Begin? || a.Store? || a.Flag? || a.Wake?) && a.caller == c
  }

  /** A caller that has computed a deadline did so in its last step, as the time then and the delay. */
  lemma {:induction false} ComputedBy(states: seq<State>, actions: seq<Action>, n: nat, k: nat, c: nat) returns (j: nat)
    requires IsRun(states, actions, n) && k < |states| && c in states[k].calls && states[k].calls[c].Computed?
    ensures j < k && actions[j].Begin? && actions[j].caller == c
    ensures states[k].calls[c] == Computed(actions[j].i, states[j].now + actions[j].us)
    ensures forall m :: j < m < k ==> !IsBy(actions[m], c)
  {
    j := k - 1;
    ComputedStep(states[j], actions[j], c);
    hide Apply, Enabled, IsBy;
    if !IsBy(actions[j], c) { j := ComputedBy(states, actions, n, k - 1, c); }
  }

  lemma ComputedStep(s: State, a: Action, c: nat)
    requires Enabled(s, a) && c in Apply(s, a).calls && Apply(s, a).calls[c].Computed?
    ensures if IsBy(a, c) then a.Begin? && Apply(s, a).calls[c] == Computed(a.i, s.now + a.us)
            else c in s.calls && s.calls[c] == Apply(s, a).calls[c]
  {}

  /** An armed slot holds the deadline of the last caller that wrote it, and was not cleared since. */
  lemma {:induction false} ArmedBy(states: seq<State>, actions: seq<Action>, n: nat, k: nat, i: nat) returns (m: nat)
    requires IsRun(states, actions, n) && k < |states| && i < |states[k].until| && states[k].until[i] != 0
    ensures m < k && actions[m].Store? && actions[m].caller in states[m].calls
    ensures states[m].calls[actions[m].caller] == Computed(i, states[k].until[i])
    ensures forall j :: m < j < k ==> !Touches(states[j], actions[j], i) && !Starts(states[j], actions[j], i)
  {
    hide Apply, Enabled, Touches, Starts, Init;
    if k == 0 {
      NothingArmed(n, i);
    } else {
      m := k - 1;
      ArmedStep(states[m], actions[m], i);
      if !Touches(states[m], actions[m], i) { m := ArmedBy(states, actions, n, k - 1, i); }
    }
  }

  lemma NothingArmed(n: nat, i: nat)
    requires i < |Init(n).until|
    ensures Init(n).until[i] == 0
  {}

  lemma ArmedStep(s: State, a: Action, i: nat)
    requires Enabled(s, a) && i < |Apply(s, a).until| && Apply(s, a).until[i] != 0
    ensures !Starts(s, a, i)
    ensures if Touches(s, a, i) then
              a.Store? && a.caller in s.calls && s.calls[a.caller] == Computed(i, Apply(s, a).until[i])
            else i < |s.until| && s.until[i] == Apply(s, a).until[i]
  {}

  /** A routine that starts outside the window was armed by a call at step j, stored at step m, and more than the
      delay of the call has passed since. */
  lemma StartsAfterDelay(states: seq<State>, actions: seq<Action>, n: nat, k: nat, i: nat) returns (j: nat, m: nat)
    requires IsRun(states, actions, n) && k < |actions| && Starts(states[k], actions[k], i) && !states[k].pc.touched
    ensures j < m < k && actions[j].Begin? && actions[j].i == i && actions[m] == Store(actions[j].caller)
    ensures forall l :: j < l < m ==> !IsBy(actions[l], actions[j].caller)
    ensures forall l :: m < l < k ==> !Touches(states[l], actions[l], i) && !Starts(states[l], actions[l], i)
    ensures states[j].now + actions[j].us < states[k].now
  {
    hide Apply, Enabled, IsBy, Touches;
    RunInv(states, actions, n, k);
    m := ArmedBy(states, actions, n, k, i);
    j := ComputedBy(states, actions, n, m, actions[m].caller);
  }

  // ---- Ticks, and how long the task sleeps ----

  /** The hook task calls the tick hooks. */
  predicate Ticks(s: State, a: Action) {
    a == Hook && s.pc.Periodic? && s.pc.t - s.lastTick >= HOOK_TICK_INTERVAL
  }

  lemma TickStep(s: State, a: Action)
    requires Enabled(s, a)
    ensures var s' := Apply(s, a);
      if Ticks(s, a) then s'.lastTick == s.pc.t else s'.lastTick == s.lastTick
  {}

  lemma {:induction false} LastTickGrows(states: seq<State>, actions: seq<Action>, n: nat, j: nat, k: nat)
    requires IsRun(states, actions, n) && j <= k < |states|
    ensures states[j].lastTick <= states[k].lastTick
    decreases k - j
  {
    hide Apply, Enabled;
    if j < k {
      TickStep(states[j], actions[j]);
      LastTickGrows(states, actions, n, j + 1, k);
    }
  }

  /** Two ticks are at least the interval apart. */
  lemma TicksApart(states: seq<State>, actions: seq<Action>, n: nat, j: nat, k: nat)
    requires IsRun(states, actions, n) && j < k < |actions|
    requires Ticks(states[j], actions[j]) && Ticks(states[k], actions[k])
    ensures states[k].pc.t - states[j].pc.t >= HOOK_TICK_INTERVAL
  {
    hide Apply, Enabled;
    TickStep(states[j], actions[j]);
    LastTickGrows(states, actions, n, j + 1, k);
  }

  /** The task plans a sleep, from the time t on. */
  predicate Planning(p: Pc) { p.ClearFlag? || p.Plan? || p.Decide? || p.Enter? || p.Asleep? }

  /** From step j to step k the task plans one and the same sleep. */
  ghost predicate SamePlan(states: seq<State>, j: nat, k: nat)
    requires j <= k < |states|
  {
    Planning(states[k].pc) &&
    forall m :: j <= m <= k ==> Planning(states[m].pc) && states[m].pc.t == states[k].pc.t
  }

  lemma SamePlanNext(states: seq<State>, j: nat, k: nat)
    requires j <= k < |states| - 1 && SamePlan(states, j, k)
    requires Planning(states[k + 1].pc) && states[k + 1].pc.t == states[k].pc.t
    ensures SamePlan(states, j, k + 1)
  {}

  /** A sleep ends no earlier than the next tick, or than a deadline that the task read in this pass, at step j. */
  lemma {:induction false} SleepReason(states: seq<State>, actions: seq<Action>, n: nat, k: nat) returns (j: nat)
    requires IsRun(states, actions, n) && k < |states| && Planning(states[k].pc) && states[k].pc.next > 0
    ensures var end := states[k].pc.t + states[k].pc.next;
      || end == states[k].lastTick + HOOK_TICK_INTERVAL
      || (j < k && ReadsDeadline(states[j], actions[j], states[k].pc.t, end) && SamePlan(states, j, k))
  {
    hide Apply, Enabled, ReadsDeadline, SamePlan;
    j := 0;
    if k > 0 {
      var s, s' := states[k - 1], states[k];
      PlanReason(s, actions[k - 1]);
      if Planning(s.pc) && s.pc.t == s'.pc.t && s.pc.next == s'.pc.next && s.lastTick == s'.lastTick {
        j := SleepReason(states, actions, n, k - 1);
        if j < k - 1 && SamePlan(states, j, k - 1) { SamePlanNext(states, j, k - 1); }
      } else {
        j := k - 1;
        if ReadsDeadline(s, actions[j], s'.pc.t, s'.pc.t + s'.pc.next) { ReadIsPlan(states, j, actions[j]); }
      }
    }
  }

  lemma ReadIsPlan(states: seq<State>, j: nat, a: Action)
    requires j < |states| - 1 && Planning(states[j + 1].pc)
    requires ReadsDeadline(states[j], a, states[j + 1].pc.t, states[j + 1].pc.t + states[j + 1].pc.next)
    ensures SamePlan(states, j, j + 1)
  {}

  /** This step reads the deadline of a slot, and plans the sleep to end then. */
  predicate ReadsDeadline(s: State, a: Action, t: nat, deadline: nat) {
    a == Hook && s.pc.Plan? && s.pc.t == t && s.pc.i < |s.until| && s.until[s.pc.i] == deadline != 0
  }

  lemma PlanReason(s: State, a: Action)
    requires Enabled(s, a) && Planning(Apply(s, a).pc) && Apply(s, a).pc.next > 0
    ensures var s' := Apply(s, a);
      var end := s'.pc.t + s'.pc.next;
      || (Planning(s.pc) && s.pc.t == s'.pc.t && s.pc.next == s'.pc.next && s.lastTick == s'.lastTick)
      || end == s'.lastTick + HOOK_TICK_INTERVAL
      || ReadsDeadline(s, a, s'.pc.t, end)
  {
    if a.Hook? { HookReason(s); } else { NoPlan(s, a); }
  }

  lemma NoPlan(s: State, a: Action)
    requires Enabled(s, a) && !a.Hook? && Planning(Apply(s, a).pc)
    ensures Apply(s, a).pc == s.pc && Apply(s, a).lastTick == s.lastTick
  {}

  lemma HookReason(s: State)
    requires Enabled(s, Hook) && Planning(HookStep(s).pc) && HookStep(s).pc.next > 0
    ensures var s' := HookStep(s);
      var end := s'.pc.t + s'.pc.next;
      || (Planning(s.pc) && s.pc.t == s'.pc.t && s.pc.next == s'.pc.next && s.lastTick == s'.lastTick)
      || end == s'.lastTick + HOOK_TICK_INTERVAL
      || ReadsDeadline(s, Hook, s'.pc.t, end)
  {
    hide HookStep, ReadsDeadline;
    if s.pc.Plan? { ReadReason(s); } else { TickReason(s); }
  }

  lemma TickReason(s: State)
    requires Enabled(s, Hook) && !s.pc.Plan? && Planning(HookStep(s).pc) && HookStep(s).pc.next > 0
    ensures var s' := HookStep(s);
      || (Planning(s.pc) && s.pc.t == s'.pc.t && s.pc.next == s'.pc.next && s.lastTick == s'.lastTick)
      || s'.pc.t + s'.pc.next == s'.lastTick + HOOK_TICK_INTERVAL
  {}

  lemma ReadReason(s: State)
    requires s.pc.Plan? && HookStep(s).pc.next > 0
    ensures var s' := HookStep(s);
      && Planning(s'.pc) && s'.pc.t == s.pc.t && s'.lastTick == s.lastTick
      && (s'.pc.next == s.pc.next || ReadsDeadline(s, Hook, s.pc.t, s.pc.t + s'.pc.next))
  {}

  // ---- Runs that show the windows ----

  /** Some run for one deferred routine ends in s. */
  ghost predicate Reached(s: State) {
    exists states, actions :: IsRun(states, actions, 1) && states[|actions|] == s
  }

  lemma Then(s: State, a: Action)
    requires Reached(s) && Enabled(s, a)
    ensures Reached(Apply(s, a))
  {
    hide Enabled, Apply, Init;
    var states, actions :| IsRun(states, actions, 1) && states[|actions|] == s;
    var states', actions' := states + [Apply(s, a)], actions + [a];
    forall k | 0 <= k < |actions'|
      ensures Enabled(states'[k], actions'[k]) && states'[k + 1] == Apply(states'[k], actions'[k])
    {
      if k < |actions| { assert Enabled(states[k], actions[k]) && states[k + 1] == Apply(states[k], actions[k]); }
    }
    assert IsRun(states', actions', 1);
  }

  lemma StartIsReached()
    ensures Reached(Init(1))
  {
    assert IsRun([Init(1)], [], 1);
  }

  /** The hook task has found slot 0 due, and a caller is about to store the later deadline 1001 there. */
  function Window(): State {
    State(11, [1], false, false, -500_000, Due(11, 0, false), map[0 := Stored(0), 1 := Computed(0, 1001)])
  }

  lemma WindowIsReached()
    ensures Reached(Window())
  {
    hide Reached;
    Armed();
    var s := State(11, [1], false, false, -500_000, Boot, map[0 := Stored(0), 1 := Computed(0, 1001)]);
    Then(s, Hook);
    s := Apply(s, Hook);
    Then(s, Hook);
    s := Apply(s, Hook);
    Then(s, Hook);
  }

  lemma Armed()
    ensures Reached(State(11, [1], false, false, -500_000, Boot, map[0 := Stored(0), 1 := Computed(0, 1001)]))
  {
    hide Reached;
    StartIsReached();
    var s := Init(1);
    Then(s, Begin(0, 0, 0));
    s := Apply(s, Begin(0, 0, 0));
    Then(s, Store(0));
    s := Apply(s, Store(0));
    Then(s, Begin(1, 0, 1000));
    s := Apply(s, Begin(1, 0, 1000));
    Then(s, Elapse(10));
    assert s.until == [1] && s.calls == map[0 := Stored(0), 1 := Computed(0, 1001)];
  }

  /** There a new deadline is lost, and its routine starts 990 microseconds early. */
  lemma RearmIsLost()
    ensures Reached(Window()) && Enabled(Window(), Store(1))
    ensures var s := Apply(Window(), Store(1));
      s.until == [1001] && s.now == 11 && Starts(s, Hook, 0) && Apply(s, Hook).until == [0]
  {
    WindowIsReached();
  }

  /** And a cancelled routine starts. */
  lemma CancelledRoutineStarts()
    ensures Reached(Window()) && Enabled(Window(), Cancel(0)) && Starts(Apply(Window(), Cancel(0)), Hook, 0)
  {
    WindowIsReached();
  }

  /** The hook task has planned a sleep of 100 microseconds, for a deadline at 101. */
  lemma SleepIsPlanned()
    ensures Reached(State(1, [101], false, false, 1, Enter(1, 100), map[]))
  {
    hide Reached;
    PassIsOver();
    var s := State(1, [101], true, false, 1, Reread, map[]);
    Then(s, Hook);
    s := Apply(s, Hook);
    Then(s, Hook);
    s := Apply(s, Hook);
    Then(s, Hook);
    s := Apply(s, Hook);
    Then(s, Hook);
    s := Apply(s, Hook);
    Then(s, Hook);
  }

  /** The first pass has found nothing due, and the new call is not yet seen. */
  lemma PassIsOver()
    ensures Reached(State(1, [101], true, false, 1, Reread, map[]))
  {
    hide Reached;
    Called();
    var s := State(1, [101], true, false, -500_000, Boot, map[]);
    Then(s, Hook);
    s := Apply(s, Hook);
    Then(s, Hook);
    s := Apply(s, Hook);
    Then(s, Hook);
    s := Apply(s, Hook);
    Then(s, Hook);
    s := Apply(s, Hook);
    Then(s, Hook);
  }

  lemma Called()
    ensures Reached(State(1, [101], true, false, -500_000, Boot, map[]))
  {
    hide Reached;
    StartIsReached();
    var s := Init(1);
    Then(s, Begin(0, 0, 100));
    s := Apply(s, Begin(0, 0, 100));
    Then(s, Store(0));
    s := Apply(s, Store(0));
    Then(s, Flag(0));
    s := Apply(s, Flag(0));
    Then(s, Wake(0));
    assert s.until == [101] && Apply(s, Wake(0)).calls == map[];
  }

  /** Interrupted for 50 microseconds before it starts, that sleep ends 50 microseconds after the deadline. */
  lemma SleepEndsLate()
    ensures Reached(State(51, [101], false, false, 1, Asleep(1, 100, 51), map[]))
  {
    hide Reached;
    SleepIsPlanned();
    var s := State(1, [101], false, false, 1, Enter(1, 100), map[]);
    Then(s, Elapse(50));
    s := Apply(s, Elapse(50));
    Then(s, Hook);
  }
}
