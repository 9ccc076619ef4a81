/** The lock of fw/common/nvmem.c as a state machine: any number of tasks, interleaved between any two
    accesses to the shared variables. A task is a number; the number of tasks stands for TASK_ID_COUNT. */
module NvmemLock {
  /** inRange is what nvmem_get_partition_off says of the arguments; for nvmem_move, of both pairs. */
  datatype Op = Read(inRange: bool) | IsDifferent(inRange: bool) | Write(inRange: bool) | Disable

  /** Where a task is inside the functions of the module. */
  datatype Pc =
    | Idle
    | LockCheck(op: Op) | LockWait(op: Op) | LockSet(op: Op) | Holding(op: Op)
    | Reading(op: Op) | Checking(inRange: bool) | Copying
    | ReleaseCheck | ReleaseEnabled | ReleaseTask | ReleaseUnlock
    | EnableCheck | EnableOwner | EnableSet
    | CommitOpen | CommitOwner | CommitError | CommitClear | CommitForce | CommitEnabled | Saving | SaveEnd

  datatype Owner = Nobody | Task(id: nat)

  /** mtx is the mutex itself, task the field nvmem_mutex.task. */
  datatype State = State(mtx: Owner, task: nat, writeInProgress: bool, enabled: bool, writeError: bool,
                         cache: seq<int>, pc: seq<Pc>)
  {
    function Goto(t: nat, p: Pc): State
      requires t < |pc|
    {
      this.(pc := pc[t := p])
    }
  }

  // ---- The steps of a task t ----

  /** A call of a function of the module. */
  predicate Call(s: State, t: nat, s': State)
    requires t < |s.pc|
  {
    s.pc[t] == Idle &&
    (|| (t < |s'.pc| && s'.pc[t].LockCheck? && s' == s.Goto(t, s'.pc[t]))
     || s' == s.Goto(t, EnableCheck) || s' == s.Goto(t, CommitOpen))
  }

  /** nvmem_lock_cache */
  predicate Lock(s: State, t: nat, s': State)
    requires t < |s.pc|
  {
    match s.pc[t]
    case LockCheck(op) => s' == s.Goto(t, if s.task == t then Holding(op) else LockWait(op))
    case LockWait(op) => s.mtx == Nobody && s' == s.(mtx := Task(t)).Goto(t, LockSet(op))
    case LockSet(op) => s' == s.(task := t).Goto(t, Holding(op))
    case _ => false
  }

  /** nvmem_read, nvmem_is_different, nvmem_write, nvmem_move, nvmem_disable_commits, once the lock is held. */
  predicate Use(s: State, t: nat, s': State)
    requires t < |s.pc|
  {
    match s.pc[t]
    case Holding(Read(ok)) => s' == s.Goto(t, if ok then Reading(Read(ok)) else ReleaseCheck)
    case Holding(IsDifferent(ok)) => s' == s.Goto(t, if ok then Reading(IsDifferent(ok)) else Idle)
    case Holding(Write(ok)) => s' == s.(writeInProgress := true).Goto(t, Checking(ok))
    case Holding(Disable) => s' == s.(enabled := false).Goto(t, Idle)
    case Reading(op) => s' == s || s' == s.Goto(t, ReleaseCheck)
    case Checking(ok) => s' == if ok then s.Goto(t, Copying) else s.(writeError := true).Goto(t, Idle)
    case Copying => s' == s.(cache := s'.cache) || s' == s.Goto(t, Idle)
    case _ => false
  }

  /** nvmem_release_cache */
  predicate Release(s: State, t: nat, s': State)
    requires t < |s.pc|
  {
    match s.pc[t]
    case ReleaseCheck => s' == s.Goto(t, if s.writeInProgress then Idle else ReleaseEnabled)
    case ReleaseEnabled => s' == s.Goto(t, if !s.enabled then Idle else ReleaseTask)
    case ReleaseTask => s' == s.(task := |s.pc|).Goto(t, ReleaseUnlock)
    case ReleaseUnlock => s' == s.(mtx := Nobody).Goto(t, Idle)
    case _ => false
  }

  /** nvmem_enable_commits, which goes on as nvmem_commit. */
  predicate Enable(s: State, t: nat, s': State)
    requires t < |s.pc|
  {
    match s.pc[t]
    case EnableCheck => s' == s.Goto(t, if s.enabled then Idle else EnableOwner)
    case EnableOwner => s' == s.Goto(t, if s.task != t then Idle else EnableSet)
    case EnableSet => s' == s.(enabled := true).Goto(t, CommitOpen)
    case _ => false
  }

  /** nvmem_commit and nvmem_save */
  predicate Commit(s: State, t: nat, s': State)
    requires t < |s.pc|
  {
    match s.pc[t]
    case CommitOpen => s' == s.Goto(t, if s.task == |s.pc| then Idle else CommitOwner)
    case CommitOwner => s' == s.Goto(t, if s.task != t then Idle else CommitError)
    case CommitError => s' == s.Goto(t, if s.writeError then CommitClear else CommitEnabled)
    case CommitClear => s' == s.(writeError := false).Goto(t, CommitForce)
    case CommitForce => s' == s.(enabled := true).Goto(t, ReleaseCheck)
    case CommitEnabled => s' == s.Goto(t, if s.enabled then Saving else Idle)
    case Saving => s' == s.(cache := s'.cache) || s' == s.Goto(t, SaveEnd)
    case SaveEnd => s' == s.(writeInProgress := false).Goto(t, ReleaseCheck)
    case _ => false
  }

  predicate Next(s: State, t: nat, s': State)
    requires t < |s.pc|
  {
    Call(s, t, s') || Lock(s, t, s') || Use(s, t, s') || Release(s, t, s') || Enable(s, t, s') || Commit(s, t, s')
  }

  /** The state after nvmem_init. */
  predicate Init(s: State) {
    && s.mtx == Nobody && s.task == |s.pc| && !s.writeInProgress && s.enabled && !s.writeError
    && forall t :: 0 <= t < |s.pc| ==> s.pc[t] == Idle
  }

  /** The task has passed nvmem_lock_cache, or knows that it holds the lock. */
  predicate Inside(p: Pc) {
    p.Holding? || p.Reading? || p.Checking? || p.Copying? || p.ReleaseCheck? || p.ReleaseEnabled? || p.ReleaseTask?
    || p.EnableSet? || p.CommitError? || p.CommitClear? || p.CommitForce? || p.CommitEnabled? || p.Saving?
    || p.SaveEnd?
  }

  /** What each position of a task says about the shared variables. */
  predicate PcInv(s: State, t: nat)
    requires t < |s.pc|
  {
    var p := s.pc[t];
    && (Inside(p) ==> s.mtx == Task(t) && s.task == t)
    && (p.LockSet? ==> s.mtx == Task(t) && s.task == |s.pc|)
    && (p.ReleaseUnlock? ==> s.mtx == Task(t) && s.task == |s.pc|)
    && (p.ReleaseTask? || p.ReleaseUnlock? ==> !s.writeInProgress && s.enabled)
    && (p.ReleaseEnabled? ==> !s.writeInProgress)
    && (p.Checking? || p.Copying? || p.CommitClear? || p.CommitForce? ==> s.writeInProgress)
    && (p.Saving? || p.SaveEnd? ==> s.enabled && !s.writeError)
    && (p.CommitForce? || p.CommitEnabled? ==> !s.writeError)
    && (s.mtx == Task(t) ==> s.task == t || p.LockSet? || p.ReleaseUnlock?)
    && (p.LockWait? ==> s.mtx != Task(t))
  }

  predicate Inv(s: State) {
    && (s.task != |s.pc| ==> s.mtx == Task(s.task) && s.task < |s.pc|)
    && (s.writeInProgress || !s.enabled ==> s.task != |s.pc|)
    && (s.writeError ==> s.writeInProgress)
    && forall t :: 0 <= t < |s.pc| ==> PcInv(s, t)
  }

  lemma InitInv(s: State)
    requires Init(s)
    ensures Inv(s)
  {}

  /** What a step may do to the shared variables, as seen by the other tasks. */
  predicate Frame(s: State, t: nat, s': State)
    requires t < |s.pc|
  {
    && |s'.pc| == |s.pc| && (forall u :: 0 <= u < |s.pc| && u != t ==> s'.pc[u] == s.pc[u])
    && (s.mtx != Task(t) ==>
          && s'.task == s.task && s'.writeInProgress == s.writeInProgress && s'.enabled == s.enabled
          && s'.writeError == s.writeError && s'.cache == s.cache
          && (s'.mtx == s.mtx || (s.mtx == Nobody && s'.mtx == Task(t))))
    && (s'.mtx == s.mtx || s'.mtx == Task(t) || s'.mtx == Nobody)
  }

  /** The variables, and t's own view of them, after a step of t. */
  predicate Local(s': State, t: nat) {
    && t < |s'.pc| && PcInv(s', t)
    && (s'.task != |s'.pc| ==> s'.mtx == Task(s'.task) && s'.task < |s'.pc|)
    && (s'.writeInProgress || !s'.enabled ==> s'.task != |s'.pc|)
    && (s'.writeError ==> s'.writeInProgress)
  }

  lemma LockStep(s: State, t: nat, s': State)
    requires Inv(s) && t < |s.pc| && (Call(s, t, s') || Lock(s, t, s'))
    ensures Frame(s, t, s') && Local(s', t)
  {
    assert PcInv(s, t);
  }

  lemma UseStep(s: State, t: nat, s': State)
    requires Inv(s) && t < |s.pc| && Use(s, t, s')
    ensures Frame(s, t, s') && Local(s', t)
  {
    assert PcInv(s, t);
  }

  lemma ReleaseStep(s: State, t: nat, s': State)
    requires Inv(s) && t < |s.pc| && Release(s, t, s')
    ensures Frame(s, t, s') && Local(s', t)
  {
    assert PcInv(s, t);
  }

  lemma CommitStep(s: State, t: nat, s': State)
    requires Inv(s) && t < |s.pc| && Commit(s, t, s')
    ensures Frame(s, t, s') && Local(s', t)
  {
    assert PcInv(s, t);
  }

  lemma EnableStep(s: State, t: nat, s': State)
    requires Inv(s) && t < |s.pc| && Enable(s, t, s')
    ensures Frame(s, t, s') && Local(s', t)
  {
    assert PcInv(s, t);
  }

  /** Every step of every task keeps the invariant. */
  lemma NextInv(s: State, t: nat, s': State)
    requires Inv(s) && t < |s.pc| && Next(s, t, s')
    ensures Inv(s') && Frame(s, t, s')
  {
    hide Call, Lock, Use, Release, Enable, Commit;
    if Call(s, t, s') || Lock(s, t, s') { LockStep(s, t, s'); }
    if Use(s, t, s') { UseStep(s, t, s'); }
    if Release(s, t, s') { ReleaseStep(s, t, s'); }
    if Enable(s, t, s') { EnableStep(s, t, s'); }
    if Commit(s, t, s') { CommitStep(s, t, s'); }
    assert PcInv(s, t);
    forall u | 0 <= u < |s'.pc|
      ensures PcInv(s', u)
    {
      assert PcInv(s, u);
    }
  }

  // ---- Runs ----

  /** Step i takes states[i] to states[i+1] and is made by task who[i]. */
  predicate IsPath(states: seq<State>, who: seq<nat>) {
    && |states| == |who| + 1
    && forall i {:trigger who[i]} :: 0 <= i < |who| ==>
      who[i] < |states[i].pc| && Next(states[i], who[i], states[i + 1])
  }

  predicate IsRun(states: seq<State>, who: seq<nat>) {
    IsPath(states, who) && Init(states[0])
  }

  lemma {:induction false} RunInv(states: seq<State>, who: seq<nat>, i: nat)
    requires IsRun(states, who) && i < |states|
    ensures Inv(states[i]) && |states[i].pc| == |states[0].pc|
    decreases i
  {
    hide Inv, Next, Init;
    if i == 0 {
      InitInv(states[0]);
    } else {
      RunInv(states, who, i - 1);
      NextInv(states[i - 1], who[i - 1], states[i]);
    }
  }

  /** The next step of task u reads or changes the cache. */
  predicate Accesses(s: State, u: nat)
    requires u < |s.pc|
  {
    s.pc[u].Reading? || s.pc[u].Copying? || s.pc[u].Saving?
  }

  /** Task t holds the lock with changes that are not committed, or with commits disabled. */
  predicate Pending(s: State, t: nat) {
    s.mtx == Task(t) && (s.writeInProgress || !s.enabled)
  }

  /** The cache changes only in an access by the task that holds the lock. */
  lemma CacheChanges(s: State, t: nat, s': State)
    requires Inv(s) && t < |s.pc| && Next(s, t, s') && s'.cache != s.cache
    ensures Accesses(s, t) && s.mtx == Task(t)
  {
    assert PcInv(s, t);
    hide Inv, PcInv;
    CacheStep(s, t, s');
    assert Inside(s.pc[t]);
  }

  lemma CacheStep(s: State, t: nat, s': State)
    requires t < |s.pc| && Next(s, t, s') && s'.cache != s.cache
    ensures Accesses(s, t)
  {}

  /** A write, or disabling commits, makes the task's changes pending. */
  lemma PendingStarts(s: State, t: nat, s': State)
    requires Inv(s) && t < |s.pc| && Next(s, t, s') && s.pc[t].Holding? && (s.pc[t].op.Write? || s.pc[t].op.Disable?)
    ensures Pending(s', t)
  {
    assert PcInv(s, t);
    hide Inv;
  }

  /** Only the task itself ends it: by a completed save, or by enabling commits, which goes on to commit. */
  lemma PendingEnds(s: State, u: nat, s': State, t: nat)
    requires Inv(s) && u < |s.pc| && t < |s.pc| && Next(s, u, s') && Pending(s, t) && !Pending(s', t)
    ensures u == t && ((s.pc[t] == SaveEnd && s.enabled) || s.pc[t] == EnableSet)
  {
    NextInv(s, u, s');
    assert PcInv(s, t);
    hide Inv;
  }

  /** The step in which task t gives the lock back. */
  predicate Unlocks(s: State, u: nat, t: nat) {
    u == t && t < |s.pc| && s.pc[t] == ReleaseUnlock && !s.writeInProgress && s.enabled
  }

  lemma HolderStep(s: State, u: nat, s': State, t: nat)
    requires Inv(s) && u < |s.pc| && t < |s.pc| && Next(s, u, s') && s.mtx == Task(t) && !Unlocks(s, u, t)
    ensures s'.mtx == Task(t)
  {
    NextInv(s, u, s');
    assert PcInv(s, t);
    hide Inv;
  }

  lemma {:induction false} HoldsUntilUnlock(states: seq<State>, who: seq<nat>, i: nat, k: nat, t: nat)
    requires IsRun(states, who) && i <= k < |states| && t < |states[0].pc| && states[i].mtx == Task(t)
    requires forall m {:trigger who[m]} :: i <= m < k ==> !Unlocks(states[m], who[m], t)
    ensures states[k].mtx == Task(t)
    decreases k - i
  {
    hide Inv, Next, Unlocks;
    if i < k {
      RunInv(states, who, i);
      HolderStep(states[i], who[i], states[i + 1], t);
      HoldsUntilUnlock(states, who, i + 1, k, t);
    }
  }

  /** From the moment that task t's changes are pending, no other task reads or changes the cache before t
      itself has unlocked, with nothing pending. */
  lemma WriterExcludesOthers(states: seq<State>, who: seq<nat>, i: nat, k: nat, t: nat)
    requires IsRun(states, who) && i <= k < |who| && t < |states[0].pc| && Pending(states[i], t)
    requires who[k] != t && Accesses(states[k], who[k])
    ensures exists m :: i <= m < k && Unlocks(states[m], who[m], t)
  {
    hide Next, Unlocks;
    RunInv(states, who, k);
    assert PcInv(states[k], who[k]);
    if forall m {:trigger who[m]} :: i <= m < k ==> !Unlocks(states[m], who[m], t) {
      HoldsUntilUnlock(states, who, i, k, t);
    }
  }

  // ---- Taking the lock ----

  /** A task that waits for the lock is not itself the holder, and goes on exactly when the mutex is free. */
  lemma NeverWaitsForItself(states: seq<State>, who: seq<nat>, k: nat, t: nat)
    requires IsRun(states, who) && k < |states| && t < |states[k].pc| && states[k].pc[t].LockWait?
    ensures states[k].mtx != Task(t)
    ensures (exists s' :: Next(states[k], t, s')) <==> states[k].mtx == Nobody
  {
    RunInv(states, who, k);
    assert PcInv(states[k], t);
    hide Inv, PcInv, IsRun, Use, Release, Enable, Commit;
    var s := states[k];
    if s.mtx == Nobody { assert Next(s, t, s.(mtx := Task(t)).Goto(t, LockSet(s.pc[t].op))); }
  }

  /** The holder gets through nvmem_lock_cache at once; any other task has to wait for the mutex. */
  lemma HolderPasses(states: seq<State>, who: seq<nat>, k: nat, t: nat, op: Op)
    requires IsRun(states, who) && k < |who| && who[k] == t && t < |states[k].pc|
    requires states[k].pc[t] == LockCheck(op)
    ensures states[k + 1] == states[k].Goto(t, if states[k].mtx == Task(t) then Holding(op) else LockWait(op))
  {
    hide Next, Init, Inv;
    RunInv(states, who, k);
    CheckStep(states[k], t, states[k + 1], op);
  }

  lemma CheckStep(s: State, t: nat, s': State, op: Op)
    requires Inv(s) && t < |s.pc| && s.pc[t] == LockCheck(op) && Next(s, t, s')
    ensures s' == s.Goto(t, if s.mtx == Task(t) then Holding(op) else LockWait(op))
  {
    assert PcInv(s, t);
  }

  // ---- What each call leaves ----

  /** The variables and the lock, seen by task t. */
  datatype Outcome = Outcome(wip: bool, enabled: bool, writeError: bool, held: bool)

  function Now(s: State, t: nat): Outcome {
    Outcome(s.writeInProgress, s.enabled, s.writeError, s.mtx == Task(t))
  }

  /** The task holds the lock, or goes to commit or to enable commits, and what its call leaves is settled. */
  predicate Settled(s: State, t: nat)
    requires t < |s.pc|
  {
    var p := s.pc[t];
    s.mtx == Task(t) && !p.Idle? && !p.LockCheck? && !p.LockWait? && !p.LockSet?
  }

  /** nvmem_commit of the holder. After a failed write it only clears the error and enables commits; with commits
      disabled it does nothing; otherwise it ends the pending write and releases the lock. */
  function AfterCommit(wip: bool, enabled: bool, writeError: bool): Outcome {
    if writeError then Outcome(wip, true, false, true)
    else if !enabled then Outcome(wip, false, false, true)
    else Outcome(false, true, false, false)
  }

  /** nvmem_release_cache of the holder. */
  function AfterRelease(s: State): Outcome {
    Outcome(s.writeInProgress, s.enabled, s.writeError, s.writeInProgress || !s.enabled)
  }

  /** A write makes a write pending, and fails exactly when its arguments are out of range. A read changes nothing,
      and nor does a comparison, which keeps the lock if its arguments are out of range. Enabling commits, if they are
      disabled, goes on as a commit. */
  function WillLeave(s: State, t: nat): Outcome
    requires t < |s.pc|
  {
    match s.pc[t]
    case Holding(Read(_)) => AfterRelease(s)
    case Holding(IsDifferent(ok)) => if ok then AfterRelease(s) else Now(s, t)
    case Holding(Write(ok)) => Outcome(true, s.enabled, s.writeError || !ok, true)
    case Holding(Disable) => Outcome(s.writeInProgress, false, s.writeError, true)
    case Reading(_) => AfterRelease(s)
    case Checking(ok) => Outcome(true, s.enabled, s.writeError || !ok, true)
    case Copying => Now(s, t)
    case EnableCheck => if s.enabled then Now(s, t) else AfterCommit(s.writeInProgress, true, s.writeError)
    case EnableOwner => AfterCommit(s.writeInProgress, true, s.writeError)
    case EnableSet => AfterCommit(s.writeInProgress, true, s.writeError)
    case CommitOpen => AfterCommit(s.writeInProgress, s.enabled, s.writeError)
    case CommitOwner => AfterCommit(s.writeInProgress, s.enabled, s.writeError)
    case CommitError => AfterCommit(s.writeInProgress, s.enabled, s.writeError)
    case CommitClear => Outcome(s.writeInProgress, true, false, true)
    case CommitForce => Outcome(s.writeInProgress, true, false, true)
    case CommitEnabled => AfterCommit(s.writeInProgress, s.enabled, false)
    case Saving => Outcome(false, true, false, false)
    case SaveEnd => Outcome(false, true, false, false)
    case ReleaseCheck => AfterRelease(s)
    case ReleaseEnabled => AfterRelease(s)
    case ReleaseTask => AfterRelease(s)
    case ReleaseUnlock => AfterRelease(s)
    case _ => Now(s, t)
  }

  /** t's call is over with what was foreseen, or foresees the same. */
  predicate Keeps(s: State, s': State, t: nat)
    requires t < |s.pc|
  {
    t < |s'.pc| &&
    if s'.pc[t] == Idle then Now(s', t) == WillLeave(s, t) else Settled(s', t) && WillLeave(s', t) == WillLeave(s, t)
  }

  lemma UseLeaves(s: State, t: nat, s': State)
    requires t < |s.pc| && PcInv(s, t) && Use(s, t, s') && Settled(s, t) && s.pc[t].Holding?
    ensures Keeps(s, s', t)
  {}

  lemma AccessLeaves(s: State, t: nat, s': State)
    requires t < |s.pc| && PcInv(s, t) && Use(s, t, s') && Settled(s, t) && !s.pc[t].Holding?
    ensures Keeps(s, s', t)
  {}

  lemma ReleaseLeaves(s: State, t: nat, s': State)
    requires t < |s.pc| && PcInv(s, t) && Release(s, t, s') && Settled(s, t)
    ensures Keeps(s, s', t)
  {}

  lemma EnableLeaves(s: State, t: nat, s': State)
    requires t < |s.pc| && PcInv(s, t) && Enable(s, t, s') && Settled(s, t)
    ensures Keeps(s, s', t)
  {}

  lemma CommitLeaves(s: State, t: nat, s': State)
    requires t < |s.pc| && PcInv(s, t) && Commit(s, t, s') && Settled(s, t) && !InSave(s.pc[t])
    ensures Keeps(s, s', t)
  {}

  predicate InSave(p: Pc) { p.CommitForce? || p.CommitEnabled? || p.Saving? || p.SaveEnd? }

  lemma SaveLeaves(s: State, t: nat, s': State)
    requires t < |s.pc| && PcInv(s, t) && Commit(s, t, s') && Settled(s, t) && InSave(s.pc[t])
    ensures Keeps(s, s', t)
  {}

  lemma OthersLeave(s: State, u: nat, s': State, t: nat)
    requires t < |s.pc| && u < |s.pc| && u != t && Frame(s, u, s') && s'.mtx == s.mtx == Task(t) && s.pc[t] != Idle
    requires Settled(s, t)
    ensures Keeps(s, s', t)
  {}

  lemma LeaveStep(s: State, u: nat, s': State, t: nat)
    requires Inv(s) && u < |s.pc| && t < |s.pc| && Next(s, u, s') && Settled(s, t)
    ensures Keeps(s, s', t)
  {
    NextInv(s, u, s');
    assert PcInv(s, t);
    hide Inv, PcInv, Use, Release, Enable, Commit, Keeps;
    if u != t {
      OthersLeave(s, u, s', t);
    } else {
      if Use(s, t, s') { if s.pc[t].Holding? { UseLeaves(s, t, s'); } else { AccessLeaves(s, t, s'); } }
      if Release(s, t, s') { ReleaseLeaves(s, t, s'); }
      if Enable(s, t, s') { EnableLeaves(s, t, s'); }
      if Commit(s, t, s') { if InSave(s.pc[t]) { SaveLeaves(s, t, s'); } else { CommitLeaves(s, t, s'); } }
    }
  }

  /** Over every run, a call by the holder leaves what its position and the variables said at any time before. */
  lemma {:induction false} CallOutcome(states: seq<State>, who: seq<nat>, i: nat, n: nat, t: nat)
    requires IsRun(states, who) && i < n < |states| && t < |states[0].pc|
    requires t < |states[i].pc| && t < |states[n].pc| && Settled(states[i], t) && states[n].pc[t] == Idle
    requires forall m :: i < m < n ==> t < |states[m].pc| && states[m].pc[t] != Idle
    ensures Now(states[n], t) == WillLeave(states[i], t)
    decreases n - i
  {
    hide Inv, Next, WillLeave, Now;
    RunInv(states, who, i);
    LeaveStep(states[i], who[i], states[i + 1], t);
    if i + 1 < n { CallOutcome(states, who, i + 1, n, t); }
  }

  /** A commit by the holder ends with the lock still held exactly when a write had failed, in which case it
      is abandoned, or commits are disabled. The header promises only that the lock lasts until the commit. */
  lemma CommitKeepsIff(states: seq<State>, who: seq<nat>, i: nat, n: nat, t: nat)
    requires IsRun(states, who) && i <= n < |states| && t < |states[0].pc|
    requires t < |states[i].pc| && t < |states[n].pc| && states[i].pc[t] == CommitError && states[n].pc[t] == Idle
    requires forall m :: i < m < n ==> t < |states[m].pc| && states[m].pc[t] != Idle
    ensures states[n].mtx == Task(t) <==> states[i].writeError || !states[i].enabled
  {
    hide Next, Init;
    RunInv(states, who, i);
    assert PcInv(states[i], t);
    CallOutcome(states, who, i, n, t);
  }

  /** A read or a comparison ends with the lock still held exactly when a write is in progress, commits are
      disabled, or it is a comparison with arguments out of range, whose error exit releases nothing. */
  lemma ReadOutcome(states: seq<State>, who: seq<nat>, i: nat, n: nat, t: nat, op: Op)
    requires IsRun(states, who) && i <= n < |states| && t < |states[0].pc| && (op.Read? || op.IsDifferent?)
    requires t < |states[i].pc| && t < |states[n].pc| && states[i].pc[t] == Holding(op) && states[n].pc[t] == Idle
    requires forall m :: i < m < n ==> t < |states[m].pc| && states[m].pc[t] != Idle
    ensures states[n].mtx == Task(t) <==>
      states[i].writeInProgress || !states[i].enabled || op == IsDifferent(false)
  {
    hide Next, Init;
    RunInv(states, who, i);
    assert PcInv(states[i], t);
    CallOutcome(states, who, i, n, t);
  }

  // ---- nvmem_enable_commits and nvmem_commit, by whoever calls them ----

  predicate Enabling(p: Pc) { p.EnableCheck? || p.EnableOwner? || p.EnableSet? }

  /** Called by the holder, nvmem_enable_commits enables commits and goes on to commit exactly when they were
      disabled. */
  lemma {:induction false} HolderEnables(states: seq<State>, who: seq<nat>, i: nat, n: nat, t: nat)
    requires IsRun(states, who) && i < n < |states| && t < |states[0].pc|
    requires t < |states[i].pc| && t < |states[n].pc| && states[i].mtx == Task(t)
    requires Enabling(states[i].pc[t]) && !Enabling(states[n].pc[t])
    requires forall m :: i < m < n ==> t < |states[m].pc| && Enabling(states[m].pc[t])
    ensures states[n].mtx == Task(t) && states[n].enabled
    ensures states[n].pc[t] == if states[i].pc[t] == EnableCheck && states[i].enabled then Idle else CommitOpen
    decreases n - i
  {
    hide Inv, Next, Init;
    RunInv(states, who, i);
    EnablingStep(states[i], who[i], states[i + 1], t);
    if i + 1 < n { HolderEnables(states, who, i + 1, n, t); }
  }

  lemma EnablingStep(s: State, u: nat, s': State, t: nat)
    requires Inv(s) && u < |s.pc| && t < |s.pc| && Next(s, u, s') && s.mtx == Task(t) && Enabling(s.pc[t])
    ensures t < |s'.pc| && s'.mtx == Task(t)
    ensures if Enabling(s'.pc[t]) then
              (s.pc[t] == EnableCheck && s.enabled) == (s'.pc[t] == EnableCheck && s'.enabled)
            else
              s'.enabled && s'.pc[t] == if s.pc[t] == EnableCheck && s.enabled then Idle else CommitOpen
  {
    NextInv(s, u, s');
    assert PcInv(s, t);
    hide Inv, Use, Release, Commit, Lock;
    if u == t { NotElsewhere(s, t, s'); }
  }

  /** What another task's call passes through. */
  predicate Elsewhere(p: Pc) { p.EnableCheck? || p.EnableOwner? || p.CommitOpen? || p.CommitOwner? }

  lemma NotElsewhere(s: State, t: nat, s': State)
    requires t < |s.pc| && Next(s, t, s') && Enabling(s.pc[t])
    ensures Enable(s, t, s')
  {}

  /** Called by a task that does not hold the lock, neither gets anywhere: the call ends without an effect. */
  lemma {:induction false} OthersCommitNothing(states: seq<State>, who: seq<nat>, i: nat, n: nat, t: nat)
    requires IsRun(states, who) && i <= n < |states| && t < |states[0].pc|
    requires t < |states[i].pc| && Elsewhere(states[i].pc[t]) && states[i].mtx != Task(t)
    requires forall m :: i < m < n ==> t < |states[m].pc| && states[m].pc[t] != Idle
    ensures t < |states[n].pc| && states[n].mtx != Task(t)
    ensures Elsewhere(states[n].pc[t]) || (i < n && states[n].pc[t] == Idle)
    ensures forall m :: i <= m < n && who[m] == t ==> states[m + 1] == states[m].(pc := states[m + 1].pc)
    decreases n - i
  {
    hide Inv, Next, Init;
    if i < n {
      RunInv(states, who, i);
      ElsewhereStep(states[i], who[i], states[i + 1], t);
      if i + 1 < n { OthersCommitNothing(states, who, i + 1, n, t); }
    }
  }

  lemma ElsewhereStep(s: State, u: nat, s': State, t: nat)
    requires Inv(s) && u < |s.pc| && t < |s.pc| && Next(s, u, s') && s.mtx != Task(t) && Elsewhere(s.pc[t])
    ensures t < |s'.pc| && s'.mtx != Task(t) && (Elsewhere(s'.pc[t]) || s'.pc[t] == Idle)
    ensures u == t ==> s' == s.(pc := s'.pc)
  {
    NextInv(s, u, s');
    assert PcInv(s, t);
    hide Inv, Use, Release;
    if u == t { NothingElse(s, t, s'); }
  }

  lemma NothingElse(s: State, t: nat, s': State)
    requires t < |s.pc| && Next(s, t, s') && Elsewhere(s.pc[t])
    ensures Enable(s, t, s') || Commit(s, t, s')
  {}

  // ---- Two runs that keep the lock ----

  /** Some sequence of steps leads from s to s'. */
  ghost predicate Leads(s: State, s': State) {
    exists states, who :: IsPath(states, who) && states[0] == s && states[|who|] == s'
  }

  lemma Stays(s: State)
    ensures Leads(s, s)
  {
    assert IsPath([s], []);
  }

  lemma Then(s: State, s': State, t: nat, s'': State)
    requires Leads(s, s') && t < |s'.pc| && Next(s', t, s'')
    ensures Leads(s, s'')
  {
    hide Next;
    var states, who :| IsPath(states, who) && states[0] == s && states[|who|] == s';
    var states', who' := states + [s''], who + [t];
    forall i {:trigger who'[i]} | 0 <= i < |who'|
      ensures who'[i] < |states'[i].pc| && Next(states'[i], who'[i], states'[i + 1])
    {
      if i < |who| { assert who[i] < |states[i].pc| && Next(states[i], who[i], states[i + 1]); }
    }
    assert IsPath(states', who');
  }

  function Start(): State { State(Nobody, 1, false, true, false, [], [Idle]) }

  lemma StartIsInitial()
    ensures Init(Start())
  {}

  /** The only task has the lock for an operation. */
  function Locked(op: Op): State { Start().(mtx := Task(0), task := 0, pc := [Holding(op)]) }

  lemma TakesLock(op: Op)
    ensures Leads(Start(), Locked(op))
  {
    hide Next, Leads;
    Stays(Start());
    LockingSteps(op);
    Then(Start(), Start(), 0, Start().Goto(0, LockCheck(op)));
    Then(Start(), Start().Goto(0, LockCheck(op)), 0, Start().Goto(0, LockWait(op)));
    Then(Start(), Start().Goto(0, LockWait(op)), 0, Start().(mtx := Task(0), pc := [LockSet(op)]));
    Then(Start(), Start().(mtx := Task(0), pc := [LockSet(op)]), 0, Locked(op));
  }

  lemma LockingSteps(op: Op)
    ensures Next(Start(), 0, Start().Goto(0, LockCheck(op)))
    ensures Next(Start().Goto(0, LockCheck(op)), 0, Start().Goto(0, LockWait(op)))
    ensures Next(Start().Goto(0, LockWait(op)), 0, Start().(mtx := Task(0), pc := [LockSet(op)]))
    ensures Next(Start().(mtx := Task(0), pc := [LockSet(op)]), 0, Locked(op))
  {
    hide Use, Enable, Commit;
  }

  /** A comparison outside the range of the user's data: the task is done, nothing is pending, and the lock
      stays taken. */
  lemma ComparisonKeepsLock()
    ensures Init(Start()) && Leads(Start(), Locked(IsDifferent(false)))
    ensures Next(Locked(IsDifferent(false)), 0, Start().(mtx := Task(0), task := 0))
  {
    TakesLock(IsDifferent(false));
  }

  /** The states of a write by the only task. */
  function Writing(error: bool, p: Pc): State { State(Task(0), 0, true, true, error, [], [p]) }

  lemma FailingSteps()
    ensures Next(Locked(Write(false)), 0, Writing(false, Checking(false)))
    ensures Next(Writing(false, Checking(false)), 0, Writing(true, Idle))
    ensures Next(Writing(true, Idle), 0, Writing(true, CommitOpen))
  {}

  lemma AbandoningSteps()
    ensures Next(Writing(true, CommitOpen), 0, Writing(true, CommitOwner))
    ensures Next(Writing(true, CommitOwner), 0, Writing(true, CommitError))
    ensures Next(Writing(true, CommitError), 0, Writing(true, CommitClear))
    ensures Next(Writing(true, CommitClear), 0, Writing(false, CommitForce))
    ensures Next(Writing(false, CommitForce), 0, Writing(false, ReleaseCheck))
    ensures Next(Writing(false, ReleaseCheck), 0, Writing(false, Idle))
  {
    hide Use, Lock, Enable;
  }

  /** A write outside the range has failed. A commit after it finds that, abandons the changes, and is over, and the
      lock stays taken. */
  lemma FailedWriteKeepsLock()
    ensures Init(Start()) && Leads(Start(), Writing(true, Idle))
    ensures Leads(Writing(true, Idle), Writing(true, CommitError))
    ensures Leads(Writing(true, CommitError), Writing(false, Idle))
  {
    hide Next, Leads, Init;
    StartIsInitial();
    TakesLock(Write(false));
    FailingSteps();
    AbandoningSteps();
    Then(Start(), Locked(Write(false)), 0, Writing(false, Checking(false)));
    Then(Start(), Writing(false, Checking(false)), 0, Writing(true, Idle));
    var s := Writing(true, Idle);
    Stays(s);
    Then(s, s, 0, Writing(true, CommitOpen));
    Then(s, Writing(true, CommitOpen), 0, Writing(true, CommitOwner));
    Then(s, Writing(true, CommitOwner), 0, Writing(true, CommitError));
    s := Writing(true, CommitError);
    Stays(s);
    Then(s, s, 0, Writing(true, CommitClear));
    Then(s, Writing(true, CommitClear), 0, Writing(false, CommitForce));
    Then(s, Writing(false, CommitForce), 0, Writing(false, ReleaseCheck));
    Then(s, Writing(false, ReleaseCheck), 0, Writing(false, Idle));
  }
}
