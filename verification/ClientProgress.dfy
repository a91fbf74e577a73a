/**
 Which synchronous calls get their answer: a blocked call is released after a bounded number of steps of the worker,
 unless stop() came before its task was started; then it waits forever.
 */
module ClientProgress {
  import opened ClientThread
  import opened Wrappers

  /** stop() has locked the mutex or set the flag, which is never cleared. */
  predicate Stopping(s: State) {
    s.stop || !s.stopper.NotStopping?
  }

  // ----- the worker runs -----

  predicate Returning(t: Task) {
    t.stage.Blocked? || t.stage.Acquired? || t.stage.Done?
  }

  /** The worker ends only when it is told to, a call that waits has seen it run, and stop() sets the flag before it wakes. */
  predicate Launched(s: State) {
    && (s.stopper.StopSet? || s.stopper.StopSignalled? ==> s.stop)
    && (s.worker.Exited? ==> s.stop)
    && (s.worker.NotRunning? ==> forall t :: t in s.tasks ==> !Returning(t))
  }

  lemma CallerKeepsLaunched(s: State, i: nat, act: CallerAction)
    requires Launched(s) && CallerEnabled(s, i, act)
    ensures Launched(NextCaller(s, i, act))
  {
    assert s.tasks[i] in s.tasks;
  }

  lemma StepKeepsLaunched(s: State, a: Action)
    requires Launched(s) && Enabled(s, a)
    ensures Launched(Next(s, a))
  {
    hide CallerEnabled, NextCaller;
    if a.Caller? {
      CallerKeepsLaunched(s, a.i, a.act);
    }
  }

  lemma {:induction false} RunKeepsLaunched(s: State, actions: seq<Action>, r: State)
    requires Launched(s) && IsRun(s, actions, r)
    ensures Launched(r)
    decreases |actions|
  {
    hide Launched;
    if actions != [] {
      StepKeepsLaunched(s, actions[0]);
      RunKeepsLaunched(Next(s, actions[0]), actions[1..], r);
    }
  }

  lemma ReachableLaunched(s: State)
    requires Reachable(s)
    ensures Inv(s) && Launched(s)
  {
    hide Inv;
    ReachableInv(s);
    var actions :| IsRun(START, actions, s);
    RunKeepsLaunched(START, actions, s);
  }

  // ----- a call that waits for its release -----

  predicate Waiting(s: State, i: nat) {
    i < |s.tasks| && s.tasks[i].stage.Blocked? && s.tasks[i].released == 0
  }

  /** It waits for a worker that will come to its task. */
  predicate Pending(s: State, i: nat) {
    Waiting(s, i) && (i in s.started || !Stopping(s))
  }

  function Ticket(s: State, i: nat): nat
    requires i < |s.tasks|
  {
    s.tasks[i].ticket.GetOr(0)
  }

  /** The task is the one in hand, or still in the queue of a running worker. */
  lemma PendingPlace(s: State, i: nat)
    requires Inv(s) && Launched(s) && Pending(s, i)
    ensures var p := Ticket(s, i);
            && s.tasks[i].ticket == Some(p) && p < |s.enqueued| && s.enqueued[p] == i
            && if p < |s.started| then p == |s.started| - 1 && Busy(s.worker) && s.task == i
               else s.queue != [] && !Stopping(s) && !s.worker.NotRunning? && !s.worker.Exited? && (Busy(s.worker) ==> s.task != i)
  {
    assert Standing(s, i);
    assert s.tasks[i] in s.tasks;
    var p := Ticket(s, i);
    if i in s.started {
      var q :| 0 <= q < |s.started| && s.started[q] == i;
      assert s.enqueued[q] == i;
    }
    if Busy(s.worker) {
      CurrentTask(s);
    }
  }

  // ----- the steps that are left -----

  function Rank(w: WorkerStage): nat {
    match w
    case Dequeued => 8
    case Processing => 7
    case Finished => 6
    case StoredResponse => 5
    case StoredHeaders => 4
    case Posted => 3
    case Sleeping => 3
    case Woken => 2
    case Locking => 2
    case Checking => 1
    case Passed => 0
    case NotRunning => 3
    case Exited => 0
  }

  /** A bound on the steps the worker still makes until it has released the task with ticket `p`. */
  function Remaining(s: State, p: nat): nat {
    9 * (if p < |s.started| then 0 else p + 1 - |s.started|) + Rank(s.worker)
  }

  /** The steps until the caller that holds the mutex gives it up. */
  function HolderWork(s: State): nat {
    if s.mutex.ByCaller? && s.mutex.i < |s.tasks| then
      match s.tasks[s.mutex.i].stage
      case Holding => 3
      case Appended => 2
      case Signalled => 1
      case _ => 0
    else 0
  }

  predicate WorkerActs(a: Action) {
    a.WorkerLock? || a.WorkerWait? || a.WorkerPass? || a.WorkerBreak? || a.WorkerDequeue? || a.WorkerUnlock?
    || a.Reply? || a.StoreResponse? || a.StoreHeaders? || a.Release? || a.NextTask?
  }

  predicate HolderActs(a: Action) {
    a.Caller? && (a.act.Append? || a.act.Signal? || a.act.Unlock?)
  }

  predicate StopActs(a: Action) {
    a.StopLock? || a.StopSetFlag? || a.StopSignal? || a.StopUnlock?
  }

  lemma CallerStepWork(s: State, i: nat, k: nat, act: CallerAction)
    requires Inv(s) && Launched(s) && Pending(s, i) && CallerEnabled(s, k, act)
    ensures var p := Ticket(s, i); var r := NextCaller(s, k, act);
            i < |r.tasks| && Ticket(r, i) == p && Remaining(r, p) <= Remaining(s, p)
  {
    hide QueueInv, WorkerInv, InHand, Answered, Untouched;
    PendingPlace(s, i);
    assert Standing(s, k) && Standing(s, i);
  }

  /** No step gives the worker more to do for a pending task, and each of its own steps leaves less. */
  lemma StepWork(s: State, i: nat, a: Action)
    requires Inv(s) && Launched(s) && Pending(s, i) && Enabled(s, a)
    ensures var p := Ticket(s, i);
            && i < |Next(s, a).tasks| && Ticket(Next(s, a), i) == p
            && Remaining(Next(s, a), p) <= Remaining(s, p)
            && (WorkerActs(a) ==> Remaining(Next(s, a), p) < Remaining(s, p))
  {
    hide QueueInv, Standing, CallerEnabled, NextCaller;
    PendingPlace(s, i);
    if a.Caller? {
      CallerStepWork(s, i, a.i, a.act);
    }
  }

  lemma HolderStepWork(s: State, a: Action)
    requires Inv(s) && Enabled(s, a) && HolderActs(a)
    ensures HolderWork(Next(s, a)) < HolderWork(s)
  {
    hide QueueInv, WorkerInv;
    assert Standing(s, a.i);
  }

  lemma CallerKeepsPending(s: State, i: nat, k: nat, act: CallerAction)
    requires Inv(s) && Pending(s, i) && CallerEnabled(s, k, act)
    ensures Pending(NextCaller(s, k, act), i)
  {
    hide QueueInv, WorkerInv;
    assert Standing(s, i);
  }

  /** Only its release, or stop() before its task was started, ends the wait for a release. */
  lemma StepKeepsPending(s: State, i: nat, a: Action)
    requires Inv(s) && Launched(s) && Pending(s, i) && Enabled(s, a)
    ensures i < |Next(s, a).tasks|
    ensures Pending(Next(s, a), i) || Next(s, a).tasks[i].released == 1 || (StopActs(a) && i !in s.started)
  {
    hide QueueInv, WorkerInv, Standing, CallerEnabled, NextCaller;
    if a.Caller? {
      CallerKeepsPending(s, i, a.i, a.act);
    }
  }

  /** While a task is pending, the worker has a step, or a caller on its way out of the mutex. */
  lemma SomeoneHelps(s: State, i: nat) returns (a: Action)
    requires Inv(s) && Launched(s) && Pending(s, i)
    ensures Enabled(s, a) && (WorkerActs(a) || HolderActs(a))
  {
    hide QueueInv;
    PendingPlace(s, i);
    if s.worker.Locking? || s.worker.Woken? {
      if s.mutex.Free? {
        a := WorkerLock;
      } else {
        a := LeavingTheMutex(s);
      }
    } else {
      match s.worker
      case Dequeued => a := WorkerUnlock;
      case Processing => CurrentTask(s); a := Action.Reply(0, 0);
      case Finished => CurrentTask(s); a := StoreResponse;
      case StoredResponse => CurrentTask(s); a := StoreHeaders;
      case StoredHeaders => CurrentTask(s); a := Release;
      case Posted => a := NextTask;
      case Checking => a := WorkerPass;
      case Passed => a := WorkerDequeue;
      case Sleeping => a := LeavingTheMutex(s);
    }
  }

  lemma LeavingTheMutex(s: State) returns (a: Action)
    requires Inv(s) && s.mutex.ByCaller?
    ensures Enabled(s, a) && HolderActs(a)
  {
    hide QueueInv;
    var k := s.mutex.i;
    assert Standing(s, k);
    a := Caller(k, match s.tasks[k].stage case Holding => Append case Appended => Signal case _ => Unlock);
  }

  // ----- which calls are released -----

  /**
   While a task is pending somebody can take a step that helps it: the worker, whose steps are numbered, or a caller on
   its way out of the mutex, who has at most three. Nobody else's step gives the worker more to do.
   */
  lemma CallsProgress(s: State, i: nat)
    requires Reachable(s) && Pending(s, i)
    ensures exists a :: Enabled(s, a) && (WorkerActs(a) || HolderActs(a))
    ensures forall a :: Enabled(s, a) ==> Remaining(Next(s, a), Ticket(s, i)) <= Remaining(s, Ticket(s, i))
    ensures forall a :: Enabled(s, a) && WorkerActs(a) ==> Remaining(Next(s, a), Ticket(s, i)) < Remaining(s, Ticket(s, i))
    ensures forall a :: Enabled(s, a) && HolderActs(a) ==> HolderWork(Next(s, a)) < HolderWork(s)
  {
    hide Inv, Launched, Remaining, HolderWork, Enabled, Next;
    ReachableLaunched(s);
    var helping := SomeoneHelps(s, i);
    forall a | Enabled(s, a)
      ensures Remaining(Next(s, a), Ticket(s, i)) <= Remaining(s, Ticket(s, i))
      ensures WorkerActs(a) ==> Remaining(Next(s, a), Ticket(s, i)) < Remaining(s, Ticket(s, i))
      ensures HolderActs(a) ==> HolderWork(Next(s, a)) < HolderWork(s)
    {
      StepWork(s, i, a);
      if HolderActs(a) {
        HolderStepWork(s, a);
      }
    }
  }

  function WorkerSteps(actions: seq<Action>): nat {
    if actions == [] then 0 else (if WorkerActs(actions[0]) then 1 else 0) + WorkerSteps(actions[1..])
  }

  lemma {:induction false} ReleasesStay(s: State, actions: seq<Action>, r: State, i: nat)
    requires i < |s.tasks| && IsRun(s, actions, r)
    ensures i < |r.tasks| && s.tasks[i].released <= r.tasks[i].released
    decreases |actions|
  {
    if actions != [] {
      ReleasesStay(Next(s, actions[0]), actions[1..], r, i);
    }
  }

  /** However the threads interleave, a call is released before the worker has made `Remaining` steps, if nobody calls stop(). */
  lemma {:induction false} WorkIsBounded(s: State, i: nat, actions: seq<Action>, r: State)
    requires Inv(s) && Launched(s) && Pending(s, i) && IsRun(s, actions, r)
    requires forall a :: a in actions ==> !StopActs(a)
    requires i < |r.tasks| && r.tasks[i].released == 0
    ensures WorkerSteps(actions) + Remaining(r, Ticket(s, i)) <= Remaining(s, Ticket(s, i))
    decreases |actions|
  {
    hide Inv, Launched, Remaining, Enabled, Next;
    if actions != [] {
      var a, rest := actions[0], actions[1..];
      StepKeepsInv(s, a);
      StepKeepsLaunched(s, a);
      StepWork(s, i, a);
      StepKeepsPending(s, i, a);
      ReleasesStay(Next(s, a), rest, r, i);
      WorkIsBounded(Next(s, a), i, rest, r);
    }
  }

  /** Taking the steps that help leads to the release. */
  lemma {:induction false} PendingIsReleased(s: State, i: nat) returns (actions: seq<Action>, r: State)
    requires Inv(s) && Launched(s) && Pending(s, i)
    ensures IsRun(s, actions, r) && i < |r.tasks| && r.tasks[i].released == 1
    decreases Remaining(s, Ticket(s, i)), HolderWork(s)
  {
    hide Inv, Launched, Remaining, HolderWork, Enabled, Next;
    var a := SomeoneHelps(s, i);
    StepKeepsInv(s, a);
    StepKeepsLaunched(s, a);
    StepKeepsPending(s, i, a);
    StepWork(s, i, a);
    if HolderActs(a) {
      HolderStepWork(s, a);
    }
    if Next(s, a).tasks[i].released == 1 {
      actions, r := [a], Next(s, a);
    } else {
      var rest;
      rest, r := PendingIsReleased(Next(s, a), i);
      actions := [a] + rest;
      assert actions[1..] == rest;
    }
  }

  lemma StoppingStep(s: State, a: Action)
    requires Inv(s) && Launched(s) && Stopping(s) && Enabled(s, a)
    ensures Stopping(Next(s, a)) && Next(s, a).started == s.started
  {
    hide QueueInv, Standing;
  }

  /** Once stop() has the mutex no further task is started. */
  lemma {:induction false} NothingStartsWhileStopping(s: State, actions: seq<Action>, r: State)
    requires Inv(s) && Launched(s) && Stopping(s) && IsRun(s, actions, r)
    ensures Inv(r) && Stopping(r) && r.started == s.started
    decreases |actions|
  {
    hide Inv, Launched, Stopping, Enabled, Next;
    if actions != [] {
      StoppingStep(s, actions[0]);
      StepKeepsInv(s, actions[0]);
      StepKeepsLaunched(s, actions[0]);
      NothingStartsWhileStopping(Next(s, actions[0]), actions[1..], r);
    }
  }

  lemma ReleasedWasStarted(s: State, i: nat)
    requires Inv(s) && i < |s.tasks| && i !in s.started
    ensures s.tasks[i].released == 0 && s.tasks[i].semaphore == 0
  {
    assert Standing(s, i);
    assert forall p :: 0 <= p < |s.started| ==> s.started[p] == s.enqueued[p];
  }

  /** A call whose task was not started before stop() never returns, and one that comes later never does either. */
  lemma NeverReturns(s: State, actions: seq<Action>, r: State, i: nat)
    requires Reachable(s) && Stopping(s) && i !in s.started && IsRun(s, actions, r) && i < |r.tasks|
    ensures r.tasks[i].released == 0 && !r.tasks[i].stage.Acquired? && !r.tasks[i].stage.Done?
    ensures !CallerEnabled(r, i, Acquire)
  {
    hide Launched, QueueInv, WorkerInv;
    ReachableLaunched(s);
    NothingStartsWhileStopping(s, actions, r);
    ReleasedWasStarted(r, i);
    assert Standing(r, i);
  }

  ghost predicate CanBeReleased(s: State, i: nat) {
    exists actions, r :: IsRun(s, actions, r) && i < |r.tasks| && r.tasks[i].released == 1
  }

  /** A call that waits can be released exactly when its task has been started or stop() has not been called. */
  lemma ReleasedExactly(s: State, i: nat)
    requires Reachable(s) && Waiting(s, i)
    ensures CanBeReleased(s, i) <==> i in s.started || !Stopping(s)
  {
    hide Inv, Launched, IsRun, Next, Enabled, Stopping, Reachable;
    if i in s.started || !Stopping(s) {
      ReachableLaunched(s);
      var actions, r := PendingIsReleased(s, i);
    } else if CanBeReleased(s, i) {
      var actions, r :| IsRun(s, actions, r) && i < |r.tasks| && r.tasks[i].released == 1;
      NeverReturns(s, actions, r, i);
    }
  }
}
