/**
 Synchronous calls: callers put tasks into the queue of one worker thread and wait for their task's semaphore.
 One action is one step that no other thread can split; replies from the network come with whatever content they like.
 */
module ClientThread {
  import opened Wrappers

  datatype CallerStage =
    | Before      // about to lock the mutex in enqueue()
    | Holding     // mutex locked
    | Appended    // task appended, condition not yet signalled
    | Signalled   // condition signalled
    | Unlocked    // enqueue() has returned
    | Blocked     // in waitForCompletion()
    | Acquired    // semaphore acquired
    | Done        // response copied, task deleted

  /**
   A KDSoapThreadTaskData and the call that made it. `ticket` is its place in the order of enqueueing, `reply` what the
   network answered to this task's request; `result` is what the call returned.
   */
  datatype Task = Task(
    stage: CallerStage, semaphore: nat, response: Option<nat>, headers: Option<nat>,
    ticket: Option<nat>, reply: Option<(nat, nat)>, released: nat, result: Option<(nat, nat)>)

  const NEW_TASK := Task(Before, 0, None, None, None, None, 0, None)

  datatype WorkerStage =
    | NotRunning | Locking | Checking | Sleeping | Woken | Passed | Dequeued
    | Processing | Finished | StoredResponse | StoredHeaders | Posted | Exited

  datatype StopperStage = NotStopping | StopLocked | StopSet | StopSignalled

  datatype Holder = Free | ByWorker | ByStopper | ByCaller(i: nat)

  /** `enqueued` and `started` log the tasks in the order they were appended and taken. */
  datatype State = State(
    tasks: seq<Task>, queue: seq<nat>, stop: bool, worker: WorkerStage, task: nat, stopper: StopperStage, mutex: Holder,
    enqueued: seq<nat>, started: seq<nat>)

  datatype CallerAction = Lock | Append | Signal | Unlock | StartThread | Acquire | Return

  datatype Action =
    | NewCall
    | Caller(i: nat, act: CallerAction)
    | WorkerLock | WorkerWait | Spurious | WorkerPass | WorkerBreak | WorkerDequeue | WorkerUnlock
    | Reply(response: nat, responseHeaders: nat) | StoreResponse | StoreHeaders | Release | NextTask
    | StopLock | StopSetFlag | StopSignal | StopUnlock

  const START := State([], [], false, NotRunning, 0, NotStopping, Free, [], [])

  predicate CallerEnabled(s: State, i: nat, act: CallerAction) {
    i < |s.tasks| &&
    var t := s.tasks[i];
    match act
    case Lock => t.stage.Before? && s.mutex.Free?
    case Append => t.stage.Holding?
    case Signal => t.stage.Appended?
    case Unlock => t.stage.Signalled?
    case StartThread => t.stage.Unlocked?
    case Acquire => t.stage.Blocked? && t.semaphore > 0
    case Return => t.stage.Acquired? && t.response.Some? && t.headers.Some?
  }

  predicate Enabled(s: State, a: Action) {
    match a
    case NewCall => true
    case Caller(i, act) => CallerEnabled(s, i, act)
    case WorkerLock => (s.worker.Locking? || s.worker.Woken?) && s.mutex.Free?
    case WorkerWait => s.worker.Checking? && !s.stop && s.queue == []
    case Spurious => s.worker.Sleeping?
    case WorkerPass => s.worker.Checking? && (s.stop || s.queue != [])
    case WorkerBreak => s.worker.Passed? && s.stop
    case WorkerDequeue => s.worker.Passed? && !s.stop && s.queue != []
    case WorkerUnlock => s.worker.Dequeued?
    case Reply(_, _) => s.worker.Processing? && s.task < |s.tasks|
    case StoreResponse => s.worker.Finished? && s.task < |s.tasks| && s.tasks[s.task].reply.Some?
    case StoreHeaders => s.worker.StoredResponse? && s.task < |s.tasks| && s.tasks[s.task].reply.Some?
    case Release => s.worker.StoredHeaders? && s.task < |s.tasks|
    case NextTask => s.worker.Posted?
    case StopLock => s.stopper.NotStopping? && s.mutex.Free?
    case StopSetFlag => s.stopper.StopLocked?
    case StopSignal => s.stopper.StopSet?
    case StopUnlock => s.stopper.StopSignalled?
  }

  function SetTask(s: State, i: nat, t: Task): State {
    if i < |s.tasks| then s.(tasks := s.tasks[i := t]) else s
  }

  function Wake(w: WorkerStage): WorkerStage {
    if w.Sleeping? then Woken else w
  }

  function NextCaller(s: State, i: nat, act: CallerAction): State
    requires CallerEnabled(s, i, act)
  {
    var t := s.tasks[i];
    match act
    case Lock => SetTask(s.(mutex := ByCaller(i)), i, t.(stage := Holding))
    case Append =>
      SetTask(s.(queue := s.queue + [i], enqueued := s.enqueued + [i]), i, t.(stage := Appended, ticket := Some(|s.enqueued|)))
    case Signal => SetTask(s.(worker := Wake(s.worker)), i, t.(stage := Signalled))
    case Unlock => SetTask(s.(mutex := Free), i, t.(stage := Unlocked))
    case StartThread =>
      SetTask(s.(worker := if s.worker.NotRunning? || s.worker.Exited? then Locking else s.worker), i, t.(stage := Blocked))
    case Acquire => SetTask(s, i, t.(stage := Acquired, semaphore := t.semaphore - 1))
    case Return => SetTask(s, i, t.(stage := Done, result := Some((t.response.value, t.headers.value))))
  }

  function Next(s: State, a: Action): State
    requires Enabled(s, a)
  {
    match a
    case NewCall => s.(tasks := s.tasks + [NEW_TASK])
    case Caller(i, act) => NextCaller(s, i, act)
    case WorkerLock => s.(worker := Checking, mutex := ByWorker)
    case WorkerWait => s.(worker := Sleeping, mutex := Free)
    case Spurious => s.(worker := Woken)
    case WorkerPass => s.(worker := Passed)
    case WorkerBreak => s.(worker := Exited, mutex := Free)
    case WorkerDequeue => s.(worker := Dequeued, task := s.queue[0], queue := s.queue[1..], started := s.started + [s.queue[0]])
    case WorkerUnlock => s.(worker := Processing, mutex := Free)
    case Reply(r, h) => SetTask(s.(worker := Finished), s.task, s.tasks[s.task].(reply := Some((r, h))))
    case StoreResponse =>
      SetTask(s.(worker := StoredResponse), s.task, s.tasks[s.task].(response := Some(s.tasks[s.task].reply.value.0)))
    case StoreHeaders =>
      SetTask(s.(worker := StoredHeaders), s.task, s.tasks[s.task].(headers := Some(s.tasks[s.task].reply.value.1)))
    case Release =>
      var t := s.tasks[s.task];
      SetTask(s.(worker := Posted), s.task, t.(semaphore := t.semaphore + 1, released := t.released + 1))
    case NextTask => s.(worker := Locking)
    case StopLock => s.(stopper := StopLocked, mutex := ByStopper)
    case StopSetFlag => s.(stopper := StopSet, stop := true)
    case StopSignal => s.(stopper := StopSignalled, worker := Wake(s.worker))
    case StopUnlock => s.(stopper := NotStopping, mutex := Free)
  }

  ghost predicate IsRun(s: State, actions: seq<Action>, r: State)
    decreases |actions|
  {
    if actions == [] then r == s else Enabled(s, actions[0]) && IsRun(Next(s, actions[0]), actions[1..], r)
  }

  // ----- the invariant -----

  /** The worker has a task in hand whose semaphore it has not released yet. */
  predicate Busy(w: WorkerStage) {
    w.Dequeued? || w.Processing? || w.Finished? || w.StoredResponse? || w.StoredHeaders?
  }

  predicate Untouched(t: Task) {
    t.semaphore == 0 && t.response.None? && t.headers.None? && t.reply.None? && t.released == 0
  }

  /** A task the worker has started on: what has been stored so far is the reply. */
  predicate InHand(w: WorkerStage, t: Task) {
    && t.semaphore == 0 && t.released == 0
    && (w.Finished? || w.StoredResponse? || w.StoredHeaders? ==> t.reply.Some?)
    && (w.StoredResponse? || w.StoredHeaders? ==> t.response == Some(t.reply.value.0))
    && (w.StoredHeaders? ==> t.headers == Some(t.reply.value.1))
  }

  predicate Answered(t: Task) {
    && t.released == 1 && t.reply.Some? && t.response == Some(t.reply.value.0) && t.headers == Some(t.reply.value.1)
    && t.semaphore == (if t.stage.Acquired? || t.stage.Done? then 0 else 1)
    && (t.stage.Done? ==> t.result == t.reply)
  }

  /** Where task `i` stands, given the log of enqueued tasks, how many of them were started, the worker and the mutex. */
  predicate TaskInv(log: seq<nat>, n: nat, w: WorkerStage, inHand: nat, mutex: Holder, i: nat, t: Task) {
    && (t.ticket.None? <==> t.stage.Before? || t.stage.Holding?)
    && (t.ticket.Some? ==> t.ticket.value < |log| && log[t.ticket.value] == i)
    && (if t.ticket.None? || t.ticket.value >= n then Untouched(t)
        else if t.ticket.value == n - 1 && Busy(w) then inHand == i && InHand(w, t)
        else Answered(t))
    && (mutex == ByCaller(i) <==> t.stage.Holding? || t.stage.Appended? || t.stage.Signalled?)
    && (t.stage.Acquired? || t.stage.Done? ==> t.released == 1)
  }

  predicate Standing(s: State, i: nat)
    requires i < |s.tasks|
  {
    TaskInv(s.enqueued, |s.started|, s.worker, s.task, s.mutex, i, s.tasks[i])
  }

  predicate QueueInv(s: State) {
    && |s.started| <= |s.enqueued|
    && s.started == s.enqueued[..|s.started|] && s.queue == s.enqueued[|s.started|..]
    && (forall p :: 0 <= p < |s.enqueued| ==> s.enqueued[p] < |s.tasks| && s.tasks[s.enqueued[p]].ticket == Some(p))
  }

  predicate WorkerInv(s: State) {
    && (s.mutex.ByWorker? <==> s.worker.Checking? || s.worker.Passed? || s.worker.Dequeued?)
    && (s.mutex.ByStopper? <==> !s.stopper.NotStopping?)
    && (s.mutex.ByCaller? ==> s.mutex.i < |s.tasks|)
    && (Busy(s.worker) ==> s.started != [] && s.task == s.started[|s.started| - 1])
    && (s.worker.Passed? ==> s.stop || s.queue != [])
    && (s.worker.Sleeping? ==>
          && (s.queue == [] || (s.mutex.ByCaller? && s.tasks[s.mutex.i].stage.Appended?))
          && (s.stop ==> s.stopper.StopSet?))
  }

  ghost predicate Inv(s: State) {
    QueueInv(s) && WorkerInv(s) && forall i :: 0 <= i < |s.tasks| ==> Standing(s, i)
  }

  /** A step of one caller leaves the other callers' tasks where they stand. */
  lemma CallerKeepsOther(s: State, i: nat, act: CallerAction, j: nat)
    requires Inv(s) && CallerEnabled(s, i, act) && j < |s.tasks| && j != i
    ensures Standing(NextCaller(s, i, act), j)
  {
    hide InHand, Answered, Untouched, QueueInv;
    assert Standing(s, i) && Standing(s, j);
  }

  lemma CallerKeepsOwn(s: State, i: nat, act: CallerAction)
    requires Inv(s) && CallerEnabled(s, i, act)
    ensures Standing(NextCaller(s, i, act), i)
  {
    assert Standing(s, i);
  }

  lemma CallerKeepsTask(s: State, i: nat, act: CallerAction, j: nat)
    requires Inv(s) && CallerEnabled(s, i, act) && j < |s.tasks|
    ensures Standing(NextCaller(s, i, act), j)
  {
    hide *;
    if i == j {
      CallerKeepsOwn(s, i, act);
    } else {
      CallerKeepsOther(s, i, act, j);
    }
  }

  lemma CallerKeepsQueue(s: State, i: nat, act: CallerAction)
    requires Inv(s) && CallerEnabled(s, i, act)
    ensures QueueInv(NextCaller(s, i, act))
  {
    hide InHand, Answered, Untouched, WorkerInv;
    assert Standing(s, i);
    var r := NextCaller(s, i, act);
    if act.Append? {
      var n := |s.enqueued|;
      assert s.queue + [i] == r.enqueued[|s.started|..];
      forall p | 0 <= p < n ensures r.enqueued[p] < |r.tasks| && r.tasks[r.enqueued[p]].ticket == Some(p) {
        assert r.enqueued[p] == s.enqueued[p];
      }
    }
  }

  lemma CallerKeepsWorker(s: State, i: nat, act: CallerAction)
    requires Inv(s) && CallerEnabled(s, i, act)
    ensures WorkerInv(NextCaller(s, i, act))
  {
    hide InHand, Answered, Untouched;
    assert Standing(s, i);
  }

  /** The worker is busy with the task started last. */
  lemma CurrentTask(s: State)
    requires Inv(s) && Busy(s.worker)
    ensures s.task < |s.tasks| && |s.started| > 0 && s.tasks[s.task].ticket == Some(|s.started| - 1)
    ensures Standing(s, s.task)
  {
    var n := |s.started| - 1;
    assert s.started[n] == s.enqueued[n];
  }

  predicate Stores(a: Action) {
    a.Reply? || a.StoreResponse? || a.StoreHeaders? || a.Release?
  }

  lemma StoreKeepsTask(s: State, a: Action, j: nat)
    requires Inv(s) && Enabled(s, a) && Stores(a) && j < |s.tasks|
    ensures Standing(Next(s, a), j)
  {
    hide QueueInv, WorkerInv;
    CurrentTask(s);
    assert Standing(s, j);
  }

  lemma StoreKeepsRest(s: State, a: Action)
    requires Inv(s) && Enabled(s, a) && Stores(a)
    ensures QueueInv(Next(s, a)) && WorkerInv(Next(s, a))
  {
    hide InHand, Answered, Untouched;
    CurrentTask(s);
  }

  lemma DequeueKeepsTask(s: State, j: nat)
    requires Inv(s) && Enabled(s, WorkerDequeue) && j < |s.tasks|
    ensures Standing(Next(s, WorkerDequeue), j)
  {
    hide InHand, Answered;
    assert Standing(s, j);
    assert s.queue[0] == s.enqueued[|s.started|];
    StartsUntouched(s.tasks[j]);
  }

  lemma StartsUntouched(t: Task)
    ensures Untouched(t) ==> InHand(Dequeued, t)
  {
  }

  /** Steps that touch neither tasks nor the logs, but may lock, unlock, sleep or wake. */
  lemma OtherKeepsTask(s: State, a: Action, j: nat)
    requires Inv(s) && Enabled(s, a) && !Stores(a) && !a.Caller? && !a.NewCall? && !a.WorkerDequeue? && j < |s.tasks|
    ensures Standing(Next(s, a), j)
  {
    hide InHand, Answered, Untouched, QueueInv;
    assert Standing(s, j);
    StartsProcessing(s.tasks[j]);
  }

  lemma StartsProcessing(t: Task)
    ensures InHand(Dequeued, t) == InHand(Processing, t)
  {
  }

  lemma NewCallKeepsTask(s: State, j: nat)
    requires Inv(s) && j <= |s.tasks|
    ensures Standing(Next(s, NewCall), j)
  {
    hide InHand, Answered, QueueInv;
    if j < |s.tasks| {
      assert Standing(s, j);
    }
  }

  lemma OtherKeepsQueue(s: State, a: Action)
    requires Inv(s) && Enabled(s, a) && !Stores(a) && !a.Caller?
    ensures QueueInv(Next(s, a))
  {
    hide InHand, Answered, Untouched, WorkerInv, Standing;
    if a.WorkerDequeue? {
      var n := |s.started|;
      assert s.queue[0] == s.enqueued[n];
      assert s.enqueued[..n + 1] == s.enqueued[..n] + [s.enqueued[n]];
    }
  }

  lemma OtherKeepsWorker(s: State, a: Action)
    requires Inv(s) && Enabled(s, a) && !Stores(a) && !a.Caller?
    ensures WorkerInv(Next(s, a))
  {
    hide QueueInv, InHand, Answered, Untouched;
    if s.mutex.ByCaller? && s.mutex.i < |s.tasks| {
      assert Standing(s, s.mutex.i);
    }
  }

  lemma StepKeepsInv(s: State, a: Action)
    requires Inv(s) && Enabled(s, a)
    ensures Inv(Next(s, a))
  {
    hide Standing, QueueInv, WorkerInv;
    var r := Next(s, a);
    forall j | 0 <= j < |r.tasks| ensures Standing(r, j) {
      if a.Caller? {
        CallerKeepsTask(s, a.i, a.act, j);
      } else if Stores(a) {
        StoreKeepsTask(s, a, j);
      } else if a.NewCall? {
        NewCallKeepsTask(s, j);
      } else if a.WorkerDequeue? {
        DequeueKeepsTask(s, j);
      } else {
        OtherKeepsTask(s, a, j);
      }
    }
    if a.Caller? {
      CallerKeepsQueue(s, a.i, a.act);
      CallerKeepsWorker(s, a.i, a.act);
    } else if Stores(a) {
      StoreKeepsRest(s, a);
    } else {
      OtherKeepsQueue(s, a);
      OtherKeepsWorker(s, a);
    }
  }

  lemma {:induction false} RunKeepsInv(s: State, actions: seq<Action>, r: State)
    requires Inv(s) && IsRun(s, actions, r)
    ensures Inv(r)
    decreases |actions|
  {
    hide Inv;
    if actions != [] {
      StepKeepsInv(s, actions[0]);
      RunKeepsInv(Next(s, actions[0]), actions[1..], r);
    }
  }

  ghost predicate Reachable(s: State) {
    exists actions :: IsRun(START, actions, s)
  }

  lemma ReachableInv(s: State)
    requires Reachable(s)
    ensures Inv(s)
  {
    var actions :| IsRun(START, actions, s);
    RunKeepsInv(START, actions, s);
  }

  // ----- what callers can rely on -----

  /** Tasks are started in the order they were enqueued, and what has not been started is the queue. */
  lemma StartedInOrder(s: State)
    requires Reachable(s)
    ensures s.enqueued == s.started + s.queue
    ensures forall p, q :: 0 <= p < q < |s.enqueued| ==> s.enqueued[p] != s.enqueued[q]
  {
    ReachableInv(s);
  }

  /** A call returns what the network answered to that call's own request. */
  lemma OwnResponse(s: State, i: nat)
    requires Reachable(s) && i < |s.tasks| && s.tasks[i].stage.Done?
    ensures s.tasks[i].result.Some? && s.tasks[i].result == s.tasks[i].reply
  {
    ReachableInv(s);
    assert Standing(s, i);
  }

  /** The semaphore is released once, with response and headers in place; then the call can go on to return. */
  lemma ReleasedOnce(s: State, i: nat)
    requires Reachable(s) && i < |s.tasks|
    ensures var t := s.tasks[i];
            && t.released <= 1
            && (t.released == 1 ==> t.reply.Some? && t.response == Some(t.reply.value.0) && t.headers == Some(t.reply.value.1))
            && (t.stage.Acquired? ==> CallerEnabled(s, i, Return))
            && (t.stage.Blocked? ==> (t.released == 1 <==> CallerEnabled(s, i, Acquire)))
  {
    ReachableInv(s);
    assert Standing(s, i);
  }

  /** The worker never works on a task whose call has returned. */
  lemma NeverDeleted(s: State)
    requires Reachable(s) && Busy(s.worker)
    ensures s.task < |s.tasks| && !s.tasks[s.task].stage.Acquired? && !s.tasks[s.task].stage.Done?
  {
    ReachableInv(s);
    CurrentTask(s);
  }

  /** A worker asleep beside a filled queue, or with the stop flag set, is about to be woken. */
  lemma NoLostWakeup(s: State)
    requires Reachable(s) && s.worker.Sleeping? && (s.queue != [] || s.stop)
    ensures exists a :: Enabled(s, a) && (a == StopSignal || (a.Caller? && a.act.Signal?)) && Next(s, a).worker == Woken
  {
    hide InHand, Answered, Untouched;
    ReachableInv(s);
    if s.stop {
      assert Enabled(s, StopSignal) && Next(s, StopSignal).worker == Woken;
    } else {
      assert Enabled(s, Caller(s.mutex.i, Signal)) && Next(s, Caller(s.mutex.i, Signal)).worker == Woken;
    }
  }

  /** After stop() has set its flag no task is started any more. */
  lemma {:induction false} NothingStartsAfterStop(s: State, actions: seq<Action>, r: State)
    requires s.stop && IsRun(s, actions, r)
    ensures r.stop && r.started == s.started
    decreases |actions|
  {
    if actions != [] {
      NothingStartsAfterStop(Next(s, actions[0]), actions[1..], r);
    }
  }
}
