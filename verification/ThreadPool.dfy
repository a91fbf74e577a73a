/**
 The server's thread pool as a concurrent protocol: the main thread, and workers that each own a FIFO event queue,
 a mutex, socket lists and an atomic counter of connections on their way. One action is one step that no other
 thread can split.
 */
module ThreadPool {
  import ServerThread
  import opened SocketLists
  import opened Wrappers

  datatype Event = Connect(server: nat) | Disconnect(server: nat)

  /** Where a worker is in the slot it runs. All stages but Idle hold the thread's mutex. */
  datatype Stage = Idle | Connecting | Inserted | Counted | Clearing | Cleared | Released

  datatype Holder = Free | ByMain | ByWorker

  /**
   A pool thread. `up` is set when its event loop object exists. The last three fields only observe: connections
   handed to the thread, sockets closed, and how often it released the semaphore of the current barrier.
   */
  datatype Thread = Thread(
    up: bool, lists: seq<SocketList>, nextSocket: nat, pending: int, queue: seq<Event>, stage: Stage, current: Event, mutex: Holder,
    handed: nat, closed: nat, released: nat)

  const NEW_THREAD := Thread(false, [], 0, 0, [], Idle, Connect(0), Free, 0, 0, 0)

  datatype Phase =
    | AtRest      // in the event loop
    | Scanning    // chooseNextThread, about to look at thread i
    | Holding     // inside socketCount(), thread i's mutex taken
    | Summed      // the lists have been added up
    | Starting    // waiting for the new thread to start
    | Chosen      // a thread has been chosen, its counter not yet raised
    | Raised      // the counter raised, the event not yet posted
    | Posting     // disconnectSockets, about to post to thread i
    | Waiting     // acquiring the semaphore once per thread

  /** The main thread; `closedSeen` observes the closed count at the time the lists were added up. */
  datatype Main = Main(phase: Phase, server: nat, i: nat, best: Option<nat>, min: int, sum: int, closedSeen: nat)

  datatype Pool = Pool(threads: seq<Thread>, main: Main, maxThreads: int, permits: nat)

  datatype MainAction =
    | Incoming(newServer: nat) | Lock | Sum | Count | Choose | Started | Raise | Post
    | Suspend(suspended: nat) | PostDisconnect | StartWaiting | Return
    | SetMax(max: int)

  datatype WorkerAction = Boot | Take | Insert | Lower | Clear | Release | Unlock | PeerClose(of: nat, socket: nat)

  datatype Action = OfMain(act: MainAction) | OfWorker(t: nat, step: WorkerAction)

  function Start(maxThreads: int): Pool {
    Pool([], Main(AtRest, 0, 0, None, 0, 0, 0), maxThreads, 0)
  }

  predicate MainEnabled(p: Pool, a: MainAction) {
    var m, n := p.main, |p.threads|;
    match a
    case Incoming(_) => m.phase.AtRest?
    case Lock => m.phase.Scanning? && m.i < n && p.threads[m.i].mutex.Free?
    case Sum => m.phase.Holding? && m.i < n
    case Count => m.phase.Summed? && m.i < n
    case Choose => m.phase.Scanning? && m.i >= n
    case Started => m.phase.Starting? && m.i < n && p.threads[m.i].up
    case Raise => m.phase.Chosen? && m.i < n
    case Post => m.phase.Raised? && m.i < n
    case Suspend(_) => m.phase.AtRest?
    case PostDisconnect => m.phase.Posting? && m.i < n
    case StartWaiting => m.phase.Posting? && m.i >= n
    case Return => m.phase.Waiting? && p.permits >= n
    case SetMax(_) => m.phase.AtRest?
  }

  predicate WorkerEnabled(t: Thread, a: WorkerAction) {
    match a
    case Boot => !t.up
    case Take => t.up && t.stage.Idle? && t.queue != [] && t.mutex.Free?
    case Insert => t.stage.Connecting?
    case Lower => t.stage.Inserted?
    case Clear => t.stage.Clearing?
    case Release => t.stage.Cleared?
    case Unlock => t.stage.Counted? || t.stage.Released?
    case PeerClose(server, socket) => t.up && t.stage.Idle? && socket in SocketsOf(t.lists, server)
  }

  predicate Enabled(p: Pool, a: Action) {
    match a
    case OfMain(act) => MainEnabled(p, act)
    case OfWorker(t, step) => t < |p.threads| && WorkerEnabled(p.threads[t], step)
  }

  /** One look at a thread's load: an idle thread is taken at once, otherwise the least loaded so far is remembered. */
  function Consider(m: Main, load: int): Main {
    if load == 0 then m.(phase := Chosen)
    else if m.best.None? || load < m.min then m.(phase := Scanning, best := Some(m.i), min := load, i := m.i + 1)
    else m.(phase := Scanning, i := m.i + 1)
  }

  /** The end of chooseNextThread: the least loaded thread of a full pool, or a new thread. */
  function ChooseThread(p: Pool): Pool {
    if p.main.best.Some? && |p.threads| == p.maxThreads then p.(main := p.main.(phase := Chosen, i := p.main.best.value))
    else p.(threads := p.threads + [NEW_THREAD], main := p.main.(phase := Starting, i := |p.threads|))
  }

  function SetThread(p: Pool, k: nat, t: Thread): Pool
    requires k < |p.threads|
  {
    p.(threads := p.threads[k := t])
  }

  function NextMain(p: Pool, a: MainAction): Pool
    requires MainEnabled(p, a)
  {
    var m, k := p.main, p.main.i;
    match a
    case Incoming(server) => p.(main := Main(Scanning, server, 0, None, 0, 0, 0))
    case Lock => SetThread(p.(main := m.(phase := Holding)), k, p.threads[k].(mutex := ByMain))
    case Sum => p.(main := m.(phase := Summed, sum := Total(p.threads[k].lists), closedSeen := p.threads[k].closed))
    case Count => SetThread(p.(main := Consider(m, m.sum + p.threads[k].pending)), k, p.threads[k].(mutex := Free))
    case Choose => ChooseThread(p)
    case Started => p.(main := m.(phase := Chosen))
    case Raise =>
      SetThread(p.(main := m.(phase := Raised)), k, p.threads[k].(pending := p.threads[k].pending + 1, handed := p.threads[k].handed + 1))
    case Post => SetThread(p.(main := m.(phase := AtRest)), k, p.threads[k].(queue := p.threads[k].queue + [Connect(m.server)]))
    case Suspend(server) =>
      p.(main := Main(Posting, server, 0, None, 0, 0, 0), permits := 0,
         threads := seq(|p.threads|, j requires 0 <= j < |p.threads| => p.threads[j].(released := 0)))
    case PostDisconnect =>
      if p.threads[k].up
      then SetThread(p.(main := m.(i := k + 1)), k, p.threads[k].(queue := p.threads[k].queue + [Disconnect(m.server)]))
      else p.(main := m.(i := k + 1))
    case StartWaiting => p.(main := m.(phase := Waiting))
    case Return => p.(main := m.(phase := AtRest), permits := p.permits - |p.threads|)
    case SetMax(max) => p.(maxThreads := max)
  }

  /** One step of a worker. */
  function WorkerStep(t: Thread, a: WorkerAction): Thread
    requires WorkerEnabled(t, a)
  {
    match a
    case Boot => t.(up := true)
    case Take => t.(queue := t.queue[1..], current := t.queue[0], stage := if t.queue[0].Connect? then Connecting else Clearing, mutex := ByWorker)
    case Insert => t.(lists := AddSocket(t.lists, t.current.server, t.nextSocket), nextSocket := t.nextSocket + 1, stage := Inserted)
    case Lower => t.(pending := t.pending - 1, stage := Counted)
    case Clear =>
      t.(lists := KeepOnly(t.lists, t.current.server, {}), closed := t.closed + |SocketsOf(t.lists, t.current.server)|, stage := Cleared)
    case Release => t.(released := t.released + 1, stage := Released)
    case Unlock => t.(stage := Idle, mutex := Free)
    case PeerClose(server, socket) =>
      t.(lists := KeepOnly(t.lists, server, SocketsOf(t.lists, server) - {socket}), closed := t.closed + 1)
  }

  function Next(p: Pool, a: Action): Pool
    requires Enabled(p, a)
  {
    match a
    case OfMain(act) => NextMain(p, act)
    case OfWorker(t, step) =>
      SetThread(p.(permits := p.permits + if step.Release? then 1 else 0), t, WorkerStep(p.threads[t], step))
  }

  /** Every run, from a new pool. */
  ghost predicate IsRun(p: Pool, actions: seq<Action>, q: Pool)
    decreases |actions|
  {
    if actions == [] then q == p
    else Enabled(p, actions[0]) && IsRun(Next(p, actions[0]), actions[1..], q)
  }

  // ----- the invariant -----

  function Connects(queue: seq<Event>): nat {
    if queue == [] then 0 else (if queue[0].Connect? then 1 else 0) + Connects(queue[1..])
  }

  predicate OnlyConnects(queue: seq<Event>) {
    forall i :: 0 <= i < |queue| ==> queue[i].Connect?
  }

  predicate Registering(t: Thread) {
    t.stage.Connecting? || t.stage.Inserted?
  }

  /** Nothing handed over is missed or counted twice. */
  predicate Accounts(m: Main, k: nat, t: Thread) {
    && Total(t.lists) + t.pending + t.closed == t.handed + (if t.stage.Inserted? then 1 else 0)
    && t.pending == Connects(t.queue) + (if Registering(t) then 1 else 0) + (if m.phase.Raised? && m.i == k then 1 else 0)
    && OneListEach(t.lists) && IdsBelow(t.lists, t.nextSocket)
    && (m.phase.Summed? && m.i == k ==> m.sum + t.pending + m.closedSeen == t.handed && m.closedSeen <= t.closed)
  }

  predicate MutexHeld(m: Main, k: nat, t: Thread) {
    && (t.mutex.ByMain? <==> (m.phase.Holding? || m.phase.Summed?) && m.i == k)
    && (t.mutex.ByWorker? <==> !t.stage.Idle?)
    && (Registering(t) || t.stage.Counted? ==> t.current.Connect?)
    && (t.stage.Clearing? || t.stage.Cleared? ==> t.current.Disconnect?)
  }

  /** Only the thread being started is not up, and nothing has been given to it. */
  predicate Awake(m: Main, n: nat, k: nat, t: Thread) {
    !t.up ==> m.phase.Starting? && m.i == k && t == NEW_THREAD
  }

  predicate InBarrier(m: Main) {
    m.phase.Posting? || m.phase.Waiting?
  }

  predicate NotDisconnecting(t: Thread) {
    OnlyConnects(t.queue) && !t.stage.Clearing? && !t.stage.Cleared?
  }

  /** A thread that has been sent its disconnect event: it is queued last, or being handled, or done with. */
  predicate Sent(server: nat, t: Thread) {
    var n := |t.queue|;
    if t.released == 0 then
      || (n > 0 && t.queue[n - 1] == Disconnect(server) && OnlyConnects(t.queue[..n - 1]) && !t.stage.Clearing? && !t.stage.Cleared?)
      || (n == 0 && (t.stage.Clearing? || t.stage.Cleared?) && t.current == Disconnect(server)
          && (t.stage.Cleared? ==> SocketsOf(t.lists, server) == {}))
    else t.released == 1 && n == 0 && (t.stage.Idle? || t.stage.Released?) && SocketsOf(t.lists, server) == {}
  }

  predicate Barrier(m: Main, k: nat, t: Thread) {
    if InBarrier(m) then (if k < m.i then Sent(m.server, t) else t.released == 0 && NotDisconnecting(t)) else NotDisconnecting(t)
  }

  predicate ThreadInv(m: Main, n: nat, k: nat, t: Thread) {
    Accounts(m, k, t) && MutexHeld(m, k, t) && Awake(m, n, k, t) && Barrier(m, k, t)
  }

  predicate MainInv(m: Main, n: nat) {
    && (m.phase.Scanning? || m.phase.Posting? ==> m.i <= n)
    && (m.phase.Holding? || m.phase.Summed? || m.phase.Starting? || m.phase.Chosen? || m.phase.Raised? ==> m.i < n)
    && (m.phase.Starting? ==> m.i == n - 1)
    && (m.phase.Waiting? ==> m.i == n)
    && (m.best.Some? && (m.phase.Scanning? || m.phase.Holding? || m.phase.Summed?) ==> m.best.value < m.i)
    && (m.best.None? && (m.phase.Scanning? || m.phase.Holding? || m.phase.Summed?) ==> m.i == 0)
  }

  function AllReleased(threads: seq<Thread>): nat {
    if threads == [] then 0 else AllReleased(threads[..|threads| - 1]) + threads[|threads| - 1].released
  }

  ghost predicate Inv(p: Pool) {
    && MainInv(p.main, |p.threads|)
    && (forall k :: 0 <= k < |p.threads| ==> ThreadInv(p.main, |p.threads|, k, p.threads[k]))
    && (InBarrier(p.main) ==> p.permits == AllReleased(p.threads))
  }

  // ----- every step keeps the invariant -----

  lemma {:induction false} ConnectsSnoc(queue: seq<Event>, e: Event)
    ensures Connects(queue + [e]) == Connects(queue) + if e.Connect? then 1 else 0
  {
    if queue == [] {
      assert [e][1..] == [] && queue + [e] == [e];
    } else {
      assert (queue + [e])[1..] == queue[1..] + [e];
      ConnectsSnoc(queue[1..], e);
    }
  }

  lemma {:induction false} ReleasedUpdate(threads: seq<Thread>, k: nat, t: Thread)
    requires k < |threads|
    ensures AllReleased(threads[k := t]) + threads[k].released == AllReleased(threads) + t.released
  {
    var n := |threads| - 1;
    if k < n {
      ReleasedUpdate(threads[..n], k, t);
      assert threads[k := t][..n] == threads[..n][k := t];
    } else {
      assert threads[k := t][..n] == threads[..n];
    }
  }

  lemma TakeKeeps(m: Main, n: nat, k: nat, t: Thread)
    requires ThreadInv(m, n, k, t) && WorkerEnabled(t, Take)
    ensures ThreadInv(m, n, k, WorkerStep(t, Take))
  {
    var r := WorkerStep(t, Take);
    assert t.queue == [t.queue[0]] + r.queue;
    if |t.queue| > 1 {
      assert r.queue[|r.queue| - 1] == t.queue[|t.queue| - 1];
      assert r.queue[..|r.queue| - 1] == t.queue[..|t.queue| - 1][1..];
      assert t.queue[..|t.queue| - 1][0] == t.queue[0];
    }
  }

  lemma InsertKeeps(m: Main, n: nat, k: nat, t: Thread)
    requires ThreadInv(m, n, k, t) && WorkerEnabled(t, Insert)
    ensures ThreadInv(m, n, k, WorkerStep(t, Insert))
  {
    hide AddSocket, KeepOnly, Total, OneListEach, IdsBelow, Connects, SocketsOf, OnlyConnects;
    AddingSocket(t.lists, t.current.server, t.nextSocket);
  }

  lemma ClearKeeps(m: Main, n: nat, k: nat, t: Thread)
    requires ThreadInv(m, n, k, t) && WorkerEnabled(t, Clear)
    ensures ThreadInv(m, n, k, WorkerStep(t, Clear))
  {
    hide AddSocket, KeepOnly, Total, OneListEach, IdsBelow, Connects, SocketsOf, OnlyConnects;
    var s := SocketsOf(t.lists, t.current.server);
    DroppingSockets(t.lists, t.current.server, {}, t.nextSocket);
    assert s - {} == s && s * {} == {};
  }

  lemma PeerCloseKeeps(m: Main, n: nat, k: nat, t: Thread, server: nat, socket: nat)
    requires ThreadInv(m, n, k, t) && WorkerEnabled(t, PeerClose(server, socket))
    ensures ThreadInv(m, n, k, WorkerStep(t, PeerClose(server, socket)))
  {
    hide AddSocket, KeepOnly, Total, OneListEach, IdsBelow, Connects, SocketsOf, OnlyConnects;
    var s := SocketsOf(t.lists, server);
    DroppingSockets(t.lists, server, s - {socket}, t.nextSocket);
    assert s - (s - {socket}) == {socket} && s * (s - {socket}) == s - {socket};
    assert s != {};
  }

  lemma WorkerKeeps(m: Main, n: nat, k: nat, t: Thread, a: WorkerAction)
    requires ThreadInv(m, n, k, t) && WorkerEnabled(t, a)
    ensures ThreadInv(m, n, k, WorkerStep(t, a))
  {
    hide AddSocket, KeepOnly, Total, OneListEach, IdsBelow, Connects, SocketsOf;
    match a
    case Take => TakeKeeps(m, n, k, t);
    case Insert => InsertKeeps(m, n, k, t);
    case Clear => ClearKeeps(m, n, k, t);
    case PeerClose(server, socket) => PeerCloseKeeps(m, n, k, t, server, socket);
    case _ =>
  }

  lemma WorkerStepKeepsInv(p: Pool, k: nat, step: WorkerAction)
    requires Inv(p) && Enabled(p, OfWorker(k, step))
    ensures Inv(Next(p, OfWorker(k, step)))
  {
    hide ThreadInv, WorkerEnabled;
    WorkerKeeps(p.main, |p.threads|, k, p.threads[k], step);
    ReleasedUpdate(p.threads, k, WorkerStep(p.threads[k], step));
  }

  predicate Hands(a: MainAction) {
    a.Raise? || a.Post?
  }

  predicate Barriers(a: MainAction) {
    a.Suspend? || a.PostDisconnect? || a.StartWaiting? || a.Return?
  }

  lemma ScanKeepsThread(p: Pool, a: MainAction, j: nat)
    requires Inv(p) && MainEnabled(p, a) && j < |p.threads| && !Hands(a) && !Barriers(a)
    ensures var q := NextMain(p, a); j < |q.threads| && ThreadInv(q.main, |q.threads|, j, q.threads[j])
  {
    hide AddSocket, KeepOnly, Total, OneListEach, IdsBelow, Connects, SocketsOf, OnlyConnects;
    assert ThreadInv(p.main, |p.threads|, j, p.threads[j]);
  }

  lemma HandKeepsThread(p: Pool, a: MainAction, j: nat)
    requires Inv(p) && MainEnabled(p, a) && j < |p.threads| && Hands(a)
    ensures var q := NextMain(p, a); j < |q.threads| && ThreadInv(q.main, |q.threads|, j, q.threads[j])
  {
    hide AddSocket, KeepOnly, Total, OneListEach, IdsBelow, Connects, SocketsOf, Sent;
    assert ThreadInv(p.main, |p.threads|, j, p.threads[j]);
    ConnectsSnoc(p.threads[j].queue, Connect(p.main.server));
  }

  lemma BarrierKeepsThread(p: Pool, a: MainAction, j: nat)
    requires Inv(p) && MainEnabled(p, a) && j < |p.threads| && Barriers(a)
    ensures var q := NextMain(p, a); j < |q.threads| && ThreadInv(q.main, |q.threads|, j, q.threads[j])
  {
    hide AddSocket, KeepOnly, Total, OneListEach, IdsBelow, Connects, SocketsOf, AllReleased;
    assert ThreadInv(p.main, |p.threads|, j, p.threads[j]);
    if a.PostDisconnect? {
      PostKeepsThread(p, j);
    } else if a.Return? {
      AllReleasedOnce(p);
      assert p.threads[j].released == 1;
    }
  }

  lemma PostKeepsThread(p: Pool, j: nat)
    requires Inv(p) && MainEnabled(p, PostDisconnect) && j < |p.threads|
    ensures var q := NextMain(p, PostDisconnect); j < |q.threads| && ThreadInv(q.main, |q.threads|, j, q.threads[j])
  {
    hide AddSocket, KeepOnly, Total, OneListEach, IdsBelow, Connects, SocketsOf, AllReleased;
    var t := p.threads[j];
    assert ThreadInv(p.main, |p.threads|, j, t);
    ConnectsSnoc(t.queue, Disconnect(p.main.server));
    assert (t.queue + [Disconnect(p.main.server)])[..|t.queue|] == t.queue;
  }

  /** What a step of the main thread means for one thread of the pool. */
  lemma MainKeepsThread(p: Pool, a: MainAction, j: nat)
    requires Inv(p) && MainEnabled(p, a) && j < |p.threads|
    ensures var q := NextMain(p, a); j < |q.threads| && ThreadInv(q.main, |q.threads|, j, q.threads[j])
  {
    hide *;
    if Hands(a) {
      HandKeepsThread(p, a, j);
    } else if Barriers(a) {
      BarrierKeepsThread(p, a, j);
    } else {
      ScanKeepsThread(p, a, j);
    }
  }

  lemma {:induction false} ReleasedBound(threads: seq<Thread>)
    requires forall k :: 0 <= k < |threads| ==> threads[k].released <= 1
    ensures AllReleased(threads) <= |threads|
    ensures AllReleased(threads) == |threads| ==> forall k :: 0 <= k < |threads| ==> threads[k].released == 1
  {
    if threads != [] {
      ReleasedBound(threads[..|threads| - 1]);
    }
  }

  /** When the semaphore can be acquired, every thread has released it exactly once. */
  lemma AllReleasedOnce(p: Pool)
    requires Inv(p) && p.main.phase.Waiting? && p.permits >= |p.threads|
    ensures forall k :: 0 <= k < |p.threads| ==> p.threads[k].released == 1
    ensures p.permits == |p.threads|
  {
    hide Accounts, MutexHeld, Awake;
    forall k | 0 <= k < |p.threads| ensures p.threads[k].released <= 1 {
      assert ThreadInv(p.main, |p.threads|, k, p.threads[k]);
    }
    ReleasedBound(p.threads);
  }

  lemma NewThreadInv(m: Main, n: nat)
    requires m.phase.Starting? && m.i == n
    ensures ThreadInv(m, n + 1, n, NEW_THREAD)
  {
  }

  lemma {:induction false} NoneReleased(threads: seq<Thread>)
    requires forall k :: 0 <= k < |threads| ==> threads[k].released == 0
    ensures AllReleased(threads) == 0
  {
    if threads != [] {
      NoneReleased(threads[..|threads| - 1]);
    }
  }

  lemma {:induction false} SameReleased(a: seq<Thread>, b: seq<Thread>)
    requires |a| == |b| && forall k :: 0 <= k < |a| ==> a[k].released == b[k].released
    ensures AllReleased(a) == AllReleased(b)
  {
    if a != [] {
      SameReleased(a[..|a| - 1], b[..|b| - 1]);
    }
  }

  lemma MainKeepsMain(p: Pool, a: MainAction)
    requires MainInv(p.main, |p.threads|) && MainEnabled(p, a)
    ensures var q := NextMain(p, a); MainInv(q.main, |q.threads|) && |q.threads| >= |p.threads|
    ensures var q := NextMain(p, a); |q.threads| > |p.threads| ==>
              |q.threads| == |p.threads| + 1 && q.threads[|p.threads|] == NEW_THREAD && q.main.phase.Starting? && q.main.i == |p.threads|
  {
    hide Total;
  }

  lemma MainKeepsPermits(p: Pool, a: MainAction)
    requires MainEnabled(p, a) && (InBarrier(p.main) ==> p.permits == AllReleased(p.threads))
    ensures var q := NextMain(p, a); InBarrier(q.main) ==> q.permits == AllReleased(q.threads)
  {
    hide AllReleased, Total;
    var q := NextMain(p, a);
    if a.Suspend? {
      NoneReleased(q.threads);
    } else if InBarrier(q.main) {
      SameReleased(p.threads, q.threads);
    }
  }

  lemma MainStepKeepsInv(p: Pool, a: MainAction)
    requires Inv(p) && MainEnabled(p, a)
    ensures Inv(NextMain(p, a))
  {
    hide ThreadInv, MainInv, AllReleased, NextMain, MainEnabled;
    var q := NextMain(p, a);
    MainKeepsMain(p, a);
    MainKeepsPermits(p, a);
    forall j | 0 <= j < |q.threads| ensures ThreadInv(q.main, |q.threads|, j, q.threads[j]) {
      if j < |p.threads| {
        MainKeepsThread(p, a, j);
      } else {
        NewThreadInv(q.main, j);
      }
    }
  }

  lemma StepKeepsInv(p: Pool, a: Action)
    requires Inv(p) && Enabled(p, a)
    ensures Inv(Next(p, a))
  {
    hide Inv;
    match a
    case OfMain(act) => MainStepKeepsInv(p, act);
    case OfWorker(k, step) => WorkerStepKeepsInv(p, k, step);
  }

  lemma {:induction false} RunKeepsInv(p: Pool, actions: seq<Action>, q: Pool)
    requires Inv(p) && IsRun(p, actions, q)
    ensures Inv(q)
    decreases |actions|
  {
    hide Inv;
    if actions != [] {
      StepKeepsInv(p, actions[0]);
      RunKeepsInv(Next(p, actions[0]), actions[1..], q);
    }
  }

  ghost predicate Reachable(p: Pool) {
    exists max, actions :: IsRun(Start(max), actions, p)
  }

  lemma ReachableInv(p: Pool)
    requires Reachable(p)
    ensures Inv(p)
  {
    hide Inv;
    var max, actions :| IsRun(Start(max), actions, p);
    assert Inv(Start(max)) by { StartInv(max); }
    RunKeepsInv(Start(max), actions, p);
  }

  lemma StartInv(max: int)
    ensures Inv(Start(max))
  {
  }

  // ----- load accounting -----

  /** In every reachable state a thread's load is what it was handed minus what was closed, unless its worker holds the mutex in between. */
  lemma LoadIsExact(p: Pool, k: nat)
    requires Reachable(p) && k < |p.threads|
    ensures var t := p.threads[k];
            && (t.stage.Inserted? ==> t.mutex == ByWorker)
            && (!t.stage.Inserted? ==> Total(t.lists) + t.pending == t.handed - t.closed)
  {
    ReachableInv(p);
    assert ThreadInv(p.main, |p.threads|, k, p.threads[k]);
  }

  /** The count that chooseNextThread works with is the load at the time it added up the lists, whatever happens meanwhile. */
  lemma CountIsExact(p: Pool)
    requires Reachable(p) && MainEnabled(p, Count)
    ensures var t := p.threads[p.main.i]; p.main.sum + t.pending == t.handed - p.main.closedSeen
  {
    ReachableInv(p);
    assert ThreadInv(p.main, |p.threads|, p.main.i, p.threads[p.main.i]);
  }

  /** A connection is never handed to a thread without an event loop, and no worker is skipped by a barrier. */
  lemma AlwaysAwake(p: Pool, k: nat)
    requires Reachable(p) && k < |p.threads| && !p.main.phase.Starting?
    ensures p.threads[k].up
  {
    ReachableInv(p);
    assert ThreadInv(p.main, |p.threads|, k, p.threads[k]);
  }

  // ----- the suspend barrier -----

  /** When disconnectSockets returns, every thread has released once and neither holds nor expects a socket of that server. */
  lemma BarrierComplete(p: Pool, k: nat)
    requires Reachable(p) && MainEnabled(p, Return) && k < |p.threads|
    ensures var t := p.threads[k]; t.released == 1 && t.queue == [] && SocketsOf(t.lists, p.main.server) == {}
    ensures Next(p, OfMain(Return)).permits == 0
  {
    ReachableInv(p);
    AllReleasedOnce(p);
    assert ThreadInv(p.main, |p.threads|, k, p.threads[k]);
  }

  /** No thread ever releases the semaphore twice, and none releases it outside a barrier. */
  lemma ReleasesOnce(p: Pool, k: nat)
    requires Reachable(p) && Enabled(p, OfWorker(k, Release))
    ensures InBarrier(p.main) && p.threads[k].released == 0 && p.threads[k].current == Disconnect(p.main.server)
  {
    ReachableInv(p);
    assert ThreadInv(p.main, |p.threads|, k, p.threads[k]);
  }

  /** Peers aside, only the barrier removes sockets, and only those of the server being suspended. */
  lemma BarrierSparesOthers(p: Pool, a: Action, k: nat, server: nat)
    requires Reachable(p) && Enabled(p, a) && !(a.OfWorker? && a.step.PeerClose?) && k < |p.threads|
    ensures k < |Next(p, a).threads|
    ensures SocketsOf(p.threads[k].lists, server) <= SocketsOf(Next(p, a).threads[k].lists, server)
            || (InBarrier(p.main) && server == p.main.server)
  {
    hide AddSocket, KeepOnly, SocketsOf, Total;
    ReachableInv(p);
    assert ThreadInv(p.main, |p.threads|, k, p.threads[k]);
    var t := p.threads[k];
    if a.OfWorker? && a.t == k {
      if a.step.Insert? {
        AddingSocket(t.lists, t.current.server, t.nextSocket);
      } else if a.step.Clear? {
        DroppingSockets(t.lists, t.current.server, {}, t.nextSocket);
      }
    }
  }

  function StageWork(s: Stage): nat {
    match s
    case Idle => 0
    case Counted => 1
    case Released => 1
    case Inserted => 2
    case Cleared => 2
    case Connecting => 3
    case Clearing => 3
  }

  /** The steps the workers still have to make for what is queued. */
  function Work(threads: seq<Thread>): nat {
    if threads == [] then 0
    else
      var t := threads[|threads| - 1];
      Work(threads[..|threads| - 1]) + 4 * |t.queue| + StageWork(t.stage)
  }

  lemma {:induction false} WorkUpdate(threads: seq<Thread>, k: nat, t: Thread)
    requires k < |threads|
    ensures Work(threads[k := t]) + 4 * |threads[k].queue| + StageWork(threads[k].stage) == Work(threads) + 4 * |t.queue| + StageWork(t.stage)
  {
    var n := |threads| - 1;
    if k < n {
      WorkUpdate(threads[..n], k, t);
      assert threads[k := t][..n] == threads[..n][k := t];
    } else {
      assert threads[k := t][..n] == threads[..n];
    }
  }

  /** The barrier cannot hang: while it waits some worker can step, and each step leaves less to do. */
  lemma BarrierEnds(p: Pool)
    requires Reachable(p) && p.main.phase.Waiting?
    ensures p.permits >= |p.threads| || exists k, step :: Enabled(p, OfWorker(k, step)) && !step.PeerClose?
    ensures forall k, step :: Enabled(p, OfWorker(k, step)) && !step.PeerClose? ==> Work(Next(p, OfWorker(k, step)).threads) < Work(p.threads)
  {
    hide Work, StageWork, Total, Connects, SocketsOf, AddSocket, KeepOnly;
    ReachableInv(p);
    forall k: nat, step: WorkerAction | Enabled(p, OfWorker(k, step)) && !step.PeerClose?
      ensures Work(Next(p, OfWorker(k, step)).threads) < Work(p.threads)
    {
      assert ThreadInv(p.main, |p.threads|, k, p.threads[k]);
      WorkUpdate(p.threads, k, WorkerStep(p.threads[k], step));
      StepLowersWork(p.threads[k], step);
    }
    if p.permits < |p.threads| {
      var k := NotYetReleased(p.threads);
      assert ThreadInv(p.main, |p.threads|, k, p.threads[k]);
      WorkerCanStep(p.main, |p.threads|, k, p.threads[k]);
      var step :| WorkerEnabled(p.threads[k], step) && !step.PeerClose?;
      assert Enabled(p, OfWorker(k, step));
    }
  }

  lemma StepLowersWork(t: Thread, a: WorkerAction)
    requires WorkerEnabled(t, a) && !a.PeerClose? && t.up
    ensures var r := WorkerStep(t, a); 4 * |r.queue| + StageWork(r.stage) < 4 * |t.queue| + StageWork(t.stage)
  {
  }

  lemma {:induction false} NotYetReleased(threads: seq<Thread>) returns (k: nat)
    requires AllReleased(threads) < |threads|
    ensures k < |threads| && threads[k].released == 0
  {
    k := |threads| - 1;
    if threads[k].released != 0 {
      k := NotYetReleased(threads[..k]);
    }
  }

  lemma WorkerCanStep(m: Main, n: nat, k: nat, t: Thread)
    requires ThreadInv(m, n, k, t) && m.phase.Waiting? && k < m.i && t.released == 0
    ensures exists step :: WorkerEnabled(t, step) && !step.PeerClose?
  {
    hide Total, Connects, SocketsOf;
    match t.stage
    case Idle => assert WorkerEnabled(t, Take);
    case Connecting => assert WorkerEnabled(t, Insert);
    case Inserted => assert WorkerEnabled(t, Lower);
    case Counted => assert WorkerEnabled(t, Unlock);
    case Clearing => assert WorkerEnabled(t, Clear);
    case Cleared => assert WorkerEnabled(t, Release);
    case Released => assert WorkerEnabled(t, Unlock);
  }

  // ----- the size of the pool -----

  /** Every new maximum is at least one and at least the current size. */
  ghost predicate NeverLowered(p: Pool, actions: seq<Action>)
    decreases |actions|
  {
    actions == [] ||
    (Enabled(p, actions[0])
     && (actions[0].OfMain? && actions[0].act.SetMax? ==> actions[0].act.max >= 1 && actions[0].act.max >= |p.threads|)
     && NeverLowered(Next(p, actions[0]), actions[1..]))
  }

  /** Then the pool never exceeds its maximum. */
  lemma {:induction false} PoolStaysBounded(p: Pool, actions: seq<Action>, q: Pool)
    requires Inv(p) && IsRun(p, actions, q) && NeverLowered(p, actions) && 1 <= p.maxThreads && |p.threads| <= p.maxThreads
    ensures |q.threads| <= q.maxThreads
    decreases |actions|
  {
    hide ThreadInv;
    if actions != [] {
      StepKeepsInv(p, actions[0]);
      PoolStaysBounded(Next(p, actions[0]), actions[1..], q);
    }
  }

  /**
   The maximum is compared with `==`. Once every thread has been found busy, the pool grows exactly when it is empty
   or its size differs from the maximum; so below a lowered maximum it grows with every such connection.
   */
  lemma BusyPoolGrows(p: Pool)
    requires Reachable(p) && MainEnabled(p, Choose)
    ensures |NextMain(p, Choose).threads| == |p.threads| + 1 <==> p.threads == [] || |p.threads| != p.maxThreads
  {
    hide ThreadInv;
    ReachableInv(p);
  }

  // ----- balance -----

  predicate ArrivalsOnly(a: Action) {
    match a
    case OfMain(act) => !act.Suspend? && !act.SetMax?
    case OfWorker(_, step) => !step.PeerClose?
  }

  /** All threads have connections, one each while the pool can still grow, and no two loads differ by more than one. */
  predicate Even(threads: seq<Thread>, max: int) {
    && (forall k :: 0 <= k < |threads| ==> threads[k].handed >= 1)
    && (|threads| < max ==> forall k :: 0 <= k < |threads| ==> threads[k].handed == 1)
    && forall j, k :: 0 <= j < |threads| && 0 <= k < |threads| ==> threads[j].handed <= threads[k].handed + 1
  }

  /** Thread i was just created and all the others have one connection. */
  predicate OneEachBut(threads: seq<Thread>, i: nat) {
    i < |threads| && threads[i].handed == 0 && forall k :: 0 <= k < |threads| && k != i ==> threads[k].handed == 1
  }

  predicate Least(threads: seq<Thread>, i: nat, upTo: nat) {
    i < |threads| && upTo <= |threads| && forall k :: 0 <= k < upTo ==> threads[i].handed <= threads[k].handed
  }

  predicate ScanSoFar(m: Main, threads: seq<Thread>) {
    if m.best.None? then m.i == 0
    else m.i <= |threads| && m.best.value < m.i && m.min == threads[m.best.value].handed && Least(threads, m.best.value, m.i)
  }

  ghost predicate Balanced(p: Pool) {
    && 1 <= p.maxThreads && |p.threads| <= p.maxThreads
    && (forall k :: 0 <= k < |p.threads| ==> p.threads[k].closed == 0)
    && !InBarrier(p.main)
    && match p.main.phase
       case Starting => OneEachBut(p.threads, p.main.i)
       case Chosen =>
         || OneEachBut(p.threads, p.main.i)
         || (Even(p.threads, p.maxThreads) && |p.threads| == p.maxThreads && Least(p.threads, p.main.i, |p.threads|))
       case AtRest => Even(p.threads, p.maxThreads)
       case Raised => Even(p.threads, p.maxThreads)
       case _ => Even(p.threads, p.maxThreads) && ScanSoFar(p.main, p.threads)
  }

  /** In such a run the worker steps change no load. */
  lemma WorkerKeepsBalance(p: Pool, k: nat, step: WorkerAction)
    requires Inv(p) && Balanced(p) && Enabled(p, OfWorker(k, step)) && !step.PeerClose?
    ensures Balanced(Next(p, OfWorker(k, step)))
  {
    hide Total, Connects, SocketsOf, AddSocket, KeepOnly;
    var t, q := p.threads[k], Next(p, OfWorker(k, step));
    assert ThreadInv(p.main, |p.threads|, k, t);
    assert NotDisconnecting(t);
    assert q.threads[k].handed == t.handed && q.threads[k].closed == t.closed;
    forall j | 0 <= j < |q.threads| ensures q.threads[j].handed == p.threads[j].handed && q.threads[j].closed == 0 {
    }
  }

  lemma CountKeepsBalance(p: Pool)
    requires Inv(p) && Balanced(p) && MainEnabled(p, Count)
    ensures Balanced(NextMain(p, Count))
  {
    hide Total, Connects, SocketsOf, Barrier, MutexHeld, Awake, OneListEach, IdsBelow, Even;
    var i, q := p.main.i, NextMain(p, Count);
    assert ThreadInv(p.main, |p.threads|, i, p.threads[i]);
    assert p.main.sum + p.threads[i].pending == p.threads[i].handed;
    assert p.threads[i].handed >= 1 by { EvenIsBusy(p.threads, p.maxThreads, i); }
    SameLoads(p.threads, q.threads, p.maxThreads);
  }

  lemma EvenIsBusy(threads: seq<Thread>, max: int, i: nat)
    requires Even(threads, max) && i < |threads|
    ensures threads[i].handed >= 1
  {
  }

  lemma SameLoads(a: seq<Thread>, b: seq<Thread>, max: int)
    requires |a| == |b| && forall k :: 0 <= k < |a| ==> a[k].handed == b[k].handed
    ensures Even(a, max) == Even(b, max)
  {
    assert forall k :: 0 <= k < |a| ==> b[k].handed == a[k].handed;
  }

  lemma RaiseKeepsBalance(p: Pool)
    requires Inv(p) && Balanced(p) && MainEnabled(p, Raise)
    ensures Balanced(NextMain(p, Raise))
  {
    hide ThreadInv;
  }

  lemma MainKeepsBalance(p: Pool, a: MainAction)
    requires Inv(p) && Balanced(p) && MainEnabled(p, a) && ArrivalsOnly(OfMain(a))
    ensures Balanced(NextMain(p, a))
  {
    hide ThreadInv, Total;
    match a
    case Count => CountKeepsBalance(p);
    case Raise => RaiseKeepsBalance(p);
    case _ =>
  }

  lemma {:induction false} ArrivalsKeepBalance(p: Pool, actions: seq<Action>, q: Pool)
    requires Inv(p) && Balanced(p) && IsRun(p, actions, q) && forall i :: 0 <= i < |actions| ==> ArrivalsOnly(actions[i])
    ensures Balanced(q)
    decreases |actions|
  {
    hide Inv, Balanced;
    if actions != [] {
      StepKeepsInv(p, actions[0]);
      match actions[0] {
        case OfMain(act) => MainKeepsBalance(p, act);
        case OfWorker(k, step) => WorkerKeepsBalance(p, k, step);
      }
      ArrivalsKeepBalance(Next(p, actions[0]), actions[1..], q);
    }
  }

  /** With a fixed maximum and arrivals only, thread loads never differ by more than one between arrivals. */
  lemma LoadsStayEven(max: int, actions: seq<Action>, q: Pool, j: nat, k: nat)
    requires max >= 1 && IsRun(Start(max), actions, q) && forall i :: 0 <= i < |actions| ==> ArrivalsOnly(actions[i])
    requires q.main.phase.AtRest? && j < |q.threads| && k < |q.threads|
    ensures q.threads[j].handed - q.threads[j].closed <= q.threads[k].handed - q.threads[k].closed + 1
  {
    hide Inv;
    StartInv(max);
    ArrivalsKeepBalance(Start(max), actions, q);
  }

  // ----- the scan and the class -----

  /** A scan that finds these loads, one thread after the other. */
  function ConsiderAll(m: Main, loads: seq<int>): Main {
    if loads == [] then m
    else
      var before := ConsiderAll(m, loads[..|loads| - 1]);
      if before.phase.Chosen? then before else Consider(before, loads[|loads| - 1])
  }

  /** The scan split over the pool's steps finds the thread that chooseNextThread finds in one go. */
  lemma {:induction false} ScanFindsSame(server: nat, loads: seq<int>)
    ensures var m := ConsiderAll(Main(Scanning, server, 0, None, 0, 0, 0), loads);
            if 0 in loads then m.phase.Chosen? && ServerThread.FirstIdle(loads, m.i)
            else
              && m.phase.Scanning? && m.i == |loads|
              && (if loads == [] then m.best == None else m.best.Some? && ServerThread.FirstLeast(loads, m.best.value) && m.min == loads[m.best.value])
  {
    if loads != [] {
      var n := |loads| - 1;
      ScanFindsSame(server, loads[..n]);
      assert loads == loads[..n] + [loads[n]];
    }
  }
}
