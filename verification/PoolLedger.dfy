/**
 The thread pool's books for each server, over every run: connections handed to a thread for the server, and those of
 them that were closed. They are read off the steps of the run, not off the fields that the steps keep.
 */
module PoolLedger {
  import opened SocketLists
  import opened ThreadPool
  import opened Wrappers

  // ----- what the steps of a run do for one thread and server -----

  /** The main thread hands a connection of the server to thread `k`: it raises the counter of the thread it has chosen. */
  predicate HandsOver(p: Pool, a: Action, k: nat, server: nat) {
    a == OfMain(Raise) && p.main.i == k && p.main.server == server
  }

  /** Sockets of the server that the step closes in thread `k`: one whose peer closes it, or all of a disconnected server. */
  function Closes(p: Pool, a: Action, k: nat, server: nat): nat {
    if a.OfWorker? && a.t == k && k < |p.threads| then
      match a.step
      case PeerClose(of, _) => if of == server then 1 else 0
      case Clear => if p.threads[k].current == Disconnect(server) then |SocketsOf(p.threads[k].lists, server)| else 0
      case _ => 0
    else 0
  }

  /** Connections of the server handed to thread `k` in a run from `p`. */
  ghost function HandedFor(p: Pool, actions: seq<Action>, q: Pool, k: nat, server: nat): nat
    requires IsRun(p, actions, q)
    decreases |actions|
  {
    if actions == [] then 0
    else (if HandsOver(p, actions[0], k, server) then 1 else 0) + HandedFor(Next(p, actions[0]), actions[1..], q, k, server)
  }

  ghost function ClosedFor(p: Pool, actions: seq<Action>, q: Pool, k: nat, server: nat): nat
    requires IsRun(p, actions, q)
    decreases |actions|
  {
    if actions == [] then 0
    else Closes(p, actions[0], k, server) + ClosedFor(Next(p, actions[0]), actions[1..], q, k, server)
  }

  // ----- what a thread has of a server -----

  function ConnectsFor(queue: seq<Event>, server: nat): nat {
    if queue == [] then 0 else (if queue[0] == Connect(server) then 1 else 0) + ConnectsFor(queue[1..], server)
  }

  /** Connections on their way into a list of thread `t`: queued, or taken from the queue and not registered yet. */
  function OnTheirWay(t: Thread, server: nat): nat {
    ConnectsFor(t.queue, server) + if t.stage.Connecting? && t.current == Connect(server) then 1 else 0
  }

  /** The connection that the main thread has counted in but not posted yet. */
  predicate AboutToPost(m: Main, k: nat, server: nat) {
    m.phase.Raised? && m.i == k && m.server == server
  }

  function Open(p: Pool, k: nat, server: nat): nat {
    if k < |p.threads| then
      |SocketsOf(p.threads[k].lists, server)| + OnTheirWay(p.threads[k], server) + if AboutToPost(p.main, k, server) then 1 else 0
    else 0
  }

  lemma {:induction false} ConnectsForSnoc(queue: seq<Event>, e: Event, server: nat)
    ensures ConnectsFor(queue + [e], server) == ConnectsFor(queue, server) + if e == Connect(server) then 1 else 0
  {
    if queue == [] {
      assert [e][1..] == [] && queue + [e] == [e];
    } else {
      assert (queue + [e])[1..] == queue[1..] + [e];
      ConnectsForSnoc(queue[1..], e, server);
    }
  }

  // ----- every step keeps the books -----

  lemma InsertBalances(m: Main, n: nat, k: nat, t: Thread, server: nat)
    requires ThreadInv(m, n, k, t) && WorkerEnabled(t, Insert)
    ensures var r := WorkerStep(t, Insert);
            |SocketsOf(r.lists, server)| + OnTheirWay(r, server) == |SocketsOf(t.lists, server)| + OnTheirWay(t, server)
  {
    hide AddSocket, KeepOnly, Total, OneListEach, Connects, OnlyConnects, ConnectsFor, SocketsOf;
    AddingSocket(t.lists, t.current.server, t.nextSocket);
    NotYetThere(t.lists, t.current.server, t.nextSocket);
  }

  lemma NotYetThere(lists: seq<SocketList>, server: nat, socket: nat)
    requires IdsBelow(lists, socket)
    ensures socket !in SocketsOf(lists, server)
  {
  }

  lemma CloseBalances(m: Main, n: nat, k: nat, t: Thread, of: nat, kept: set<nat>, server: nat)
    requires ThreadInv(m, n, k, t) && kept <= SocketsOf(t.lists, of)
    ensures var r := KeepOnly(t.lists, of, kept);
            |SocketsOf(r, server)| + (if of == server then |SocketsOf(t.lists, server)| - |kept| else 0) == |SocketsOf(t.lists, server)|
  {
    hide AddSocket, KeepOnly, Total, OneListEach, Connects, OnlyConnects, SocketsOf;
    DroppingSockets(t.lists, of, kept, t.nextSocket);
    assert SocketsOf(t.lists, of) * kept == kept;
  }

  /** What one step of a worker does to the books of its thread. */
  lemma WorkerBalances(p: Pool, k: nat, step: WorkerAction, server: nat)
    requires Inv(p) && Enabled(p, OfWorker(k, step))
    ensures var t, r := p.threads[k], WorkerStep(p.threads[k], step);
            |SocketsOf(r.lists, server)| + OnTheirWay(r, server) + Closes(p, OfWorker(k, step), k, server)
            == |SocketsOf(t.lists, server)| + OnTheirWay(t, server)
  {
    hide AddSocket, KeepOnly, Total, OneListEach, IdsBelow, Connects, OnlyConnects, SocketsOf;
    var t := p.threads[k];
    assert ThreadInv(p.main, |p.threads|, k, t);
    match step
    case Insert => InsertBalances(p.main, |p.threads|, k, t, server);
    case Clear => CloseBalances(p.main, |p.threads|, k, t, t.current.server, {}, server);
    case PeerClose(of, socket) =>
      var s := SocketsOf(t.lists, of);
      CloseBalances(p.main, |p.threads|, k, t, of, s - {socket}, server);
      assert s - {socket} + {socket} == s;
    case _ =>
  }

  lemma MainBalances(p: Pool, act: MainAction, k: nat, server: nat)
    requires Inv(p) && MainEnabled(p, act)
    ensures Open(NextMain(p, act), k, server) == Open(p, k, server) + if HandsOver(p, OfMain(act), k, server) then 1 else 0
  {
    hide Inv, Total, SocketsOf;
    if k < |p.threads| {
      ConnectsForSnoc(p.threads[k].queue, Connect(p.main.server), server);
      ConnectsForSnoc(p.threads[k].queue, Disconnect(p.main.server), server);
    }
    NewThreadHasNothing(server);
    RaisedIsInside(p);
  }

  lemma NewThreadHasNothing(server: nat)
    ensures SocketsOf(NEW_THREAD.lists, server) == {} && OnTheirWay(NEW_THREAD, server) == 0
  {
  }

  lemma RaisedIsInside(p: Pool)
    requires Inv(p)
    ensures p.main.phase.Raised? || p.main.phase.Chosen? ==> p.main.i < |p.threads|
  {
  }

  lemma StepBalances(p: Pool, a: Action, k: nat, server: nat)
    requires Inv(p) && Enabled(p, a)
    ensures Open(Next(p, a), k, server) + Closes(p, a, k, server)
         == Open(p, k, server) + if HandsOver(p, a, k, server) then 1 else 0
  {
    hide Inv, SocketsOf, OnTheirWay, WorkerStep, WorkerEnabled, NextMain, MainEnabled;
    match a
    case OfMain(act) => MainBalances(p, act, k, server);
    case OfWorker(t, step) =>
      if t == k {
        WorkerBalances(p, k, step, server);
      }
  }

  lemma {:induction false} RunBalances(p: Pool, actions: seq<Action>, q: Pool, k: nat, server: nat)
    requires Inv(p) && IsRun(p, actions, q)
    ensures Open(q, k, server) + ClosedFor(p, actions, q, k, server) == Open(p, k, server) + HandedFor(p, actions, q, k, server)
    decreases |actions|
  {
    hide Inv, Open, Closes, HandsOver, Enabled, Next;
    if actions != [] {
      StepKeepsInv(p, actions[0]);
      StepBalances(p, actions[0], k, server);
      RunBalances(Next(p, actions[0]), actions[1..], q, k, server);
    }
  }

  // ----- over every run of a new pool -----

  /**
   After every run, for every thread and server: the sockets in that server's list and its connections on their way
   there are those handed to the thread for the server minus those closed for it.
   */
  lemma LoadPerServer(max: int, actions: seq<Action>, q: Pool, k: nat, server: nat)
    requires IsRun(Start(max), actions, q) && k < |q.threads|
    ensures |SocketsOf(q.threads[k].lists, server)| + OnTheirWay(q.threads[k], server) + (if AboutToPost(q.main, k, server) then 1 else 0)
         == HandedFor(Start(max), actions, q, k, server) - ClosedFor(Start(max), actions, q, k, server)
  {
    hide Inv, IsRun, SocketsOf, OnTheirWay, AboutToPost, HandedFor, ClosedFor;
    StartInv(max);
    RunBalances(Start(max), actions, q, k, server);
  }

  /** When disconnectSockets returns, every connection of its server that any thread was ever handed has been closed. */
  lemma BarrierClosesAll(max: int, actions: seq<Action>, q: Pool, k: nat)
    requires IsRun(Start(max), actions, q) && MainEnabled(q, Return) && k < |q.threads|
    ensures HandedFor(Start(max), actions, q, k, q.main.server) == ClosedFor(Start(max), actions, q, k, q.main.server)
  {
    hide Inv, IsRun, SocketsOf, HandedFor, ClosedFor;
    LoadPerServer(max, actions, q, k, q.main.server);
    assert Reachable(q);
    BarrierComplete(q, k);
    IdleAfterBarrier(q, k);
  }

  lemma IdleAfterBarrier(p: Pool, k: nat)
    requires Reachable(p) && MainEnabled(p, Return) && k < |p.threads|
    ensures !p.threads[k].stage.Connecting?
  {
    ReachableInv(p);
    AllReleasedOnce(p);
    assert ThreadInv(p.main, |p.threads|, k, p.threads[k]);
  }
}
