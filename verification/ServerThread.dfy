/** The classes behind the pool's steps: what one slot or call does when nothing interrupts it. */
module ServerThread {
  import opened SocketLists
  import opened Wrappers

  class Semaphore {
    var permits: nat

    constructor ()
      ensures permits == 0
    {
      permits := 0;
    }

    method Release()
      modifies this
      ensures permits == old(permits) + 1
    {
      permits := permits + 1;
    }
  }

  /** KDSoapServerThreadImpl: the socket lists of one thread and its counter of connections on their way. */
  class ThreadImpl {
    var lists: seq<SocketList>
    var nextSocket: nat
    var pending: int

    predicate Valid()
      reads this
    {
      OneListEach(lists) && IdsBelow(lists, nextSocket)
    }

    function Load(): int
      reads this
    {
      Total(lists) + pending
    }

    constructor ()
      ensures Valid() && lists == [] && pending == 0
    {
      lists, nextSocket, pending := [], 0, 0;
    }

    method SocketCount() returns (count: int)
      ensures count == Load()
    {
      count := 0;
      for i := 0 to |lists|
        invariant count == Total(lists[..i])
      {
        assert lists[..i + 1][..i] == lists[..i];
        count := count + |lists[i].sockets|;
      }
      assert lists[..|lists|] == lists;
      count := count + pending;
    }

    method SocketCountForServer(server: nat) returns (count: nat)
      ensures count == |SocketsOf(lists, server)|
    {
      var i := FindList(lists, server);
      count := if i < 0 then 0 else |lists[i].sockets|;
    }

    method AddIncomingConnection()
      modifies this`pending
      ensures pending == old(pending) + 1 && Load() == old(Load()) + 1
    {
      pending := pending + 1;
    }

    /** socketListForServer: the server's list, made on first use. */
    method SocketListForServer(server: nat) returns (i: nat)
      requires Valid()
      modifies this`lists
      ensures Valid() && i < |lists| && lists[i].server == server && FindList(lists, server) == i
      ensures lists == if FindList(old(lists), server) < 0 then old(lists) + [SocketList(server, {})] else old(lists)
    {
      var found := FindList(lists, server);
      if found >= 0 {
        return found;
      }
      i := |lists|;
      lists := lists + [SocketList(server, {})];
    }

    static lemma AddToList(lists: seq<SocketList>, server: nat, socket: nat)
      ensures var found := if FindList(lists, server) < 0 then lists + [SocketList(server, {})] else lists;
              var i := FindList(found, server);
              0 <= i < |found| && AddSocket(lists, server, socket) == found[i := SocketList(server, found[i].sockets + {socket})]
    {
      assert {} + {socket} == {socket};
      if FindList(lists, server) < 0 {
        assert (lists + [SocketList(server, {})])[|lists|].server == server;
      }
    }

    /** The slot run for a connection that was handed over: its load moves from the counter to the lists. */
    method HandleIncomingConnection(server: nat) returns (socket: nat)
      requires Valid()
      modifies this
      ensures Valid() && Load() == old(Load()) && pending == old(pending) - 1
      ensures lists == AddSocket(old(lists), server, socket) && socket == old(nextSocket)
      ensures SocketsOf(lists, server) == SocketsOf(old(lists), server) + {socket}
      ensures forall other :: other != server ==> SocketsOf(lists, other) == SocketsOf(old(lists), other)
    {
      hide OneListEach, IdsBelow, Total, SocketsOf, AddSocket, FindList;
      AddingSocket(lists, server, nextSocket);
      ghost var before := lists;
      var i := SocketListForServer(server);
      socket, nextSocket := nextSocket, nextSocket + 1;
      AddToList(before, server, socket);
      lists := lists[i := SocketList(server, lists[i].sockets + {socket})];
      pending := pending - 1;
    }

    /** The slot of the suspend barrier. */
    method DisconnectSocketsForServer(server: nat, semaphore: Semaphore)
      requires Valid()
      modifies this`lists, semaphore
      ensures Valid() && semaphore.permits == old(semaphore.permits) + 1
      ensures lists == KeepOnly(old(lists), server, {}) && SocketsOf(lists, server) == {}
      ensures Load() + |SocketsOf(old(lists), server)| == old(Load())
      ensures forall other :: other != server ==> SocketsOf(lists, other) == SocketsOf(old(lists), other)
    {
      DroppingSockets(lists, server, {}, nextSocket);
      assert SocketsOf(lists, server) - {} == SocketsOf(lists, server);
      var i := FindList(lists, server);
      if i >= 0 {
        lists := lists[i := SocketList(server, {})];
      }
      semaphore.Release();
    }

    /** The handler of a socket's disconnected signal; a socket that the server disconnected is left to clear(). */
    method PeerDisconnected(server: nat, socket: nat, disconnectedByServer: bool)
      requires Valid()
      modifies this`lists
      ensures Valid()
      ensures SocketsOf(lists, server) == SocketsOf(old(lists), server) - if disconnectedByServer then {} else {socket}
      ensures forall other :: other != server ==> SocketsOf(lists, other) == SocketsOf(old(lists), other)
      ensures Load() == old(Load()) - if !disconnectedByServer && socket in SocketsOf(old(lists), server) then 1 else 0
    {
      if !disconnectedByServer {
        var i := FindList(lists, server);
        if i >= 0 {
          var s := lists[i].sockets;
          DroppingSockets(lists, server, s - {socket}, nextSocket);
          assert s * (s - {socket}) == s - {socket};
          assert s - (s - {socket}) == if socket in s then {socket} else {};
          lists := lists[i := SocketList(server, s - {socket})];
        }
      }
    }
  }

  function Loads(threads: seq<ThreadImpl>): (r: seq<int>)
    reads threads
    ensures |r| == |threads| && forall i :: 0 <= i < |threads| ==> r[i] == threads[i].Load()
  {
    if threads == [] then [] else Loads(threads[..|threads| - 1]) + [threads[|threads| - 1].Load()]
  }

  predicate FirstIdle(loads: seq<int>, k: nat) {
    k < |loads| && loads[k] == 0 && forall j :: 0 <= j < k ==> loads[j] != 0
  }

  /** Index `k` is the first of the smallest loads. */
  predicate FirstLeast(loads: seq<int>, k: nat) {
    k < |loads| && (forall j :: 0 <= j < k ==> loads[k] < loads[j]) && forall j :: k <= j < |loads| ==> loads[k] <= loads[j]
  }

  /** KDSoapThreadPool. */
  class Pool {
    var maxThreads: int
    var threads: seq<ThreadImpl>

    constructor (maxThreads: int)
      ensures this.maxThreads == maxThreads && threads == []
    {
      this.maxThreads := maxThreads;
      threads := [];
    }

    /** The scan of chooseNextThread: it stops at an idle thread, and remembers the least loaded one otherwise. */
    method Scan() returns (idle: Option<nat>, best: Option<nat>)
      ensures var loads := Loads(threads);
              if idle.Some? then FirstIdle(loads, idle.value)
              else 0 !in loads && (if best.Some? then FirstLeast(loads, best.value) else loads == [])
    {
      ghost var loads := Loads(threads);
      idle, best := None, None;
      var min := 0;
      for i := 0 to |threads|
        invariant 0 !in loads[..i]
        invariant if best.None? then i == 0 else FirstLeast(loads[..i], best.value) && min == loads[best.value]
      {
        var count := threads[i].SocketCount();
        if count == 0 {
          return Some(i), None;
        }
        assert loads[..i + 1] == loads[..i] + [loads[i]];
        if best.None? || count < min {
          best, min := Some(i), count;
        }
      }
      assert loads[..|threads|] == loads;
    }

    /** chooseNextThread: the first idle thread; else the first least loaded one of a full pool; else a new one. */
    method ChooseNextThread() returns (chosen: ThreadImpl)
      modifies this`threads
      ensures var before, loads := old(threads), old(Loads(threads));
              if 0 in loads then threads == before && exists k: nat :: FirstIdle(loads, k) && chosen == before[k]
              else if before != [] && |before| == maxThreads then threads == before && exists k: nat :: FirstLeast(loads, k) && chosen == before[k]
              else threads == before + [chosen] && fresh(chosen) && chosen.lists == [] && chosen.pending == 0
    {
      ghost var loads := Loads(threads);
      var idle, best := Scan();
      if idle.Some? {
        assert FirstIdle(loads, idle.value) && loads[idle.value] in loads;
        return threads[idle.value];
      }
      if best.Some? && |threads| == maxThreads {
        assert FirstLeast(loads, best.value);
        return threads[best.value];
      }
      chosen := new ThreadImpl();
      threads := threads + [chosen];
    }
  }
}
