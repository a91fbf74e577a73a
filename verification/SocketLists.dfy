/** The sockets of one worker thread, a list for each server: KDSoapSocketList and the thread that owns the lists. */
module SocketLists {

  /** KDSoapSocketList: the sockets of one server in one thread. */
  datatype SocketList = SocketList(server: nat, sockets: set<nat>)

  function Total(lists: seq<SocketList>): nat {
    if lists == [] then 0 else Total(lists[..|lists| - 1]) + |lists[|lists| - 1].sockets|
  }

  function FindList(lists: seq<SocketList>, server: nat): (r: int)
    ensures -1 <= r < |lists|
    ensures r >= 0 ==> lists[r].server == server
    ensures r < 0 ==> forall i :: 0 <= i < |lists| ==> lists[i].server != server
  {
    if lists == [] then -1
    else if lists[|lists| - 1].server == server then |lists| - 1
    else FindList(lists[..|lists| - 1], server)
  }

  /** The sockets a thread holds for a server. */
  function SocketsOf(lists: seq<SocketList>, server: nat): set<nat> {
    var i := FindList(lists, server);
    if i < 0 then {} else lists[i].sockets
  }

  function AddSocket(lists: seq<SocketList>, server: nat, socket: nat): seq<SocketList> {
    var i := FindList(lists, server);
    if i < 0 then lists + [SocketList(server, {socket})] else lists[i := SocketList(server, lists[i].sockets + {socket})]
  }

  function KeepOnly(lists: seq<SocketList>, server: nat, sockets: set<nat>): seq<SocketList> {
    var i := FindList(lists, server);
    if i < 0 then lists else lists[i := SocketList(server, lists[i].sockets * sockets)]
  }

  lemma {:induction false} TotalUpdate(lists: seq<SocketList>, i: nat, l: SocketList)
    requires i < |lists|
    ensures Total(lists[i := l]) + |lists[i].sockets| == Total(lists) + |l.sockets|
  {
    var n := |lists| - 1;
    if i < n {
      TotalUpdate(lists[..n], i, l);
      assert lists[i := l][..n] == lists[..n][i := l];
    } else {
      assert lists[i := l][..n] == lists[..n];
    }
  }

  predicate OneListEach(lists: seq<SocketList>) {
    forall i, j :: 0 <= i < j < |lists| ==> lists[i].server != lists[j].server
  }

  predicate IdsBelow(lists: seq<SocketList>, bound: nat) {
    forall i, x :: 0 <= i < |lists| && x in lists[i].sockets ==> x < bound
  }

  lemma {:induction false} FindIs(lists: seq<SocketList>, server: nat, i: nat)
    requires i < |lists| && lists[i].server == server && OneListEach(lists)
    ensures FindList(lists, server) == i
  {
  }

  /** A new socket is one more in its server's list; the other servers' lists stay as they are. */
  lemma AddingSocket(lists: seq<SocketList>, server: nat, socket: nat)
    requires OneListEach(lists) && IdsBelow(lists, socket)
    ensures var r := AddSocket(lists, server, socket);
            && OneListEach(r) && IdsBelow(r, socket + 1) && Total(r) == Total(lists) + 1
            && SocketsOf(r, server) == SocketsOf(lists, server) + {socket}
            && forall other :: other != server ==> SocketsOf(r, other) == SocketsOf(lists, other)
  {
    hide Total, SocketsOf, FindList, OneListEach;
    var i, r := FindList(lists, server), AddSocket(lists, server, socket);
    if i >= 0 {
      TotalUpdate(lists, i, r[i]);
      assert socket !in lists[i].sockets;
      SocketsAre(lists, server);
    } else {
      TotalSnoc(lists, r[|lists|]);
      assert r[..|lists|] == lists;
      SocketsAre(lists, server);
    }
    SameServers(lists, r, server);
  }

  lemma SocketsAre(lists: seq<SocketList>, server: nat)
    ensures SocketsOf(lists, server) == if FindList(lists, server) < 0 then {} else lists[FindList(lists, server)].sockets
  {
  }

  lemma TotalSnoc(lists: seq<SocketList>, l: SocketList)
    ensures Total(lists + [l]) == Total(lists) + |l.sockets|
  {
    assert (lists + [l])[..|lists|] == lists;
  }

  /** Dropping sockets of one server removes exactly those. */
  lemma DroppingSockets(lists: seq<SocketList>, server: nat, kept: set<nat>, bound: nat)
    requires OneListEach(lists) && IdsBelow(lists, bound)
    ensures var r := KeepOnly(lists, server, kept);
            && OneListEach(r) && IdsBelow(r, bound)
            && Total(r) + |SocketsOf(lists, server) - kept| == Total(lists)
            && SocketsOf(r, server) == SocketsOf(lists, server) * kept
            && forall other :: other != server ==> SocketsOf(r, other) == SocketsOf(lists, other)
  {
    var i, r := FindList(lists, server), KeepOnly(lists, server, kept);
    if i >= 0 {
      TotalUpdate(lists, i, r[i]);
      var s := lists[i].sockets;
      assert s == (s * kept) + (s - kept);
    }
    SameServers(lists, r, server);
  }

  lemma SameServers(lists: seq<SocketList>, r: seq<SocketList>, server: nat)
    requires OneListEach(lists)
    requires r == lists || (|r| == |lists| + 1 && r[..|lists|] == lists && r[|lists|].server == server && FindList(lists, server) < 0)
             || (0 <= FindList(lists, server) && |r| == |lists| && r[FindList(lists, server)].server == server
                 && forall i :: 0 <= i < |lists| && i != FindList(lists, server) ==> r[i] == lists[i])
    ensures OneListEach(r) && forall other :: other != server ==> SocketsOf(r, other) == SocketsOf(lists, other)
    ensures |r| > |lists| ==> SocketsOf(r, server) == r[|lists|].sockets
    ensures |r| == |lists| && FindList(lists, server) >= 0 ==> SocketsOf(r, server) == r[FindList(lists, server)].sockets
  {
    assert OneListEach(r);
    forall other | other != server ensures SocketsOf(r, other) == SocketsOf(lists, other) {
      var i := FindList(lists, other);
      if i >= 0 {
        assert r[i] == lists[i];
        FindIs(r, other, i);
      }
    }
    if |r| > |lists| {
      FindIs(r, server, |lists|);
    } else if FindList(lists, server) >= 0 {
      FindIs(r, server, FindList(lists, server));
    }
  }
}
