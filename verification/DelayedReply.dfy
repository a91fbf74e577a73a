/**
 Whole conversations on one connection: any cut of the requests' bytes, any mix of immediate and delayed replies.
 A run is a list of steps: the client sends some bytes of the request that comes next, or the handler uses its handle.
 */
module DelayedReply {
  import opened HttpFraming
  import opened ServerSocket
  import opened Text

  /** The socket, and how much of the next request the client has sent. */
  datatype World = World(s: Socket, sent: Bytes)

  datatype Action = Send(segment: Bytes) | Answer

  /** Requests handed over so far, to the handler or to the raw-XML interface. */
  function HandedOver(trace: seq<Event>): nat {
    if trace == [] then 0
    else
      var last := trace[|trace| - 1];
      HandedOver(trace[..|trace| - 1]) + if last.Dispatch? || last.EndRequest? then 1 else 0
  }

  /** The calls and their replies, in order. */
  function CallEvents(trace: seq<Event>): seq<Event> {
    if trace == [] then []
    else
      var last := trace[|trace| - 1];
      CallEvents(trace[..|trace| - 1]) + if last.Dispatch? || last.Reply? then [last] else []
  }

  /** What the client and the handler are allowed to do: no unread request is overtaken, a handle is used once. */
  predicate Allowed(reqs: seq<Request>, w: World, a: Action) {
    match a
    case Send(segment) =>
      HandedOver(w.s.trace) < |reqs| && w.sent + segment <= Wire(reqs[HandedOver(w.s.trace)])
    case Answer => w.s.delayed
  }

  function Next(c: Config, w: World, a: Action): World {
    var s' := match a
      case Send(segment) => Arrive(c, w.s, segment)
      case Answer => AnswerDelayed(c, w.s);
    var sent := w.sent + if a.Send? then a.segment else "";
    World(s', if HandedOver(s'.trace) > HandedOver(w.s.trace) then "" else sent)
  }

  function Start(): World {
    World(Socket(true, false, false, 0, "", map[], "", 0, 0, "", false, []), "")
  }

  /** The replies a call is due; a handle used inside the handler is answered once more when the handler returns. */
  function Due(o: Outcome, call: nat): seq<Event> {
    match o
    case Silent => []
    case Answered => [Reply(call)]
    case Delayed => [Reply(call)]
    case AnsweredInside => [Reply(call), Reply(call)]
  }

  /** The conversation the first `n` requests should leave: every call followed by its own replies. */
  function Expected(c: Config, reqs: seq<Request>, n: nat): seq<Event>
    requires n <= |reqs|
  {
    if n == 0 then []
    else
      var before := Expected(c, reqs, n - 1);
      var r := reqs[n - 1];
      var call := DispatchCount(before);
      var headers := HeadersOf(r);
      if TakesRaw(c, headers) then before
      else
        before + [Dispatch(call, headers, Body(r.payload))] + Due(c.handler(call, headers, Body(r.payload)), call)
  }

  // ----- counting events in a longer trace -----

  lemma {:induction false} CallEventsAppend(a: seq<Event>, b: seq<Event>)
    ensures CallEvents(a + b) == CallEvents(a) + CallEvents(b)
    ensures HandedOver(a + b) == HandedOver(a) + HandedOver(b)
    ensures DispatchCount(a + b) == DispatchCount(a) + DispatchCount(b)
  {
    if b == [] {
      assert a + b == a;
    } else {
      var n := |b| - 1;
      assert (a + b)[..|a| + n] == a + b[..n];
      CallEventsAppend(a, b[..n]);
    }
  }

  lemma {:induction false} CallEventsKeepCount(t: seq<Event>)
    ensures DispatchCount(CallEvents(t)) == DispatchCount(t)
  {
    if t != [] {
      var n := |t| - 1;
      CallEventsKeepCount(t[..n]);
      var last := if t[n].Dispatch? || t[n].Reply? then [t[n]] else [];
      CallEventsAppend(CallEvents(t[..n]), last);
    }
  }

  lemma {:induction false} NoCalls(t: seq<Event>)
    requires NothingDelivered(t)
    ensures CallEvents(t) == [] && HandedOver(t) == 0 && DispatchCount(t) == 0
  {
    if t != [] {
      assert t[|t| - 1] in t;
      NoCalls(t[..|t| - 1]);
    }
  }

  lemma MidwayKeepsCalls(c: Config, base: seq<Event>, s: Socket, r: Request, p: Bytes, k: nat, pieces: seq<Bytes>)
    requires Midway(c, base, s, r, p, k, pieces)
    ensures CallEvents(s.trace) == CallEvents(base) && HandedOver(s.trace) == HandedOver(base)
    ensures DispatchCount(s.trace) == DispatchCount(base)
  {
    hide Midway;
    MidwayDeliversNothing(c, base, s, r, p, k, pieces);
    var rest := s.trace[|base|..];
    assert base + rest == s.trace;
    CallEventsAppend(base, rest);
    NoCalls(rest);
  }

  /** The call of a request handed to the handler, with the replies written before the handler returned. */
  function CallOf(c: Config, n: nat, r: Request): seq<Event> {
    var headers := HeadersOf(r);
    if TakesRaw(c, headers) then []
    else [Dispatch(n, headers, Body(r.payload))] + Replies(c.handler(n, headers, Body(r.payload)), n)
  }

  /** A handed-over request adds one call with its replies, or one raw-XML request. */
  lemma HandledEvents(c: Config, base: seq<Event>, r: Request, pieces: seq<Bytes>)
    ensures HandedOver(Handled(c, base, r, pieces)) == HandedOver(base) + 1
    ensures CallEvents(Handled(c, base, r, pieces)) == CallEvents(base) + CallOf(c, DispatchCount(base), r)
    ensures DispatchCount(Handled(c, base, r, pieces)) == DispatchCount(base) + if TakesRaw(c, HeadersOf(r)) then 0 else 1
  {
    hide ParseHeaders, Body, CallEvents, HandedOver, DispatchCount;
    var headers := HeadersOf(r);
    var opening := Opening(c, headers);
    var rest := if TakesRaw(c, headers) then Calls(pieces) + [EndRequest] else CallOf(c, DispatchCount(base), r);
    CallEventsAppend(base, opening);
    NoCalls(opening);
    CallEventsAppend(base + opening, rest);
    if TakesRaw(c, headers) {
      CallEventsAppend(Calls(pieces), [EndRequest]);
      NoCalls(Calls(pieces));
      OneEvent(EndRequest);
    } else {
      CallOfEvents(c, DispatchCount(base), r);
    }
    assert Handled(c, base, r, pieces) == base + opening + rest;
  }

  lemma OneEvent(e: Event)
    ensures CallEvents([e]) == (if e.Dispatch? || e.Reply? then [e] else [])
    ensures HandedOver([e]) == (if e.Dispatch? || e.EndRequest? then 1 else 0)
    ensures DispatchCount([e]) == (if e.Dispatch? then 1 else 0)
  {
    var t := [e];
    assert t[..|t| - 1] == [] && t[|t| - 1] == e;
    assert CallEvents([]) == [] && HandedOver([]) == 0 && DispatchCount([]) == 0;
    assert CallEvents(t) == CallEvents([]) + (if e.Dispatch? || e.Reply? then [e] else []);
  }

  lemma CallOfEvents(c: Config, n: nat, r: Request)
    requires !TakesRaw(c, HeadersOf(r))
    ensures CallEvents(CallOf(c, n, r)) == CallOf(c, n, r)
    ensures HandedOver(CallOf(c, n, r)) == 1 && DispatchCount(CallOf(c, n, r)) == 1
  {
    hide ParseHeaders, Body, CallEvents, HandedOver, DispatchCount;
    var call := Dispatch(n, HeadersOf(r), Body(r.payload));
    var replies := Replies(c.handler(n, HeadersOf(r), Body(r.payload)), n);
    CallEventsAppend([call], replies);
    OneEvent(call);
    OnlyReplies(replies);
  }

  lemma {:induction false} OnlyReplies(t: seq<Event>)
    requires forall e :: e in t ==> e.Reply?
    ensures CallEvents(t) == t && HandedOver(t) == 0 && DispatchCount(t) == 0
  {
    if t != [] {
      var n := |t| - 1;
      OnlyReplies(t[..n]);
      assert t[n] in t && t[..n] + [t[n]] == t;
    }
  }

  // ----- the invariant of every run -----

  ghost predicate MidwaySomewhere(c: Config, s: Socket, r: Request, p: Bytes) {
    exists base, k, pieces :: Midway(c, base, s, r, p, k, pieces)
  }

  /** The last event is the dispatch of a call whose handler took the handle with it. */
  predicate Awaited(c: Config, trace: seq<Event>) {
    var calls := CallEvents(trace);
    calls != [] &&
    var last := calls[|calls| - 1];
    last.Dispatch? && last.call == LastCall(trace) && c.handler(last.call, last.headers, last.body).Delayed?
  }

  /** While a handle is out nothing is read; otherwise every byte sent has been read. */
  ghost predicate Inv(c: Config, reqs: seq<Request>, w: World) {
    var n := HandedOver(w.s.trace);
    && n <= |reqs|
    && w.s.enabled == !w.s.delayed
    && DispatchCount(CallEvents(w.s.trace)) == DispatchCount(w.s.trace)
    && (if w.s.delayed then
          && Idle(w.s.(incoming := "")) && w.s.incoming == w.sent
          && Awaited(c, w.s.trace)
          && CallEvents(w.s.trace) + [Reply(LastCall(w.s.trace))] == Expected(c, reqs, n)
        else
          && CallEvents(w.s.trace) == Expected(c, reqs, n)
          && (if n < |reqs| then MidwaySomewhere(c, w.s, reqs[n], w.sent) else Idle(w.s) && w.sent == ""))
    && (n < |reqs| ==> w.sent <= Wire(reqs[n]))
    && (n == |reqs| ==> w.sent == "")
  }

  lemma StartInv(c: Config, reqs: seq<Request>)
    requires forall r :: r in reqs ==> WfRequest(r)
    ensures Inv(c, reqs, Start())
  {
    hide WfRequest;
    if reqs != [] {
      FreshIsMidway(c, Start().s, reqs[0]);
    }
  }

  lemma FreshIsMidway(c: Config, s: Socket, r: Request)
    requires Idle(s) && s.enabled && !s.delayed
    ensures MidwaySomewhere(c, s, r, "")
  {
    assert Midway(c, s.trace, s, r, "", 0, []);
  }

  /** The calls after one more request: as expected, up to the reply that a handle still owes. */
  lemma DoneCalls(c: Config, reqs: seq<Request>, base: seq<Event>, s: Socket, pieces: seq<Bytes>)
    requires var n := HandedOver(base);
             n < |reqs| && Done(c, base, s, reqs[n], pieces) && CallEvents(base) == Expected(c, reqs, n)
    ensures HandedOver(s.trace) == HandedOver(base) + 1
    ensures CallEvents(s.trace) + (if s.delayed then [Reply(LastCall(s.trace))] else [])
         == Expected(c, reqs, HandedOver(base) + 1)
    ensures s.delayed ==> Awaited(c, s.trace)
  {
    hide CallEvents, HandedOver, DispatchCount, ParseHeaders, Body, Handled, Idle, CarriesBody, Expected, CallOf;
    var n := HandedOver(base);
    var r := reqs[n];
    CallEventsKeepCount(base);
    HandledEvents(c, base, r, pieces);
    ExpectedNext(c, reqs, n);
    assert s.delayed ==> LastCall(s.trace) == DispatchCount(base);
    if s.delayed {
      HandleIsAwaited(c, base, s, r, pieces);
    }
  }

  lemma HandleIsAwaited(c: Config, base: seq<Event>, s: Socket, r: Request, pieces: seq<Bytes>)
    requires Done(c, base, s, r, pieces) && s.delayed
    ensures Awaited(c, s.trace)
  {
    hide CallEvents, HandedOver, DispatchCount, ParseHeaders, Body, Handled, Idle, CarriesBody;
    HandledEvents(c, base, r, pieces);
    var dispatch := Dispatch(DispatchCount(base), HeadersOf(r), Body(r.payload));
    assert [dispatch] + [] == [dispatch];
    assert CallEvents(s.trace) == CallEvents(base) + [dispatch];
  }

  lemma ExpectedNext(c: Config, reqs: seq<Request>, n: nat)
    requires n < |reqs|
    ensures var call := DispatchCount(Expected(c, reqs, n));
            var headers := HeadersOf(reqs[n]);
            var later := !TakesRaw(c, headers) && c.handler(call, headers, Body(reqs[n].payload)).Delayed?;
            Expected(c, reqs, n + 1)
            == Expected(c, reqs, n) + CallOf(c, call, reqs[n]) + (if later then [Reply(call)] else [])
  {
    hide ParseHeaders, Body, DispatchCount;
    var before := Expected(c, reqs, n);
    var call := DispatchCount(before);
    var headers := HeadersOf(reqs[n]);
    if !TakesRaw(c, headers) {
      var dispatch := Dispatch(call, headers, Body(reqs[n].payload));
      match c.handler(call, headers, Body(reqs[n].payload))
      case Silent => assert [dispatch] + [] == [dispatch];
      case Delayed => assert [dispatch] + [] == [dispatch];
      case Answered =>
        assert before + ([dispatch] + [Reply(call)]) + [] == before + [dispatch] + [Reply(call)];
      case AnsweredInside =>
        assert before + ([dispatch] + [Reply(call), Reply(call)]) + [] == before + [dispatch] + [Reply(call), Reply(call)];
    } else {
      assert before + [] + [] == before;
    }
  }

  /** The invariant once a request has been handed over: either reading again, or waiting for the handle's reply. */
  lemma DoneKeepsInv(c: Config, reqs: seq<Request>, base: seq<Event>, s: Socket, pieces: seq<Bytes>)
    requires var n := HandedOver(base);
             n < |reqs| && Done(c, base, s, reqs[n], pieces) && CallEvents(base) == Expected(c, reqs, n)
    ensures HandedOver(s.trace) == HandedOver(base) + 1
    ensures Inv(c, reqs, World(s, ""))
  {
    hide CallEvents, HandedOver, DispatchCount, MidwaySomewhere, Wire, Handled, Expected, CarriesBody, TakesHandle;
    var n := HandedOver(base);
    DoneCalls(c, reqs, base, s, pieces);
    assert CallEvents(s.trace) + [] == CallEvents(s.trace);
    CallEventsKeepCount(s.trace);
    if !s.delayed && n + 1 < |reqs| {
      FreshIsMidway(c, s, reqs[n + 1]);
    }
  }

  /** Reading more of the next request keeps the invariant. */
  lemma ReadKeepsInv(c: Config, reqs: seq<Request>, s: Socket, p: Bytes, segment: Bytes)
    requires forall r :: r in reqs ==> WfRequest(r)
    requires var n := HandedOver(s.trace);
             n < |reqs| && s.enabled && !s.delayed && MidwaySomewhere(c, s, reqs[n], p) && p + segment <= Wire(reqs[n])
             && CallEvents(s.trace) == Expected(c, reqs, n)
    ensures var s' := Arrive(c, s, segment);
            Inv(c, reqs, World(s', if HandedOver(s'.trace) > HandedOver(s.trace) then "" else p + segment))
    ensures Arrive(c, s, segment).incoming == ""
  {
    hide WfRequest, Arrive, Midway, Wire, Handled, Expected, CallEvents, HandedOver, DispatchCount;
    var n := HandedOver(s.trace);
    var r := reqs[n];
    var base, k, pieces :| Midway(c, base, s, r, p, k, pieces);
    MidwayKeepsCalls(c, base, s, r, p, k, pieces);
    var k', pieces' := ArriveStep(c, base, s, r, p, segment, k, pieces);
    var s' := Arrive(c, s, segment);
    if p + segment == Wire(r) {
      DoneKeepsInv(c, reqs, base, s', pieces');
    } else {
      MidwayKeepsCalls(c, base, s', r, p + segment, k', pieces');
      MidwayFlags(c, base, s', r, p + segment, k', pieces');
      CallEventsKeepCount(s'.trace);
    }
  }

  lemma MidwayFlags(c: Config, base: seq<Event>, s: Socket, r: Request, p: Bytes, k: nat, pieces: seq<Bytes>)
    requires Midway(c, base, s, r, p, k, pieces)
    ensures s.enabled && !s.delayed && s.incoming == ""
  {
  }

  lemma StepKeepsInv(c: Config, reqs: seq<Request>, w: World, a: Action)
    requires forall r :: r in reqs ==> WfRequest(r)
    requires Inv(c, reqs, w) && Allowed(reqs, w, a)
    ensures Inv(c, reqs, Next(c, w, a))
    ensures a.Answer? ==> Next(c, w, a).s.incoming == ""
  {
    hide WfRequest, MidwaySomewhere, Arrive, Expected, CallEvents, HandedOver, DispatchCount, Wire, AnswerDelayed;
    var n := HandedOver(w.s.trace);
    match a
    case Send(segment) =>
      if w.s.delayed {
        ArriveDisabled(c, w.s, segment);
      } else {
        ReadKeepsInv(c, reqs, w.s, w.sent, segment);
      }
    case Answer =>
      var s1 := Answering(c, w.s);
      if n < |reqs| {
        FreshIsMidway(c, s1, reqs[n]);
        assert "" + w.sent == w.sent;
        ReadKeepsInv(c, reqs, s1, "", w.sent);
        assert w.sent + "" == w.sent;
      } else {
        IdleRead(c, s1);
        CallEventsKeepCount(s1.trace);
      }
  }

  lemma ArriveDisabled(c: Config, s: Socket, segment: Bytes)
    requires !s.enabled
    ensures Arrive(c, s, segment) == s.(incoming := s.incoming + segment)
  {
  }

  /** Using the handle is: write the reply, then read everything that arrived while reading was off. */
  lemma Answering(c: Config, s: Socket) returns (s1: Socket)
    requires s.delayed && !s.enabled && Idle(s.(incoming := ""))
    ensures AnswerDelayed(c, s) == Arrive(c, s1, s.incoming)
    ensures Idle(s1) && s1.enabled && !s1.delayed
    ensures CallEvents(s1.trace) == CallEvents(s.trace) + [Reply(LastCall(s.trace))]
    ensures HandedOver(s1.trace) == HandedOver(s.trace)
  {
    hide ReadyRead, CallEvents, HandedOver, DispatchCount;
    var reply := Reply(LastCall(s.trace));
    CallEventsAppend(s.trace, [reply]);
    OneEvent(reply);
    s1 := s.(trace := s.trace + [reply], delayed := false, enabled := true, incoming := "");
    assert "" + s.incoming == s.incoming;
  }

  lemma IdleRead(c: Config, s: Socket)
    requires Idle(s) && s.enabled && !s.delayed
    ensures Arrive(c, s, "").trace == s.trace && Idle(Arrive(c, s, "")) && Arrive(c, s, "").enabled && !Arrive(c, s, "").delayed
  {
  }

  // ----- whole conversations -----

  function RunAll(c: Config, actions: seq<Action>): World
    decreases |actions|
  {
    if actions == [] then Start()
    else Next(c, RunAll(c, actions[..|actions| - 1]), actions[|actions| - 1])
  }

  predicate LegalRun(c: Config, reqs: seq<Request>, actions: seq<Action>) {
    forall i :: 0 <= i < |actions| ==> Allowed(reqs, RunAll(c, actions[..i]), actions[i])
  }

  lemma {:induction false} RunInv(c: Config, reqs: seq<Request>, actions: seq<Action>)
    requires (forall r :: r in reqs ==> WfRequest(r)) && LegalRun(c, reqs, actions)
    ensures Inv(c, reqs, RunAll(c, actions))
  {
    hide WfRequest, Inv, Next, Allowed;
    if actions == [] {
      StartInv(c, reqs);
    } else {
      var front, last := actions[..|actions| - 1], actions[|actions| - 1];
      assert forall i :: 0 <= i < |front| ==> actions[..i] == front[..i] && actions[i] == front[i];
      RunInv(c, reqs, front);
      StepKeepsInv(c, reqs, RunAll(c, front), last);
    }
  }

  /**
   In every conversation the calls are dispatched in request order, each is followed by its own reply before the next
   dispatch, only a handle still out owes one, and bytes stay unread only while it is out.
   */
  lemma EveryConversation(c: Config, reqs: seq<Request>, actions: seq<Action>)
    requires (forall r :: r in reqs ==> WfRequest(r)) && LegalRun(c, reqs, actions)
    ensures var s := RunAll(c, actions).s;
            && HandedOver(s.trace) <= |reqs|
            && CallEvents(s.trace) + (if s.delayed then [Reply(LastCall(s.trace))] else [])
            == Expected(c, reqs, HandedOver(s.trace))
            && (s.delayed ==> Awaited(c, s.trace))
            && (s.incoming != "" ==> s.delayed)
  {
    hide WfRequest, RunAll, LegalRun, Expected, CallEvents, HandedOver;
    RunInv(c, reqs, actions);
    var w := RunAll(c, actions);
    var n := HandedOver(w.s.trace);
    assert CallEvents(w.s.trace) + [] == CallEvents(w.s.trace);
    if !w.s.delayed && n < |reqs| {
      var base, k, pieces :| Midway(c, base, w.s, reqs[n], w.sent, k, pieces);
      MidwayFlags(c, base, w.s, reqs[n], w.sent, k, pieces);
    }
  }

  /** Using a handle consumes everything that arrived while reading was off. */
  lemma AnswerConsumes(c: Config, reqs: seq<Request>, actions: seq<Action>)
    requires (forall r :: r in reqs ==> WfRequest(r)) && LegalRun(c, reqs, actions)
    requires RunAll(c, actions).s.delayed
    ensures Next(c, RunAll(c, actions), Answer).s.incoming == ""
  {
    hide WfRequest, RunAll, LegalRun, Inv, Next;
    RunInv(c, reqs, actions);
    StepKeepsInv(c, reqs, RunAll(c, actions), Answer);
  }

  /** At `i`: a reply among those right after the dispatch of its call, or a dispatch in order with its replies right after it. */
  predicate InOrder(c: Config, e: seq<Event>, i: nat)
    requires i < |e|
  {
    match e[i]
    case Reply(call) => i > 0 && (e[i - 1] == e[i] || e[i - 1].Dispatch?) && e[i - 1].call == call
    case Dispatch(call, headers, body) =>
      var due := Due(c.handler(call, headers, body), call);
      && call == DispatchCount(e[..i])
      && i + |due| < |e| && e[i + 1..i + 1 + |due|] == due
      && (i + 1 + |due| < |e| ==> e[i + 1 + |due|].Dispatch?)
    case _ => false
  }

  lemma StillInOrder(c: Config, before: seq<Event>, e: seq<Event>, i: nat)
    requires before <= e && i < |before| && InOrder(c, before, i)
    requires |before| < |e| ==> e[|before|].Dispatch?
    ensures InOrder(c, e, i)
  {
    hide DispatchCount, Due;
    assert e[i] == before[i] && e[..i] == before[..i];
    if e[i].Dispatch? {
      var due := Due(c.handler(e[i].call, e[i].headers, e[i].body), e[i].call);
      assert e[i + 1..i + 1 + |due|] == before[i + 1..i + 1 + |due|];
    }
  }

  /** In an expected conversation the replies of a call directly follow its dispatch, and the calls come in order. */
  lemma {:induction false} RepliesFollowCalls(c: Config, reqs: seq<Request>, n: nat)
    requires n <= |reqs|
    ensures forall i :: 0 <= i < |Expected(c, reqs, n)| ==> InOrder(c, Expected(c, reqs, n), i)
  {
    hide ParseHeaders, Body, DispatchCount;
    if n > 0 {
      RepliesFollowCalls(c, reqs, n - 1);
      var before := Expected(c, reqs, n - 1);
      var e := Expected(c, reqs, n);
      assert before <= e && |e| <= |before| + 3;
      forall i | 0 <= i < |e|
        ensures InOrder(c, e, i)
      {
        if i < |before| {
          assert InOrder(c, before, i);
          StillInOrder(c, before, e, i);
        } else if i == |before| {
          assert e[..i] == before;
        }
      }
    }
  }

  // ----- how many replies a call gets -----

  function ReplyCount(trace: seq<Event>, call: nat): nat {
    if trace == [] then 0
    else ReplyCount(trace[..|trace| - 1], call) + if trace[|trace| - 1] == Reply(call) then 1 else 0
  }

  lemma {:induction false} ReplyCountAppend(a: seq<Event>, b: seq<Event>, call: nat)
    ensures ReplyCount(a + b, call) == ReplyCount(a, call) + ReplyCount(b, call)
  {
    if b == [] {
      assert a + b == a;
    } else {
      var n := |b| - 1;
      assert (a + b)[..|a| + n] == a + b[..n];
      ReplyCountAppend(a, b[..n], call);
    }
  }

  lemma DueCount(o: Outcome, of: nat, call: nat)
    ensures forall e :: e in Due(o, of) ==> e.Reply?
    ensures ReplyCount(Due(o, of), call) == if of == call then |Due(o, of)| else 0
  {
    OneReply(Reply(of), call);
    ReplyCountAppend([Reply(of)], [Reply(of)], call);
    assert [Reply(of)] + [Reply(of)] == [Reply(of), Reply(of)];
  }

  lemma OneReply(e: Event, call: nat)
    ensures ReplyCount([e], call) == if e == Reply(call) then 1 else 0
  {
    assert [e][..0] == [] && ReplyCount([], call) == 0;
  }

  lemma {:induction false} CallEventsKeepReplies(t: seq<Event>, call: nat)
    ensures ReplyCount(CallEvents(t), call) == ReplyCount(t, call)
    ensures forall e: Event :: e.Dispatch? ==> (e in t <==> e in CallEvents(t))
  {
    if t != [] {
      var n := |t| - 1;
      CallEventsKeepReplies(t[..n], call);
      assert t == t[..n] + [t[n]];
      ReplyCountAppend(CallEvents(t[..n]), [t[n]], call);
      OneReply(t[n], call);
      assert CallEvents(t[..n]) + [] == CallEvents(t[..n]);
    }
  }

  lemma NothingCounted(call: nat)
    ensures ReplyCount([], call) == 0 && DispatchCount([]) == 0
  {
  }

  predicate Dispatched(trace: seq<Event>, call: nat) {
    exists e :: e in trace && e.Dispatch? && e.call == call
  }

  /** Every reply of the call is due to a dispatch of it, and it is dispatched at most once. */
  predicate RepliesDue(c: Config, trace: seq<Event>, call: nat, owed: nat) {
    && (Dispatched(trace, call) <==> call < DispatchCount(trace))
    && (!Dispatched(trace, call) ==> ReplyCount(trace, call) == 0)
    && forall e :: e in trace && e.Dispatch? && e.call == call ==>
         ReplyCount(trace, call) + owed == |Due(c.handler(call, e.headers, e.body), call)|
  }

  lemma {:induction false} ExpectedReplies(c: Config, reqs: seq<Request>, n: nat, call: nat)
    requires n <= |reqs|
    ensures RepliesDue(c, Expected(c, reqs, n), call, 0)
  {
    hide ParseHeaders, Body, DispatchCount, ReplyCount, Due;
    if n == 0 {
      NothingCounted(call);
      assert Expected(c, reqs, n) == [];
    } else {
      ExpectedReplies(c, reqs, n - 1, call);
      var before := Expected(c, reqs, n - 1);
      var headers := HeadersOf(reqs[n - 1]);
      if !TakesRaw(c, headers) {
        var number := DispatchCount(before);
        var dispatch := Dispatch(number, headers, Body(reqs[n - 1].payload));
        var due := Due(c.handler(number, headers, dispatch.body), number);
        DueCount(c.handler(number, headers, dispatch.body), number, call);
        MoreReplies(before, dispatch, due, call);
        assert dispatch in Expected(c, reqs, n);
      }
    }
  }

  lemma MoreReplies(before: seq<Event>, dispatch: Event, due: seq<Event>, call: nat)
    requires dispatch.Dispatch? && forall e :: e in due ==> e.Reply?
    ensures ReplyCount(before + [dispatch] + due, call) == ReplyCount(before, call) + ReplyCount(due, call)
    ensures DispatchCount(before + [dispatch] + due) == DispatchCount(before) + 1
  {
    hide ReplyCount, DispatchCount;
    ReplyCountAppend(before + [dispatch], due, call);
    ReplyCountAppend(before, [dispatch], call);
    OneReply(dispatch, call);
    CallEventsAppend(before + [dispatch], due);
    CallEventsAppend(before, [dispatch]);
    OneEvent(dispatch);
    OnlyReplies(due);
  }

  predicate HasReplies(c: Config, s: Socket, call: nat) {
    RepliesDue(c, s.trace, call, if s.delayed && call == LastCall(s.trace) then 1 else 0)
  }

  /**
   In every conversation a call has had the replies it is due, except that the call whose handle is still out is owed
   one; what was not called is not replied to.
   */
  lemma RepliesAreCounted(c: Config, reqs: seq<Request>, actions: seq<Action>, call: nat)
    requires (forall r :: r in reqs ==> WfRequest(r)) && LegalRun(c, reqs, actions)
    ensures HasReplies(c, RunAll(c, actions).s, call)
  {
    hide WfRequest, RunAll, LegalRun, Expected, CallEvents, HandedOver, DispatchCount, ReplyCount, Due;
    EveryConversation(c, reqs, actions);
    var s := RunAll(c, actions).s;
    var calls := CallEvents(s.trace);
    var owed := if s.delayed then [Reply(LastCall(s.trace))] else [];
    ExpectedReplies(c, reqs, HandedOver(s.trace), call);
    CallEventsKeepReplies(s.trace, call);
    CallEventsKeepCount(s.trace);
    ReplyCountAppend(calls, owed, call);
    CallEventsAppend(calls, owed);
    OneReply(Reply(LastCall(s.trace)), call);
    OneEvent(Reply(LastCall(s.trace)));
    NothingCounted(call);
  }

  /** A call whose handler uses the handle before it returns. */
  predicate AnsweredTooSoon(c: Config, trace: seq<Event>) {
    exists e :: e in trace && e.Dispatch? && c.handler(e.call, e.headers, e.body).AnsweredInside?
  }

  /** Every call gets at most one reply, exactly when no handler uses its handle before it returns. */
  lemma AtMostOneReply(c: Config, reqs: seq<Request>, actions: seq<Action>)
    requires (forall r :: r in reqs ==> WfRequest(r)) && LegalRun(c, reqs, actions)
    ensures var trace := RunAll(c, actions).s.trace;
            (forall call: nat :: ReplyCount(trace, call) <= 1) <==> !AnsweredTooSoon(c, trace)
  {
    hide WfRequest, RunAll, LegalRun, CallEvents, HandedOver, DispatchCount, ReplyCount;
    var s := RunAll(c, actions).s;
    forall call: nat
      ensures HasReplies(c, s, call)
    {
      RepliesAreCounted(c, reqs, actions, call);
    }
    if !AnsweredTooSoon(c, s.trace) {
      forall call: nat
        ensures ReplyCount(s.trace, call) <= 1
      {
        assert HasReplies(c, s, call);
      }
    } else {
      var e :| e in s.trace && e.Dispatch? && c.handler(e.call, e.headers, e.body).AnsweredInside?;
      assert HasReplies(c, s, e.call);
      if s.delayed {
        EveryConversation(c, reqs, actions);
        CallEventsKeepReplies(s.trace, e.call);
        var calls := CallEvents(s.trace);
        assert calls[|calls| - 1] in calls;
      }
      assert ReplyCount(s.trace, e.call) == 2;
    }
  }

  /** A handle used inside the handler gets the call two replies: the socket was never switched off. */
  lemma AnsweredInsideRepliesTwice(c: Config, s: Socket, r: Request, segments: seq<Bytes>)
    requires WfRequest(r) && Idle(s) && s.enabled && !s.delayed
    requires segments != [] && segments[|segments| - 1] != "" && Concat(segments) == Wire(r)
    requires !TakesRaw(c, HeadersOf(r))
    requires c.handler(DispatchCount(s.trace), HeadersOf(r), Body(r.payload)).AnsweredInside?
    ensures var n := DispatchCount(s.trace);
            CallEvents(ArriveAll(c, s, segments).trace)
            == CallEvents(s.trace) + [Dispatch(n, HeadersOf(r), Body(r.payload)), Reply(n), Reply(n)]
  {
    hide WfRequest, ArriveAll, Handled, CallEvents, DispatchCount, ParseHeaders;
    var pieces := SegmentationIndependence(c, s, r, segments);
    HandledEvents(c, s.trace, r, pieces);
  }
}
