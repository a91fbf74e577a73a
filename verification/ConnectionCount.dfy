/**
 What the total connection count of a socket counts, over every run of reads and handles.
 It is raised by the first read after the socket was opened and after every request it has handed over.
 */
module ConnectionCount {
  import opened DelayedReply
  import HttpHead
  import opened HttpFraming
  import opened ServerSocket
  import opened Text
  import opened Wrappers

  /** The requests handed over, and one more while the socket has read since the last of them. */
  predicate Counts(s: Socket) {
    s.counted == HandedOver(s.trace) + if s.receivedData then 1 else 0
  }

  // ----- one read -----

  lemma SameHandedOver(t: seq<Event>, more: seq<Event>)
    requires forall e :: e in more ==> !e.Dispatch? && !e.EndRequest?
    ensures HandedOver(t + more) == HandedOver(t)
  {
    CallEventsAppend(t, more);
    NoneHandedOver(more);
  }

  lemma {:induction false} NoneHandedOver(t: seq<Event>)
    requires forall e :: e in t ==> !e.Dispatch? && !e.EndRequest?
    ensures HandedOver(t) == 0
  {
    if t != [] {
      assert t[|t| - 1] in t;
      NoneHandedOver(t[..|t| - 1]);
    }
  }

  function CallMade(s: Socket, body: Bytes): Event {
    if s.useRaw then EndRequest else Dispatch(DispatchCount(s.trace), s.headers, body)
  }

  function RepliesMade(c: Config, s: Socket, body: Bytes): seq<Event> {
    if s.useRaw then [] else Replies(c.handler(DispatchCount(s.trace), s.headers, body), DispatchCount(s.trace))
  }

  lemma DeliverTrace(c: Config, s: Socket, body: Bytes)
    ensures Deliver(c, s, body).trace == s.trace + [CallMade(s, body)] + RepliesMade(c, s, body)
  {
    hide DispatchCount;
    var called := s.trace + [CallMade(s, body)];
    assert called + [] == called;
  }

  /** Handing over is counted once, whatever the handler does. */
  lemma DeliverHandsOver(c: Config, s: Socket, body: Bytes)
    ensures HandedOver(Deliver(c, s, body).trace) == HandedOver(s.trace) + 1
    ensures Deliver(c, s, body).counted == s.counted
  {
    hide HandedOver, DispatchCount;
    DeliverTrace(c, s, body);
    var call := [CallMade(s, body)];
    CallEventsAppend(s.trace, call);
    OneEvent(CallMade(s, body));
    SameHandedOver(s.trace + call, RepliesMade(c, s, body));
  }

  lemma ChunksHandNothingOver(s: Socket)
    ensures var (s1, complete) := RunChunks(s);
            HandedOver(s1.trace) == HandedOver(s.trace) && s1.counted == s.counted && s1.receivedData == s.receivedData
  {
    hide HandedOver, ScanChunks;
    if s.chunkStart >= 0 {
      var scan := ScanChunks(s.buffer, s.chunkStart);
      SameHandedOver(s.trace, Calls(scan.calls));
      SameHandedOver(TakeChunks(s, scan.calls).trace, [BadRequest]);
    }
  }

  lemma BodyCounts(c: Config, s: Socket)
    requires Counts(s) && s.receivedData
    ensures Counts(ReadBody(c, s)) && ReadBody(c, s).counted == s.counted
    ensures ReadBody(c, s).receivedData == (HandedOver(ReadBody(c, s).trace) == HandedOver(s.trace))
  {
    hide HandedOver, RunChunks, Deliver, ContentLength, IndexOf;
    if IsChunked(s.headers) {
      ChunksHandNothingOver(s);
      var s1 := RunChunks(s).0;
      DeliverHandsOver(c, s1, s1.decoded);
    } else {
      SameHandedOver(s.trace, [ProcessXML(s.buffer)]);
      var s1 := if s.useRaw then s.(trace := s.trace + [ProcessXML(s.buffer)], buffer := "") else s;
      DeliverHandsOver(c, s1, s1.buffer);
    }
  }

  /** A read raises the count to one more than the requests handed over before it; a disabled socket keeps it. */
  lemma ReadCounts(c: Config, s: Socket)
    requires Counts(s)
    ensures var s' := ReadyRead(c, s);
            && Counts(s')
            && s'.counted == (if s.enabled then HandedOver(s.trace) + 1 else s.counted)
            && (!s.enabled ==> s' == s)
            && (s.enabled ==> s'.receivedData == (HandedOver(s'.trace) == HandedOver(s.trace)))
  {
    hide HandedOver, ReadBody, ParseHeaders, IndexOf;
    if s.enabled {
      var s1 := ReadAll(s);
      if s1.headers != map[] {
        BodyCounts(c, s1);
      } else if HasHead(s1.buffer) {
        var s2 := ReadHead(c, s1);
        SameHandedOver(s1.trace, Opening(c, s2.headers));
        BodyCounts(c, s2);
      }
    }
  }

  // ----- whole runs -----

  /** The step reads from the socket: bytes arrive at an enabled one, or a handle switches reading on again. */
  predicate Reads(w: World, a: Action) {
    w.s.enabled == a.Send?
  }

  lemma StepCounts(c: Config, w: World, a: Action)
    requires Counts(w.s)
    ensures var s' := Next(c, w, a).s;
            && Counts(s')
            && s'.counted == (if Reads(w, a) then HandedOver(w.s.trace) + 1 else w.s.counted)
            && s'.receivedData == (if Reads(w, a) then HandedOver(s'.trace) == HandedOver(w.s.trace) else w.s.receivedData)
  {
    hide HandedOver, ReadyRead, LastCall;
    match a
    case Send(segment) => ReadCounts(c, w.s.(incoming := w.s.incoming + segment));
    case Answer =>
      var reply := [Reply(LastCall(w.s.trace))];
      SameHandedOver(w.s.trace, reply);
      ReadCounts(c, w.s.(trace := w.s.trace + reply, delayed := false, enabled := true));
  }

  /** The socket has read since it last handed a request over. */
  predicate ReadSince(c: Config, actions: seq<Action>)
    decreases |actions|
  {
    actions != [] &&
    var before, last := actions[..|actions| - 1], actions[|actions| - 1];
    if Reads(RunAll(c, before), last) then HandedOver(RunAll(c, actions).s.trace) == HandedOver(RunAll(c, before).s.trace)
    else ReadSince(c, before)
  }

  /**
   Over every run the count is the number of requests handed over, plus one if the socket has read since the last of
   them: a request has begun, or a handle was answered, with or without anything to read.
   */
  lemma {:induction false} CountIsExact(c: Config, actions: seq<Action>)
    ensures var s := RunAll(c, actions).s;
            Counts(s) && s.counted == HandedOver(s.trace) + if ReadSince(c, actions) then 1 else 0
    decreases |actions|
  {
    hide Next, HandedOver, Reads;
    if actions == [] {
      assert HandedOver([]) == 0 by { NoneHandedOver([]); }
    } else {
      var before, last := actions[..|actions| - 1], actions[|actions| - 1];
      CountIsExact(c, before);
      StepCounts(c, RunAll(c, before), last);
    }
  }

  predicate ReadsOnlyFirst(c: Config, actions: seq<Action>) {
    forall i :: 0 <= i < |actions| && Reads(RunAll(c, actions[..i]), actions[i]) ==> HandedOver(RunAll(c, actions[..i]).s.trace) == 0
  }

  predicate NeverReads(c: Config, actions: seq<Action>) {
    forall i :: 0 <= i < |actions| ==> !Reads(RunAll(c, actions[..i]), actions[i])
  }

  lemma LastRead(c: Config, actions: seq<Action>)
    requires actions != []
    ensures var before, last := actions[..|actions| - 1], actions[|actions| - 1];
            var w := RunAll(c, before);
            && (NeverReads(c, actions) <==> NeverReads(c, before) && !Reads(w, last))
            && (ReadsOnlyFirst(c, actions) <==> ReadsOnlyFirst(c, before) && (Reads(w, last) ==> HandedOver(w.s.trace) == 0))
  {
    hide RunAll, HandedOver, Reads;
    var n := |actions| - 1;
    var before := actions[..n];
    forall i | 0 <= i <= n ensures actions[..i] == before[..i] {
    }
    assert before[..n] == before && forall i :: 0 <= i < n ==> actions[i] == before[i];
  }

  /** A connection is counted exactly when it was read from, and at most once exactly when nothing is read after its first request. */
  lemma {:induction false} CountedOnce(c: Config, actions: seq<Action>)
    ensures RunAll(c, actions).s.counted == 0 <==> NeverReads(c, actions)
    ensures RunAll(c, actions).s.counted <= 1 <==> ReadsOnlyFirst(c, actions)
    decreases |actions|
  {
    hide Next, HandedOver, Reads, ReadsOnlyFirst, NeverReads;
    if actions == [] {
      NoReads(c);
    } else {
      var before, last := actions[..|actions| - 1], actions[|actions| - 1];
      CountedOnce(c, before);
      CountIsExact(c, before);
      LastRead(c, actions);
      StepCounts(c, RunAll(c, before), last);
    }
  }

  lemma NoReads(c: Config)
    ensures NeverReads(c, []) && ReadsOnlyFirst(c, [])
  {
  }

  // ----- where the count is not that of connections -----

  /** After the first request, sent at once on a new connection: counted once. */
  lemma FirstRequest(c: Config, r: Request)
    requires WfRequest(r)
    ensures var w := RunAll(c, [Send(Wire(r))]);
            && Counts(w.s) && w.s.counted == 1 && HandedOver(w.s.trace) == 1 && w.sent == ""
            && (w.s.delayed <==> TakesHandle(c, [], r)) && w.s.enabled == !w.s.delayed
  {
    hide WfRequest, Arrive, HandedOver, ParseHeaders, Body, Handled, Wire;
    var start := Start().s;
    var wire := Wire(r);
    assert wire != "" by { WireIsNotEmpty(r); }
    assert [wire][..0] == [] && Concat([wire]) == wire + Concat([]) == wire;
    var pieces := SegmentationIndependence(c, start, r, [wire]);
    assert ArriveAll(c, start, [wire]) == Arrive(c, start, wire);
    HandledEvents(c, [], r, pieces);
    NoneHandedOver([]);
    var run := [Send(wire)];
    assert run[..0] == [];
    assert RunAll(c, run).s == Arrive(c, start, wire);
    CountIsExact(c, run);
  }

  lemma WireIsNotEmpty(r: Request)
    ensures Wire(r) != ""
  {
    assert |Wire(r)| >= |BLANK_LINE|;
  }

  /** One request whose handle is used later is counted twice, though nothing was waiting when it was answered. */
  lemma DelayedCountsTwice(c: Config, r: Request)
    requires WfRequest(r) && TakesHandle(c, [], r)
    ensures var run := [Send(Wire(r)), Answer];
            && LegalRun(c, [r], run)
            && HandedOver(RunAll(c, run).s.trace) == 1 && RunAll(c, run).s.counted == 2
  {
    hide WfRequest, Next, HandedOver, TakesHandle, Wire;
    FirstRequest(c, r);
    var run := [Send(Wire(r)), Answer];
    assert run[..0] == [] && run[..1] == [Send(Wire(r))];
    assert "" + Wire(r) == Wire(r);
    NoneHandedOver([]);
    var w := RunAll(c, run[..1]);
    StepCounts(c, w, Answer);
    CountIsExact(c, run);
    assert LegalRun(c, [r], run) by {
      assert Allowed([r], RunAll(c, run[..0]), run[0]);
      assert Allowed([r], RunAll(c, run[..1]), run[1]);
    }
    EveryConversation(c, [r], run);
  }

  /** So is a connection kept open for a second request. */
  lemma KeptOpenCountsTwice(c: Config, a: Request, b: Request)
    requires WfRequest(a) && WfRequest(b) && !TakesHandle(c, [], a)
    ensures var run := [Send(Wire(a)), Send(Wire(b))];
            LegalRun(c, [a, b], run) && RunAll(c, run).s.counted == 2
  {
    hide WfRequest, Next, HandedOver, TakesHandle, Wire;
    FirstRequest(c, a);
    var run := [Send(Wire(a)), Send(Wire(b))];
    assert run[..0] == [] && run[..1] == [Send(Wire(a))];
    assert "" + Wire(a) == Wire(a) && "" + Wire(b) == Wire(b);
    NoneHandedOver([]);
    StepCounts(c, RunAll(c, run[..1]), run[1]);
    assert Allowed([a, b], RunAll(c, run[..0]), run[0]);
    assert Allowed([a, b], RunAll(c, run[..1]), run[1]);
  }

  /** A request that is well formed, and a handler that keeps every handle. */
  lemma SmallRequest()
    ensures WfRequest(Request("POST / HTTP/1.1", Sized("")))
    ensures TakesHandle(Config(NoRaw, (n, h, b) => Delayed), [], Request("POST / HTTP/1.1", Sized("")))
  {
    hide WfRequest;
    var h := HttpHead.Head("POST", "/", "", "HTTP/1.1", []);
    assert HttpHead.HeadText(h) == "POST / HTTP/1.1";
    HttpHead.UnsizedIsWellFormed(h);
  }
}
