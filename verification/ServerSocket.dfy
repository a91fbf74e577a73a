/**
 KDSoapServerSocket: the resumable HTTP request reader and the delayed-reply switch.
 The functions say what one readyRead() does to the socket; the class below does it in place.
 */
module ServerSocket {
  import opened Text
  import opened Wrappers

  type Headers = map<Bytes, Bytes>

  const CRLF: Bytes := "\r\n"
  const BLANK_LINE: Bytes := "\r\n\r\n"
  const READ_SIZE: nat := 2048

  /** What the application's handler does with a call. */
  datatype Outcome =
    | Answered        // returns a reply (or one of the error replies is written)
    | Silent          // the body was an unfinished XML document: nothing is written
    | Delayed         // takes a delayed-response handle and returns
    | AnsweredInside  // takes a delayed-response handle and uses it before returning

  /** The raw-XML interface of the server object, if it has one, and which requests it takes. */
  datatype RawInterface = NoRaw | Raw(takes: Headers -> bool)

  datatype Config = Config(raw: RawInterface, handler: (nat, Headers, Bytes) -> Outcome)

  datatype Event =
    | NewRequest(headers: Headers)
    | ProcessXML(data: Bytes)
    | EndRequest
    | Dispatch(call: nat, headers: Headers, body: Bytes)
    | Reply(call: nat)
    | BadRequest

  /** The fields of KDSoapServerSocket, the unread bytes of the connection, and what happened so far. */
  datatype Socket = Socket(
    enabled: bool, delayed: bool, receivedData: bool, counted: nat, incoming: Bytes,
    headers: Headers, buffer: Bytes, bytesReceived: nat, chunkStart: int, decoded: Bytes, useRaw: bool,
    trace: seq<Event>)

  // ----- header block -----

  /** QByteArray::split on one separator character. */
  function Split(s: Bytes, sep: char): (parts: seq<Bytes>)
    ensures |parts| >= 1
    decreases |s|
  {
    var i := IndexOf(s, [sep], 0);
    if i < 0 then [s] else [s[..i]] + Split(s[i + 1..], sep)
  }

  /** The lines of a block, each with its line feed, as QIODevice::readLine hands them out. */
  function Lines(s: Bytes): (lines: seq<Bytes>)
    decreases |s|
  {
    if s == "" then []
    else
      var i := IndexOf(s, "\n", 0);
      if i < 0 then [s] else [s[..i + 1]] + Lines(s[i + 1..])
  }

  function ToLower(s: Bytes): Bytes {
    seq(|s|, i requires 0 <= i < |s| => if 'A' <= s[i] <= 'Z' then (s[i] as int + 32) as char else s[i])
  }

  function ParseHeaderLines(lines: seq<Bytes>, acc: Headers): Headers {
    if lines == [] then acc
    else
      var colon := IndexOf(lines[0], ":", 0);
      var name := if colon < 0 then "" else ToLower(lines[0][..colon]);
      ParseHeaderLines(lines[1..], acc[name := Trimmed(lines[0][colon + 1..])])
  }

  /** parseHeaders: an empty map when the request line has fewer than three parts. */
  function ParseHeaders(block: Bytes): Headers {
    var lines := Lines(block);
    var first := Split(if lines == [] then "" else lines[0], ' ');
    if |first| < 3 then map[]
    else
      var question := IndexOf(first[1], "?", 0);
      var path := if question < 0 then first[1] else first[1][..question];
      var query := if question < 0 then "" else first[1][question..];
      ParseHeaderLines(if lines == [] then [] else lines[1..],
        map["_requestType" := first[0], "_path" := path, "_query" := query, "_httpVersion" := first[2]])
  }

  function Header(headers: Headers, name: Bytes): Bytes {
    if name in headers then headers[name] else ""
  }

  predicate IsChunked(headers: Headers) {
    Header(headers, "transfer-encoding") == "chunked"
  }

  /** contentLength.toInt(): 0 when the header is missing or no 32-bit number. */
  function ContentLength(headers: Headers): int {
    ToInt(Header(headers, "content-length"), 10).GetOr(0)
  }

  // ----- replies -----

  function DispatchCount(trace: seq<Event>): nat {
    if trace == [] then 0
    else DispatchCount(trace[..|trace| - 1]) + if trace[|trace| - 1].Dispatch? then 1 else 0
  }

  /** handleRequest: call the handler, then reply unless a delayed handle is still out. */
  function Handle(c: Config, s: Socket, headers: Headers, body: Bytes): Socket {
    var n := DispatchCount(s.trace);
    var called := s.(trace := s.trace + [Dispatch(n, headers, body)]);
    match c.handler(n, headers, body)
    case Silent => called
    case Answered => called.(trace := called.trace + [Reply(n)])
    case Delayed => called.(delayed := true, enabled := false)
    case AnsweredInside => called.(delayed := false, trace := called.trace + [Reply(n), Reply(n)])
  }

  // ----- chunked bodies -----

  /** Why the chunk loop stops. */
  datatype Stop = NeedMore | NotANumber | Negative | LastChunk

  /** Why and where the chunk loop stops, and the chunks it extracted on the way. */
  datatype Scan = Scan(stop: Stop, at: nat, calls: seq<Bytes>) {
    function After(earlier: seq<Bytes>): Scan {
      Scan(stop, at, earlier + calls)
    }
  }

  /** The chunk loop from `start` on. `at` is the next chunk's start, or the end of the last chunk's size. */
  function ScanChunks(buffer: Bytes, start: nat): (s: Scan)
    ensures s.stop.LastChunk? ==> s.at <= |buffer|
    decreases |buffer| - start
  {
    var eol := IndexOf(buffer, CRLF, start);
    if eol < 0 then Scan(NeedMore, start, [])
    else
      match ToInt(buffer[start..eol], 16)
      case None => Scan(NotANumber, start, [])
      case Some(size) =>
        if size < 0 then Scan(Negative, start, [])
        else if size == 0 then Scan(LastChunk, eol, [])
        else if eol + 2 + size + 2 >= |buffer| then Scan(NeedMore, start, [])
        else ScanChunks(buffer, eol + 2 + size + 2).After([buffer[eol + 2..eol + 2 + size]])
  }

  // ----- slotReadyRead -----

  function Opening(c: Config, headers: Headers): seq<Event> {
    if c.raw.Raw? then [NewRequest(headers)] else []
  }

  predicate TakesRaw(c: Config, headers: Headers) {
    c.raw.Raw? && c.raw.takes(headers)
  }

  function Calls(pieces: seq<Bytes>): seq<Event> {
    seq(|pieces|, i requires 0 <= i < |pieces| => ProcessXML(pieces[i]))
  }

  /** Move every unread byte into the request buffer. */
  function ReadAll(s: Socket): Socket {
    s.(receivedData := true, counted := s.counted + if s.receivedData then 0 else 1, incoming := "",
       buffer := s.buffer + s.incoming, bytesReceived := s.bytesReceived + |s.incoming|)
  }

  predicate HasHead(buffer: Bytes) {
    IndexOf(buffer, BLANK_LINE, 0) > 0
  }

  /** Take the header block off the buffer. */
  function ReadHead(c: Config, s: Socket): Socket
    requires HasHead(s.buffer)
  {
    var sep := IndexOf(s.buffer, BLANK_LINE, 0);
    var headers := ParseHeaders(s.buffer[..sep]);
    var data := s.buffer[sep + 4..];
    s.(headers := headers, buffer := data, bytesReceived := |data|,
       useRaw := TakesRaw(c, headers), trace := s.trace + Opening(c, headers))
  }

  /** The request is complete: hand it over. */
  function Deliver(c: Config, s: Socket, body: Bytes): Socket {
    if s.useRaw then s.(trace := s.trace + [EndRequest]) else Handle(c, s, s.headers, body)
  }

  function Forget(s: Socket): Socket {
    s.(buffer := "", headers := map[], receivedData := false)
  }

  function ReadSized(c: Config, s: Socket): Socket {
    var s1 := if s.useRaw then s.(trace := s.trace + [ProcessXML(s.buffer)], buffer := "") else s;
    if s1.bytesReceived < ContentLength(s1.headers) then s1 else Forget(Deliver(c, s1, s1.buffer))
  }

  function TakeChunks(s: Socket, calls: seq<Bytes>): Socket {
    if s.useRaw then s.(trace := s.trace + Calls(calls)) else s.(decoded := s.decoded + Concat(calls))
  }

  lemma TakeChunksAppend(s: Socket, done: seq<Bytes>, chunk: Bytes, start: int)
    ensures TakeChunks(TakeChunks(s, done).(chunkStart := start), [chunk]) == TakeChunks(s, done + [chunk]).(chunkStart := start)
  {
    ConcatAppend(done, [chunk]);
    assert Calls(done + [chunk]) == Calls(done) + Calls([chunk]);
  }

  lemma TakeNoChunks(s: Socket)
    ensures TakeChunks(s, []) == s
  {
    assert Calls([]) == [];
  }

  /** One turn of the chunk loop, after the chunks in `done`. */
  lemma ScanTurn(buffer: Bytes, start: nat, done: seq<Bytes>)
    ensures var eol := IndexOf(buffer, CRLF, start);
            var all := ScanChunks(buffer, start).After(done);
            if eol < 0 then all == Scan(NeedMore, start, done)
            else if ToInt(buffer[start..eol], 16).None? then all == Scan(NotANumber, start, done)
            else
              var size := ToInt(buffer[start..eol], 16).value;
              if size < 0 then all.stop == Negative
              else if size == 0 then all == Scan(LastChunk, eol, done)
              else if eol + 2 + size + 2 >= |buffer| then all == Scan(NeedMore, start, done)
              else all == ScanChunks(buffer, eol + 2 + size + 2).After(done + [buffer[eol + 2..eol + 2 + size]])
  {
    hide ToInt, IndexOf;
    assert done + [] == done;
    var eol := IndexOf(buffer, CRLF, start);
    if eol >= 0 && ToInt(buffer[start..eol], 16).Some? {
      var size := ToInt(buffer[start..eol], 16).value;
      if 0 < size && eol + 2 + size + 2 < |buffer| {
        ScanAfter(ScanChunks(buffer, eol + 2 + size + 2), done, buffer[eol + 2..eol + 2 + size]);
      }
    }
  }

  lemma ScanAfter(rest: Scan, done: seq<Bytes>, chunk: Bytes)
    ensures rest.After([chunk]).After(done) == rest.After(done + [chunk])
  {
    assert done + ([chunk] + rest.calls) == (done + [chunk]) + rest.calls;
  }

  /** The chunk loop's effect, and whether the last chunk was seen. */
  function RunChunks(s: Socket): (Socket, bool) {
    if s.chunkStart < 0 then (s, true)
    else
      var scan := ScanChunks(s.buffer, s.chunkStart);
      var s1 := TakeChunks(s, scan.calls);
      match scan.stop
      case NeedMore => (s1.(chunkStart := scan.at), false)
      case NotANumber => (s1.(chunkStart := scan.at, trace := s1.trace + [BadRequest]), false)
      case Negative => (s1, false)
      case LastChunk => (s1.(buffer := s.buffer[scan.at..], chunkStart := -1), true)
  }

  function ReadChunked(c: Config, s: Socket): Socket {
    var (s1, complete) := RunChunks(s);
    if !complete || IndexOf(s1.buffer, BLANK_LINE, 0) < 0 then s1
    else Forget(Deliver(c, s1, s1.decoded).(decoded := "", chunkStart := 0))
  }

  function ReadBody(c: Config, s: Socket): Socket {
    if IsChunked(s.headers) then ReadChunked(c, s) else ReadSized(c, s)
  }

  /** One readyRead(): everything slotReadyRead does with the bytes that are there. */
  function ReadyRead(c: Config, s: Socket): Socket {
    if !s.enabled then s
    else
      var s1 := ReadAll(s);
      if s1.headers != map[] then ReadBody(c, s1)
      else if HasHead(s1.buffer) then ReadBody(c, ReadHead(c, s1))
      else s1
  }

  /** The bytes reach a chunk of negative size, where the chunk loop goes backwards: outside this model. */
  predicate MeetsNegativeSize(c: Config, s: Socket) {
    s.enabled &&
    var s1 := ReadAll(s);
    var s2 := if s1.headers == map[] && HasHead(s1.buffer) then ReadHead(c, s1) else s1;
    IsChunked(s2.headers) && s2.chunkStart >= 0 && ScanChunks(s2.buffer, s2.chunkStart).stop.Negative?
  }

  lemma NegativeSizeIsInBuffer(c: Config, s: Socket, trace: seq<Event>)
    ensures MeetsNegativeSize(c, s.(trace := trace, delayed := false)) == MeetsNegativeSize(c, s)
  {
    hide IndexOf, ParseHeaders, ScanChunks;
  }

  function LastCall(trace: seq<Event>): nat {
    if DispatchCount(trace) == 0 then 0 else DispatchCount(trace) - 1
  }

  /** sendDelayedReply: reply to the call being handled, then read what arrived in the meantime. */
  function AnswerDelayed(c: Config, s: Socket): Socket {
    var s1 := s.(trace := s.trace + [Reply(LastCall(s.trace))], delayed := false);
    if s1.enabled then s1 else ReadyRead(c, s1.(enabled := true))
  }

  class ServerSocket {
    const config: Config
    var socketEnabled: bool
    var delayedResponse: bool
    var receivedData: bool
    var connectionCount: nat
    var incoming: Bytes
    var httpHeaders: Headers
    var requestBuffer: Bytes
    var bytesReceived: nat
    var chunkStart: int
    var decodedRequestBuffer: Bytes
    var useRawXML: bool
    var trace: seq<Event>

    function View(): Socket
      reads this
    {
      Socket(socketEnabled, delayedResponse, receivedData, connectionCount, incoming, httpHeaders, requestBuffer,
             bytesReceived, chunkStart, decodedRequestBuffer, useRawXML, trace)
    }

    /** A handle is out exactly while reading is switched off. */
    predicate Valid()
      reads this
    {
      delayedResponse == !socketEnabled
    }

    constructor (config: Config)
      ensures Valid() && this.config == config
      ensures View() == Socket(true, false, false, 0, "", map[], "", 0, 0, "", false, [])
    {
      this.config := config;
      socketEnabled, delayedResponse, receivedData, connectionCount := true, false, false, 0;
      incoming, httpHeaders, requestBuffer, decodedRequestBuffer := "", map[], "", "";
      bytesReceived, chunkStart, useRawXML, trace := 0, 0, false, [];
    }

    /** Read in pieces of READ_SIZE until nothing is left. */
    method ReadIncoming()
      modifies this`incoming, this`requestBuffer, this`bytesReceived
      ensures incoming == ""
      ensures requestBuffer == old(requestBuffer) + old(incoming)
      ensures bytesReceived == old(bytesReceived) + |old(incoming)|
    {
      var nread := -1;
      while nread != 0
        invariant requestBuffer + incoming == old(requestBuffer) + old(incoming)
        invariant bytesReceived + |incoming| == old(bytesReceived) + |old(incoming)|
        invariant nread == 0 ==> incoming == ""
        decreases |incoming|, nread != 0
      {
        nread := if |incoming| < READ_SIZE then |incoming| else READ_SIZE;
        requestBuffer := requestBuffer + incoming[..nread];
        incoming := incoming[nread..];
        bytesReceived := bytesReceived + nread;
      }
    }

    method SlotReadyRead()
      requires Valid()
      requires !MeetsNegativeSize(config, View())
      modifies this
      ensures View() == ReadyRead(config, old(View()))
    {
      hide ReadBody;
      if !socketEnabled {
        return;
      }
      if !receivedData {
        receivedData := true;
        connectionCount := connectionCount + 1;
      }
      ReadIncoming();
      if httpHeaders == map[] {
        var split := ReadHeaders();
        if !split {
          return;
        }
      }
      ReadRequestBody();
    }

    /** Take the header block off the buffer, if all of it has arrived. */
    method ReadHeaders() returns (split: bool)
      modifies this`httpHeaders, this`requestBuffer, this`bytesReceived, this`useRawXML, this`trace
      ensures split == HasHead(old(requestBuffer))
      ensures View() == if split then ReadHead(config, old(View())) else old(View())
    {
      hide IndexOf, ParseHeaders;
      var sep := IndexOf(requestBuffer, BLANK_LINE, 0);
      if sep <= 0 {
        return false;
      }
      httpHeaders := ParseHeaders(requestBuffer[..sep]);
      requestBuffer := requestBuffer[sep + 4..];
      bytesReceived := |requestBuffer|;
      useRawXML := false;
      if config.raw.Raw? {
        trace := trace + [NewRequest(httpHeaders)];
        useRawXML := config.raw.takes(httpHeaders);
      }
      return true;
    }

    method ReadRequestBody()
      requires Valid() && socketEnabled
      requires !(IsChunked(httpHeaders) && chunkStart >= 0 && ScanChunks(requestBuffer, chunkStart).stop.Negative?)
      modifies this
      ensures View() == ReadBody(config, old(View()))
    {
      hide Handle, RunChunks, ContentLength, IndexOf, ScanChunks, IsChunked, Deliver, Forget;
      if !IsChunked(httpHeaders) {
        if useRawXML {
          trace := trace + [ProcessXML(requestBuffer)];
          requestBuffer := "";
        }
        if bytesReceived < ContentLength(httpHeaders) {
          return;
        }
        DeliverRequest(requestBuffer);
      } else {
        var complete := ReadChunks();
        if !complete || IndexOf(requestBuffer, BLANK_LINE, 0) < 0 {
          return;
        }
        DeliverRequest(decodedRequestBuffer);
        decodedRequestBuffer := "";
        chunkStart := 0;
      }
      ForgetRequest();
    }

    method DeliverRequest(body: Bytes)
      requires Valid() && socketEnabled
      modifies this`delayedResponse, this`socketEnabled, this`trace
      ensures View() == Deliver(config, old(View()), body)
    {
      hide Handle;
      if useRawXML {
        trace := trace + [EndRequest];
      } else {
        HandleRequest(httpHeaders, body);
      }
    }

    method ForgetRequest()
      modifies this`requestBuffer, this`httpHeaders, this`receivedData
      ensures View() == Forget(old(View()))
    {
      requestBuffer := "";
      httpHeaders := map[];
      receivedData := false;
    }

    method TakeChunk(chunk: Bytes)
      modifies this`decodedRequestBuffer, this`trace
      ensures View() == TakeChunks(old(View()), [chunk])
    {
      assert Calls([chunk]) == [ProcessXML(chunk)];
      assert Concat([chunk]) == chunk + Concat([]);
      if useRawXML {
        trace := trace + [ProcessXML(chunk)];
      } else {
        decodedRequestBuffer := decodedRequestBuffer + chunk;
      }
    }

    method ReadChunks() returns (complete: bool)
      requires chunkStart >= 0 ==> !ScanChunks(requestBuffer, chunkStart).stop.Negative?
      modifies this`requestBuffer, this`chunkStart, this`decodedRequestBuffer, this`trace
      ensures (View(), complete) == RunChunks(old(View()))
    {
      hide ToInt, IndexOf, TakeChunks, ScanChunks;
      ghost var before := View();
      ghost var done: seq<Bytes> := [];
      TakeNoChunks(before);
      assert done + [] == done;
      while chunkStart >= 0
        invariant chunkStart >= 0 <==> before.chunkStart >= 0
        invariant before.chunkStart < 0 ==> View() == before
        invariant before.chunkStart >= 0 ==>
          && requestBuffer == before.buffer
          && ScanChunks(before.buffer, before.chunkStart) == ScanChunks(requestBuffer, chunkStart).After(done)
          && View() == TakeChunks(before, done).(chunkStart := chunkStart)
        decreases if chunkStart >= 0 then |requestBuffer| - chunkStart + 1 else 0
      {
        ScanTurn(requestBuffer, chunkStart, done);
        var eol := IndexOf(requestBuffer, CRLF, chunkStart);
        if eol == -1 {
          return false;
        }
        var size := ToInt(requestBuffer[chunkStart..eol], 16);
        if size == None {
          trace := trace + [BadRequest];
          return false;
        }
        if size.value == 0 {
          requestBuffer := requestBuffer[eol..];
          chunkStart := -1;
          return true;
        }
        if eol + 2 + size.value + 2 >= |requestBuffer| {
          return false;
        }
        var chunk := requestBuffer[eol + 2..eol + 2 + size.value];
        TakeChunksAppend(before, done, chunk, chunkStart);
        TakeChunk(chunk);
        done := done + [chunk];
        chunkStart := eol + 2 + size.value + 2;
      }
      return true;
    }

    method HandleRequest(headers: Headers, body: Bytes)
      modifies this`delayedResponse, this`socketEnabled, this`trace
      requires Valid() && socketEnabled
      ensures Valid() && View() == Handle(config, old(View()), headers, body)
    {
      var call := DispatchCount(trace);
      trace := trace + [Dispatch(call, headers, body)];
      var outcome := config.handler(call, headers, body);
      match outcome {
        case Silent => return;
        case Answered =>
        case Delayed => delayedResponse := true;
        case AnsweredInside =>
          delayedResponse := true;
          trace := trace + [Reply(call)];
          delayedResponse := false;
      }
      if delayedResponse {
        socketEnabled := false;
      } else {
        trace := trace + [Reply(call)];
      }
    }

    /** The handle's reply: send it, then re-enable the socket, which reads again at once. */
    method SendDelayedReply()
      requires Valid() && delayedResponse
      requires !MeetsNegativeSize(config, View().(enabled := true))
      modifies this
      ensures View() == AnswerDelayed(config, old(View()))
    {
      hide MeetsNegativeSize, ReadyRead, LastCall;
      NegativeSizeIsInBuffer(config, View().(enabled := true), trace + [Reply(LastCall(trace))]);
      trace := trace + [Reply(LastCall(trace))];
      delayedResponse := false;
      SetSocketEnabled(true);
    }

    method SetSocketEnabled(enabled: bool)
      requires !delayedResponse
      requires enabled ==> !MeetsNegativeSize(config, View().(enabled := true))
      modifies this
      ensures View() == if old(socketEnabled) == enabled then old(View())
                        else if enabled then ReadyRead(config, old(View()).(enabled := true))
                        else old(View()).(enabled := false)
    {
      if socketEnabled == enabled {
        return;
      }
      socketEnabled := enabled;
      if enabled {
        SlotReadyRead();
      }
    }
  }
}
