/**
 Segmentation independence of the HTTP reader: however TCP cuts the bytes of one request,
 the request is handed over once, at the read that brings its last byte, with the same headers and body.
 */
module HttpFraming {
  import opened ServerSocket
  import opened Text
  import opened Wrappers

  /** One HTTP chunk: its size as written, and its data. */
  datatype Chunk = Chunk(size: Bytes, data: Bytes)

  datatype Payload =
    | Sized(body: Bytes)
    | Chunked(chunks: seq<Chunk>, last: Bytes, trailer: Bytes)

  datatype Request = Request(head: Bytes, payload: Payload)

  // ----- the bytes of a request (section 4.1 of RFC 7230) -----

  function ChunkWire(c: Chunk): Bytes {
    c.size + (CRLF + (c.data + CRLF))
  }

  function ChunksWire(cs: seq<Chunk>): Bytes {
    if cs == [] then "" else ChunkWire(cs[0]) + ChunksWire(cs[1..])
  }

  function Ending(trailer: Bytes): Bytes {
    CRLF + trailer + CRLF
  }

  function PayloadWire(p: Payload): Bytes {
    match p
    case Sized(body) => body
    case Chunked(cs, last, trailer) => ChunksWire(cs) + (last + Ending(trailer))
  }

  function Wire(r: Request): Bytes {
    r.head + BLANK_LINE + PayloadWire(r.payload)
  }

  function Datas(cs: seq<Chunk>): seq<Bytes> {
    seq(|cs|, i requires 0 <= i < |cs| => cs[i].data)
  }

  function Body(p: Payload): Bytes {
    match p
    case Sized(body) => body
    case Chunked(cs, _, _) => Concat(Datas(cs))
  }

  // ----- well-formed requests -----

  predicate WfChunk(c: Chunk) {
    '\r' !in c.size && |c.data| > 0 && ToInt(c.size, 16) == Some(|c.data|)
  }

  predicate WfPayload(p: Payload, headers: Headers) {
    match p
    case Sized(body) => !IsChunked(headers) && ContentLength(headers) == |body|
    case Chunked(cs, last, trailer) =>
      && IsChunked(headers)
      && (forall c :: c in cs ==> WfChunk(c))
      && '\r' !in last && ToInt(last, 16) == Some(0)
      && IndexOf(Ending(trailer), BLANK_LINE, 0) == |trailer|
  }

  predicate WfRequest(r: Request) {
    && r.head != ""
    && IndexOf(r.head + BLANK_LINE, BLANK_LINE, 0) == |r.head|
    && ParseHeaders(r.head) != map[]
    && WfPayload(r.payload, ParseHeaders(r.head))
  }

  // ----- searching in a prefix -----

  /** A first occurrence is found in every longer string, and in no string that stops before its end. */
  lemma IndexOfInPrefix(whole: Bytes, pat: Bytes, from: nat, q: Bytes)
    requires IndexOf(whole, pat, from) >= 0
    requires q <= whole || whole <= q
    ensures IndexOf(q, pat, from) == if |q| < IndexOf(whole, pat, from) + |pat| then -1 else IndexOf(whole, pat, from)
  {
    hide IndexOf, At;
    var r := IndexOf(whole, pat, from);
    forall k: int
      ensures At(q, pat, k) && k + |pat| <= |whole| ==> At(whole, pat, k)
      ensures At(whole, pat, k) && k + |pat| <= |q| ==> At(q, pat, k)
      ensures At(q, pat, k) ==> k + |pat| <= |q|
      ensures At(whole, pat, k) ==> k + |pat| <= |whole|
    {
      SameAt(whole, q, pat, k);
    }
    if |q| >= r + |pat| {
      IndexOfIs(q, pat, from, r);
    }
  }

  lemma SameAt(a: Bytes, b: Bytes, pat: Bytes, k: int)
    requires a <= b || b <= a
    ensures At(a, pat, k) ==> 0 <= k && k + |pat| <= |a|
    ensures At(b, pat, k) ==> 0 <= k && k + |pat| <= |b|
    ensures 0 <= k <= |a| - |pat| && k <= |b| - |pat| ==> At(a, pat, k) == At(b, pat, k)
  {
    if 0 <= k <= |a| - |pat| && k <= |b| - |pat| {
      assert a[k..k + |pat|] == b[k..k + |pat|];
    }
  }

  /** The bytes of `w` from `o` on start with a line `text`. */
  predicate LineAt(w: Bytes, o: nat, text: Bytes) {
    o + |text| + 2 <= |w| && w[o..o + |text|] == text && w[o + |text|] == '\r' && w[o + |text| + 1] == '\n'
  }

  /** The line's end is found in every prefix that holds it, and nothing is found before. */
  lemma LineEnd(w: Bytes, o: nat, text: Bytes, q: Bytes)
    requires '\r' !in text && LineAt(w, o, text)
    requires q <= w
    ensures IndexOf(q, CRLF, o) == if |q| < o + |text| + 2 then -1 else o + |text|
  {
    hide IndexOf;
    var end := o + |text|;
    assert w[end..end + 2] == CRLF;
    forall k | o <= k < end
      ensures !At(w, CRLF, k)
    {
      assert w[k] == w[o..end][k - o] == text[k - o];
      assert k <= |w| - 2 ==> w[k..k + 2][0] == w[k];
    }
    IndexOfIs(w, CRLF, o, end);
    IndexOfInPrefix(w, CRLF, o, q);
  }

  lemma AfterNothing(s: Scan)
    ensures s.After([]) == s
  {
    assert [] + s.calls == s.calls;
  }

  lemma ScanLast(w: Bytes, o: nat, last: Bytes, q: Bytes)
    requires '\r' !in last && ToInt(last, 16) == Some(0)
    requires LineAt(w, o, last) && q <= w
    ensures ScanChunks(q, o) == if |q| < o + |last| + 2 then Scan(NeedMore, o, []) else Scan(LastChunk, o + |last|, [])
  {
    hide ToInt, IndexOf, ScanChunks;
    LineEnd(w, o, last, q);
    ScanTurn(q, o, []);
    AfterNothing(ScanChunks(q, o));
    assert |q| >= o + |last| + 2 ==> q[o..o + |last|] == w[o..o + |last|];
  }

  /** A chunk is taken once at least one byte after it has arrived. */
  lemma ScanOneChunk(w: Bytes, o: nat, c: Chunk, q: Bytes)
    requires WfChunk(c)
    requires LineAt(w, o, c.size) && q <= w
    requires o + |ChunkWire(c)| <= |w| && w[o + |c.size| + 2..o + |c.size| + 2 + |c.data|] == c.data
    ensures var next := o + |ChunkWire(c)|;
            ScanChunks(q, o) == if |q| <= next then Scan(NeedMore, o, []) else ScanChunks(q, next).After([c.data])
  {
    hide ToInt, IndexOf, ScanChunks;
    LineEnd(w, o, c.size, q);
    ScanTurn(q, o, []);
    AfterNothing(ScanChunks(q, o));
    var end := o + |c.size|;
    if |q| >= end + 2 {
      assert q[o..end] == w[o..end];
      if |q| > o + |ChunkWire(c)| {
        assert q[end + 2..end + 2 + |c.data|] == w[end + 2..end + 2 + |c.data|];
        assert [] + [c.data] == [c.data];
      }
    }
  }

  /** Where the first chunk's pieces are. */
  lemma ChunkPieces(w: Bytes, o: nat, c: Chunk, rest: Bytes)
    requires o <= |w| && w[o..] == ChunkWire(c) + rest
    ensures LineAt(w, o, c.size)
    ensures o + |ChunkWire(c)| <= |w| && w[o + |c.size| + 2..o + |c.size| + 2 + |c.data|] == c.data
    ensures w[o + |ChunkWire(c)|..] == rest
  {
    var t := w[o..];
    var n := |c.size|;
    assert forall i :: 0 <= i < |t| ==> t[i] == w[o + i];
    assert t[..n] == c.size && t[n] == '\r' && t[n + 1] == '\n';
    assert t[n + 2..n + 2 + |c.data|] == c.data;
    assert t[|ChunkWire(c)|..] == rest;
  }

  /** The chunk loop on a prefix `q` of a body: how many chunks it takes, and where it stops. */
  lemma {:induction false} ScanPrefix(w: Bytes, o: nat, cs: seq<Chunk>, last: Bytes, trailer: Bytes, q: Bytes) returns (j: nat)
    requires WfChunks(cs, last)
    requires o <= |w| && w[o..] == ChunksWire(cs) + (last + Ending(trailer))
    requires q <= w && o <= |q|
    ensures j <= |cs|
    ensures var all := |q| >= o + |ChunksWire(cs)| + |last| + 2;
            && (all ==> j == |cs|)
            && o + |ChunksWire(cs[..j])| <= |q|
            && ScanChunks(q, o)
            == if all then Scan(LastChunk, o + |ChunksWire(cs)| + |last|, Datas(cs))
               else Scan(NeedMore, o + |ChunksWire(cs[..j])|, Datas(cs[..j]))
    decreases |cs|
  {
    hide ScanChunks, ToInt, ChunkWire, Ending, LineAt;
    j := 0;
    assert Datas(cs[..0]) == [];
    if cs == [] {
      LastPieces(w, o, last, trailer);
      ScanLast(w, o, last, q);
      assert Datas(cs) == [];
    } else {
      assert cs[0] in cs;
      var wire := ChunkWire(cs[0]);
      var after := ChunksWire(cs[1..]) + (last + Ending(trailer));
      assert w[o..] == wire + after;
      ChunkPieces(w, o, cs[0], after);
      ScanOneChunk(w, o, cs[0], q);
      if |q| > o + |wire| {
        var j' := ScanPrefix(w, o + |wire|, cs[1..], last, trailer, q);
        j := j' + 1;
        assert cs[..j][0] == cs[0] && cs[..j][1..] == cs[1..][..j'];
        DatasCons(cs);
        DatasCons(cs[..j]);
      }
    }
  }

  lemma DatasCons(cs: seq<Chunk>)
    requires cs != []
    ensures Datas(cs) == [cs[0].data] + Datas(cs[1..])
  {
  }

  lemma LastPieces(w: Bytes, o: nat, last: Bytes, trailer: Bytes)
    requires o <= |w| && w[o..] == ChunksWire([]) + (last + Ending(trailer))
    ensures LineAt(w, o, last)
  {
    var t := w[o..];
    var n := |last|;
    assert t == last + Ending(trailer);
    assert forall i :: 0 <= i < |t| ==> t[i] == w[o + i];
    assert t[..n] == last && t[n] == '\r' && t[n + 1] == '\n';
  }

  predicate WfChunks(cs: seq<Chunk>, last: Bytes) {
    (forall c :: c in cs ==> WfChunk(c)) && '\r' !in last && ToInt(last, 16) == Some(0)
  }

  lemma {:induction false} ChunksWireSplit(cs: seq<Chunk>, k: nat)
    requires k <= |cs|
    ensures ChunksWire(cs) == ChunksWire(cs[..k]) + ChunksWire(cs[k..])
  {
    hide ChunkWire;
    if k == 0 {
      assert cs[..0] == [] && cs[0..] == cs;
    } else {
      ChunksWireSplit(cs[1..], k - 1);
      assert cs[1..][..k - 1] == cs[..k][1..] && cs[1..][k - 1..] == cs[k..];
      assert cs[..k][0] == cs[0];
    }
  }

  // ----- the reader in the middle of a request -----

  function HeadersOf(r: Request): Headers {
    ParseHeaders(r.head)
  }

  /** The pieces and the buffers of a request whose first `k` chunks have been taken. */
  predicate TookChunks(s: Socket, cs: seq<Chunk>, k: nat, pieces: seq<Bytes>)
    requires k <= |cs|
  {
    if s.useRaw then pieces == Datas(cs[..k]) && s.decoded == "" else pieces == [] && s.decoded == Concat(Datas(cs[..k]))
  }

  /** The payload bytes `q` have been read, up to the last chunk taken, or the sized body's first |q| bytes. */
  predicate PayloadRead(s: Socket, p: Payload, q: Bytes, k: nat, pieces: seq<Bytes>) {
    match p
    case Sized(body) =>
      && s.decoded == "" && s.chunkStart == 0 && s.bytesReceived == |q| && k == 0
      && (if s.useRaw then Concat(pieces) + s.buffer == q else pieces == [] && s.buffer == q)
    case Chunked(cs, last, trailer) =>
      && k <= |cs| && TookChunks(s, cs, k, pieces)
      && ( || (s.chunkStart == |ChunksWire(cs[..k])| && s.chunkStart <= |q| && s.buffer == q)
           || (s.chunkStart == -1 && k == |cs| && |q| >= |ChunksWire(cs)| + |last| + 2
               && s.buffer == q[|ChunksWire(cs)| + |last|..]))
  }

  /** The header block has been taken, and the payload bytes `q` read, since the trace was `base`. */
  predicate InBody(c: Config, base: seq<Event>, s: Socket, r: Request, q: Bytes, k: nat, pieces: seq<Bytes>) {
    && s.enabled && !s.delayed && s.incoming == "" && s.headers == HeadersOf(r)
    && s.useRaw == TakesRaw(c, HeadersOf(r))
    && s.trace == base + Opening(c, HeadersOf(r)) + Calls(pieces)
    && PayloadRead(s, r.payload, q, k, pieces)
  }

  /** Nothing of a request is left behind. */
  predicate Idle(s: Socket) {
    s.headers == map[] && s.buffer == "" && s.decoded == "" && s.chunkStart == 0 && s.incoming == ""
  }

  function Replies(o: Outcome, n: nat): seq<Event> {
    match o
    case Silent => []
    case Answered => [Reply(n)]
    case Delayed => []
    case AnsweredInside => [Reply(n), Reply(n)]
  }

  /** What a complete request leaves in the trace. */
  function Handled(c: Config, base: seq<Event>, r: Request, pieces: seq<Bytes>): seq<Event> {
    var headers := HeadersOf(r);
    var n := DispatchCount(base);
    base + Opening(c, headers) +
    if TakesRaw(c, headers) then Calls(pieces) + [EndRequest]
    else [Dispatch(n, headers, Body(r.payload))] + Replies(c.handler(n, headers, Body(r.payload)), n)
  }

  /** The raw-XML calls carry the body; for a chunked request there is one per HTTP chunk. */
  predicate CarriesBody(c: Config, r: Request, pieces: seq<Bytes>) {
    if TakesRaw(c, HeadersOf(r)) then
      && Concat(pieces) == Body(r.payload)
      && (r.payload.Chunked? ==> pieces == Datas(r.payload.chunks))
    else pieces == []
  }

  predicate TakesHandle(c: Config, base: seq<Event>, r: Request) {
    !TakesRaw(c, HeadersOf(r)) && c.handler(DispatchCount(base), HeadersOf(r), Body(r.payload)).Delayed?
  }

  /** The request has been handed over and the reader is ready for the next one. */
  predicate Done(c: Config, base: seq<Event>, s: Socket, r: Request, pieces: seq<Bytes>) {
    && Idle(s) && CarriesBody(c, r, pieces)
    && s.trace == Handled(c, base, r, pieces)
    && s.delayed == TakesHandle(c, base, r) && s.enabled == !s.delayed && !s.receivedData
  }

  lemma OpeningIsNoDispatch(c: Config, base: seq<Event>, headers: Headers)
    ensures DispatchCount(base + Opening(c, headers)) == DispatchCount(base)
  {
    var t := base + Opening(c, headers);
    if c.raw.Raw? {
      assert t[..|t| - 1] == base && t[|t| - 1] == NewRequest(headers);
    } else {
      assert t == base;
    }
  }

  /** The complete body is there: Deliver and Forget finish the request. */
  lemma DeliverDone(c: Config, base: seq<Event>, s: Socket, r: Request, pieces: seq<Bytes>)
    requires s.enabled && !s.delayed && s.incoming == "" && s.headers == HeadersOf(r)
    requires s.useRaw == TakesRaw(c, HeadersOf(r))
    requires s.trace == base + Opening(c, HeadersOf(r)) + Calls(pieces)
    requires CarriesBody(c, r, pieces)
    ensures Done(c, base, Forget(Deliver(c, s, Body(r.payload)).(decoded := "", chunkStart := 0)), r, pieces)
  {
    hide ParseHeaders, Body, DispatchCount, Concat, Datas;
    OpeningIsNoDispatch(c, base, HeadersOf(r));
    if !s.useRaw {
      assert Calls(pieces) == [];
      assert s.trace == base + Opening(c, HeadersOf(r));
    }
  }

  lemma SizedStep(c: Config, base: seq<Event>, s: Socket, r: Request, q: Bytes, pieces: seq<Bytes>) returns (pieces': seq<Bytes>)
    requires WfRequest(r) && r.payload.Sized? && q <= r.payload.body
    requires InBody(c, base, s, r, q, 0, pieces)
    ensures if q == r.payload.body then Done(c, base, ReadBody(c, s), r, pieces')
            else InBody(c, base, ReadBody(c, s), r, q, 0, pieces')
  {
    hide ParseHeaders, IndexOf;
    pieces' := if s.useRaw then pieces + [s.buffer] else pieces;
    if s.useRaw {
      ConcatSnoc(pieces, s.buffer);
      assert Calls(pieces') == Calls(pieces) + [ProcessXML(s.buffer)];
    }
    if q == r.payload.body {
      var s1 := if s.useRaw then s.(trace := s.trace + [ProcessXML(s.buffer)], buffer := "") else s;
      DeliverDone(c, base, s1, r, pieces');
    }
  }

  lemma CallsAppend(a: seq<Bytes>, b: seq<Bytes>)
    ensures Calls(a + b) == Calls(a) + Calls(b)
  {
  }

  /** The trailer's blank line is found exactly when the last byte of the request is there. */
  lemma EndingFound(p: Payload, q: Bytes)
    requires p.Chunked? && q <= PayloadWire(p) && |ChunksWire(p.chunks)| + |p.last| <= |q|
    requires IndexOf(Ending(p.trailer), BLANK_LINE, 0) == |p.trailer|
    ensures IndexOf(q[|ChunksWire(p.chunks)| + |p.last|..], BLANK_LINE, 0) < 0 <==> q != PayloadWire(p)
  {
    hide IndexOf;
    var n := |ChunksWire(p.chunks)| + |p.last|;
    var tail := q[n..];
    assert PayloadWire(p)[n..] == Ending(p.trailer);
    assert tail <= Ending(p.trailer);
    IndexOfInPrefix(Ending(p.trailer), BLANK_LINE, 0, tail);
  }

  lemma TookMore(s: Socket, cs: seq<Chunk>, k: nat, j: nat, pieces: seq<Bytes>)
    requires k + j <= |cs| && TookChunks(s, cs, k, pieces)
    ensures var calls := Datas(cs[k..][..j]);
            TookChunks(TakeChunks(s, calls), cs, k + j, if s.useRaw then pieces + calls else pieces)
  {
    hide ChunksWire, Datas, Concat;
    TakenSplit(cs, k, j);
  }

  /** What the loop finds in the payload bytes read so far, when it starts after `k` chunks. */
  lemma ScanFrom(p: Payload, q: Bytes, k: nat) returns (j: nat)
    requires p.Chunked? && WfChunks(p.chunks, p.last) && k <= |p.chunks|
    requires q <= PayloadWire(p) && |ChunksWire(p.chunks[..k])| <= |q|
    ensures k + j <= |p.chunks|
    ensures var all := |ChunksWire(p.chunks)| + |p.last|;
            var calls, at := Datas(p.chunks[k..][..j]), |ChunksWire(p.chunks[..k + j])|;
            && at <= |q| && (|q| >= all + 2 ==> k + j == |p.chunks|)
            && ScanChunks(q, |ChunksWire(p.chunks[..k])|) == if |q| >= all + 2 then Scan(LastChunk, all, calls) else Scan(NeedMore, at, calls)
  {
    hide ChunksWire, ScanChunks, ToInt, Datas;
    var cs, w, o := p.chunks, PayloadWire(p), |ChunksWire(p.chunks[..k])|;
    var more := cs[k..];
    ChunksWireSplit(cs, k);
    assert w[o..] == ChunksWire(more) + (p.last + Ending(p.trailer));
    j := ScanPrefix(w, o, more, p.last, p.trailer, q);
    TakenSplit(cs, k, j);
    assert more[..|more|] == more;
  }

  /** The socket after taking some more chunks. */
  lemma TookMoreInBody(c: Config, base: seq<Event>, s: Socket, r: Request, q: Bytes, k: nat, j: nat, pieces: seq<Bytes>, s': Socket)
    requires r.payload.Chunked? && InBody(c, base, s, r, q, k, pieces) && s.chunkStart >= 0 && k + j <= |r.payload.chunks|
    requires var cs := r.payload.chunks;
             var s1 := TakeChunks(s, Datas(cs[k..][..j]));
             || (s' == s1.(chunkStart := |ChunksWire(cs[..k + j])|) && s'.chunkStart <= |q|)
             || (k + j == |cs| && |q| >= |ChunksWire(cs)| + |r.payload.last| + 2
                 && s' == s1.(buffer := q[|ChunksWire(cs)| + |r.payload.last|..], chunkStart := -1))
    ensures InBody(c, base, s', r, q, k + j, if s.useRaw then pieces + Datas(r.payload.chunks[k..][..j]) else pieces)
  {
    hide ParseHeaders, ChunksWire, Datas, Concat, TookChunks, Opening;
    var calls := Datas(r.payload.chunks[k..][..j]);
    TookMore(s, r.payload.chunks, k, j, pieces);
    CallsAppend(pieces, calls);
    var s1 := TakeChunks(s, calls);
    SameTook(s1, s', r.payload.chunks, k + j, if s.useRaw then pieces + calls else pieces);
  }

  lemma SameTook(s: Socket, s': Socket, cs: seq<Chunk>, k: nat, pieces: seq<Bytes>)
    requires k <= |cs| && s'.useRaw == s.useRaw && s'.decoded == s.decoded
    ensures TookChunks(s, cs, k, pieces) == TookChunks(s', cs, k, pieces)
  {
  }

  /** The chunk loop on the payload bytes read so far. */
  lemma ChunkLoopStep(c: Config, base: seq<Event>, s: Socket, r: Request, q: Bytes, k: nat, pieces: seq<Bytes>)
    returns (k': nat, pieces': seq<Bytes>)
    requires WfRequest(r) && r.payload.Chunked? && q <= PayloadWire(r.payload)
    requires InBody(c, base, s, r, q, k, pieces)
    ensures InBody(c, base, RunChunks(s).0, r, q, k', pieces')
    ensures RunChunks(s).1 == (RunChunks(s).0.chunkStart < 0)
    ensures q == PayloadWire(r.payload) ==> RunChunks(s).1
  {
    hide ParseHeaders, IndexOf, ScanChunks, ToInt, Concat, ChunksWire, Datas, TookChunks, Opening, TakeChunks;
    k', pieces' := k, pieces;
    if s.chunkStart >= 0 {
      var j := ScanFrom(r.payload, q, k);
      var calls := Datas(r.payload.chunks[k..][..j]);
      k', pieces' := k + j, if s.useRaw then pieces + calls else pieces;
      assert s.buffer == q && s.chunkStart == |ChunksWire(r.payload.chunks[..k])|;
      TookMoreInBody(c, base, s, r, q, k, j, pieces, RunChunks(s).0);
    }
  }

  lemma TakenSplit(cs: seq<Chunk>, k: nat, j: nat)
    requires k + j <= |cs|
    ensures |ChunksWire(cs[..k + j])| == |ChunksWire(cs[..k])| + |ChunksWire(cs[k..][..j])|
    ensures Datas(cs[..k + j]) == Datas(cs[..k]) + Datas(cs[k..][..j])
    ensures Concat(Datas(cs[..k + j])) == Concat(Datas(cs[..k])) + Concat(Datas(cs[k..][..j]))
  {
    hide ChunksWire;
    var taken := cs[..k + j];
    assert taken[..k] == cs[..k] && taken[k..] == cs[k..][..j];
    ChunksWireSplit(taken, k);
    ConcatAppend(Datas(cs[..k]), Datas(cs[k..][..j]));
  }

  lemma ChunkedStep(c: Config, base: seq<Event>, s: Socket, r: Request, q: Bytes, k: nat, pieces: seq<Bytes>)
    returns (k': nat, pieces': seq<Bytes>)
    requires WfRequest(r) && r.payload.Chunked? && q <= PayloadWire(r.payload)
    requires InBody(c, base, s, r, q, k, pieces)
    ensures if q == PayloadWire(r.payload) then Done(c, base, ReadBody(c, s), r, pieces')
            else InBody(c, base, ReadBody(c, s), r, q, k', pieces')
  {
    hide ParseHeaders, IndexOf, RunChunks, Done, ToInt;
    k', pieces' := ChunkLoopStep(c, base, s, r, q, k, pieces);
    var (s1, complete) := RunChunks(s);
    if complete {
      EndingFound(r.payload, q);
      var cs := r.payload.chunks;
      assert cs[..|cs|] == cs;
      if q == PayloadWire(r.payload) {
        DeliverDone(c, base, s1, r, pieces');
      }
    }
  }

  // ----- reads -----

  /** The bytes `p` of the request have been read: proper prefix, in the header block or in the payload. */
  predicate Midway(c: Config, base: seq<Event>, s: Socket, r: Request, p: Bytes, k: nat, pieces: seq<Bytes>) {
    && p <= Wire(r) && p != Wire(r)
    && if |p| < |r.head| + 4 then
         && s.enabled && !s.delayed && s.incoming == "" && s.headers == map[] && s.buffer == p
         && s.decoded == "" && s.chunkStart == 0 && s.trace == base && k == 0 && pieces == []
       else InBody(c, base, s, r, p[|r.head| + 4..], k, pieces)
  }

  /** `segment` arrives and readyRead() fires. */
  function Arrive(c: Config, s: Socket, segment: Bytes): Socket {
    ReadyRead(c, s.(incoming := s.incoming + segment))
  }

  function ArriveAll(c: Config, s: Socket, segments: seq<Bytes>): Socket
    decreases |segments|
  {
    if segments == [] then s
    else Arrive(c, ArriveAll(c, s, segments[..|segments| - 1]), segments[|segments| - 1])
  }

  /** The header block is found once all of it is there. */
  lemma HeadFound(r: Request, p: Bytes)
    requires WfRequest(r) && p <= Wire(r)
    ensures HasHead(p) == (|p| >= |r.head| + 4)
    ensures HasHead(p) ==> IndexOf(p, BLANK_LINE, 0) == |r.head| && p[..|r.head|] == r.head
  {
    hide IndexOf, ParseHeaders, WfPayload;
    var h := r.head + BLANK_LINE;
    assert h <= Wire(r);
    assert if |p| < |h| then p <= h else h <= p;
    IndexOfInPrefix(h, BLANK_LINE, 0, p);
    assert |p| >= |h| ==> p[..|r.head|] == h[..|r.head|] == r.head;
  }

  lemma BodyStep(c: Config, base: seq<Event>, s: Socket, r: Request, q: Bytes, k: nat, pieces: seq<Bytes>)
    returns (k': nat, pieces': seq<Bytes>)
    requires WfRequest(r) && q <= PayloadWire(r.payload)
    requires InBody(c, base, s, r, q, k, pieces)
    ensures if q == PayloadWire(r.payload) then Done(c, base, ReadBody(c, s), r, pieces')
            else InBody(c, base, ReadBody(c, s), r, q, k', pieces')
  {
    hide ReadBody, Done, ParseHeaders;
    if r.payload.Sized? {
      k' := 0;
      pieces' := SizedStep(c, base, s, r, q, pieces);
    } else {
      k', pieces' := ChunkedStep(c, base, s, r, q, k, pieces);
    }
  }

  lemma HeadTaken(c: Config, base: seq<Event>, s: Socket, r: Request, p: Bytes)
    requires s.enabled && !s.delayed && s.incoming == "" && s.buffer == p
    requires s.decoded == "" && s.chunkStart == 0 && s.trace == base
    requires HasHead(p) && IndexOf(p, BLANK_LINE, 0) == |r.head| && p[..|r.head|] == r.head
    ensures InBody(c, base, ReadHead(c, s), r, p[|r.head| + 4..], 0, [])
  {
    hide ParseHeaders, IndexOf;
    assert Calls([]) == [];
    if r.payload.Chunked? {
      assert r.payload.chunks[..0] == [];
      assert Datas([]) == [];
    }
  }

  lemma BodyGrows(c: Config, base: seq<Event>, s: Socket, r: Request, q: Bytes, segment: Bytes, k: nat, pieces: seq<Bytes>)
    requires InBody(c, base, s, r, q, k, pieces)
    ensures InBody(c, base, ReadAll(s.(incoming := s.incoming + segment)), r, q + segment, k, pieces)
  {
    hide ParseHeaders, PayloadRead;
    assert s.incoming + segment == segment;
    PayloadGrows(s, r.payload, q, segment, k, pieces);
  }

  lemma PayloadGrows(s: Socket, p: Payload, q: Bytes, segment: Bytes, k: nat, pieces: seq<Bytes>)
    requires PayloadRead(s, p, q, k, pieces)
    ensures forall s': Socket ::
              s'.buffer == s.buffer + segment && s'.bytesReceived == s.bytesReceived + |segment|
              && s'.decoded == s.decoded && s'.chunkStart == s.chunkStart && s'.useRaw == s.useRaw
              ==> PayloadRead(s', p, q + segment, k, pieces)
  {
    hide ChunksWire, Concat;
    match p
    case Sized(_) =>
      assert Concat(pieces) + (s.buffer + segment) == (Concat(pieces) + s.buffer) + segment;
    case Chunked(cs, last, _) =>
      var n := |ChunksWire(cs)| + |last|;
      assert |q| >= n ==> (q + segment)[n..] == q[n..] + segment;
  }

  /** One read: the state depends on the bytes read so far, not on how they were cut. */
  lemma ArriveStep(c: Config, base: seq<Event>, s: Socket, r: Request, p: Bytes, segment: Bytes, k: nat, pieces: seq<Bytes>)
    returns (k': nat, pieces': seq<Bytes>)
    requires WfRequest(r) && Midway(c, base, s, r, p, k, pieces)
    requires p + segment <= Wire(r)
    ensures if p + segment == Wire(r) then Done(c, base, Arrive(c, s, segment), r, pieces')
            else Midway(c, base, Arrive(c, s, segment), r, p + segment, k', pieces')
  {
    hide ParseHeaders, IndexOf, ReadBody, ReadHead, PayloadRead, Done, WfPayload;
    var n := |r.head| + 4;
    var p' := p + segment;
    var s1 := ReadAll(s.(incoming := s.incoming + segment));
    assert s.incoming + segment == segment;
    assert Wire(r)[n..] == PayloadWire(r.payload);
    HeadFound(r, p');
    if |p| < n {
      k', pieces' := 0, [];
      if |p'| >= n {
        HeadTaken(c, base, s1, r, p');
        k', pieces' := BodyStep(c, base, ReadHead(c, s1), r, p'[n..], 0, []);
      }
    } else {
      assert p'[n..] == p[n..] + segment;
      BodyGrows(c, base, s, r, p[n..], segment, k, pieces);
      k', pieces' := BodyStep(c, base, s1, r, p'[n..], k, pieces);
    }
  }

  /** No request has been handed over in this part of the trace. */
  predicate NothingDelivered(events: seq<Event>) {
    forall e :: e in events ==> e.NewRequest? || e.ProcessXML?
  }

  lemma MidwayDeliversNothing(c: Config, base: seq<Event>, s: Socket, r: Request, p: Bytes, k: nat, pieces: seq<Bytes>)
    requires Midway(c, base, s, r, p, k, pieces)
    ensures base <= s.trace && NothingDelivered(s.trace[|base|..])
  {
    var rest := s.trace[|base|..];
    if |p| >= |r.head| + 4 {
      assert rest == Opening(c, HeadersOf(r)) + Calls(pieces);
    }
  }

  /** After the first reads of a request the reader is midway in it. */
  lemma {:induction false} PrefixRead(c: Config, s: Socket, r: Request, segments: seq<Bytes>)
    returns (k: nat, pieces: seq<Bytes>)
    requires WfRequest(r) && Idle(s) && s.enabled && !s.delayed
    requires Concat(segments) <= Wire(r) && Concat(segments) != Wire(r)
    ensures Midway(c, s.trace, ArriveAll(c, s, segments), r, Concat(segments), k, pieces)
  {
    hide WfRequest, Arrive;
    k, pieces := 0, [];
    if segments != [] {
      var front, last := segments[..|segments| - 1], segments[|segments| - 1];
      assert front + [last] == segments;
      ConcatSnoc(front, last);
      k, pieces := PrefixRead(c, s, r, front);
      k, pieces := ArriveStep(c, s.trace, ArriveAll(c, s, front), r, Concat(front), last, k, pieces);
    }
  }

  /**
   Segmentation independence. For every split of a request's bytes into reads, the request is handed over exactly
   at the read that brings the last byte, with the headers and the body of the request, and the reader is idle again.
   */
  lemma SegmentationIndependence(c: Config, s: Socket, r: Request, segments: seq<Bytes>) returns (pieces: seq<Bytes>)
    requires WfRequest(r) && Idle(s) && s.enabled && !s.delayed
    requires segments != [] && segments[|segments| - 1] != "" && Concat(segments) == Wire(r)
    ensures Done(c, s.trace, ArriveAll(c, s, segments), r, pieces)
    ensures forall i :: 0 <= i < |segments| ==>
              s.trace <= ArriveAll(c, s, segments[..i]).trace
              && NothingDelivered(ArriveAll(c, s, segments[..i]).trace[|s.trace|..])
  {
    hide WfRequest, Arrive, Done, ArriveAll, Midway;
    forall i | 0 <= i < |segments|
      ensures s.trace <= ArriveAll(c, s, segments[..i]).trace
      ensures NothingDelivered(ArriveAll(c, s, segments[..i]).trace[|s.trace|..])
    {
      ProperPrefix(segments, i);
      var k, ps := PrefixRead(c, s, r, segments[..i]);
      MidwayDeliversNothing(c, s.trace, ArriveAll(c, s, segments[..i]), r, Concat(segments[..i]), k, ps);
    }
    pieces := LastRead(c, s, r, segments);
  }

  lemma LastRead(c: Config, s: Socket, r: Request, segments: seq<Bytes>) returns (pieces: seq<Bytes>)
    requires WfRequest(r) && Idle(s) && s.enabled && !s.delayed
    requires segments != [] && segments[|segments| - 1] != "" && Concat(segments) == Wire(r)
    ensures Done(c, s.trace, ArriveAll(c, s, segments), r, pieces)
  {
    hide WfRequest, Arrive, Done, Midway;
    var front, last := segments[..|segments| - 1], segments[|segments| - 1];
    assert front + [last] == segments;
    ConcatSnoc(front, last);
    ProperPrefix(segments, |front|);
    var k, ps := PrefixRead(c, s, r, front);
    k, pieces := ArriveStep(c, s.trace, ArriveAll(c, s, front), r, Concat(front), last, k, ps);
  }

  lemma ProperPrefix(segments: seq<Bytes>, i: nat)
    requires i < |segments| && segments[|segments| - 1] != ""
    ensures Concat(segments[..i]) <= Concat(segments) && Concat(segments[..i]) != Concat(segments)
  {
    hide Concat;
    var n := |segments| - 1;
    var front, rest, last := segments[..i], segments[i..n], segments[n];
    assert segments == front + (rest + [last]);
    ConcatAppend(front, rest + [last]);
    ConcatSnoc(rest, last);
    assert |Concat(segments)| > |Concat(front)|;
  }

  /** Two splits of the same request leave the same trace, up to how the raw-XML calls are cut. */
  lemma SplitsAgree(c: Config, s: Socket, r: Request, a: seq<Bytes>, b: seq<Bytes>)
    requires WfRequest(r) && Idle(s) && s.enabled && !s.delayed
    requires a != [] && a[|a| - 1] != "" && Concat(a) == Wire(r)
    requires b != [] && b[|b| - 1] != "" && Concat(b) == Wire(r)
    requires TakesRaw(c, HeadersOf(r)) ==> r.payload.Chunked?
    ensures ArriveAll(c, s, a).trace == ArriveAll(c, s, b).trace
  {
    hide WfRequest, ArriveAll, Handled;
    var pa := SegmentationIndependence(c, s, r, a);
    var pb := SegmentationIndependence(c, s, r, b);
  }
}
