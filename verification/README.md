# KD Soap in Dafny

KD Soap is a SOAP client and server library for Qt with a compiler from WSDL to C++. This project models its most
intricate parts and proves what they promise:

- **The generator** (`Generator`, `GeneratedCode`, `GeneratorMeaning`, `GeneratorRoundTrip`, `GeneratorFields`, `SimpleTypes`):
  a schema is data, the emitted statements are a small language with an interpreter, and the emitted `serialize()` and
  `deserialize()` are proved to undo each other for every well-formed schema and object, also when the value travels as XML
  in between; and what is written is stated on the fields of the schema's declarations.
- **The server socket** (`ServerSocket`, `HttpFraming`, `HttpHead`, `DelayedReply`, `ConnectionCount`): what is read from
  header blocks, the HTTP framing machine, whose result does not depend on how the bytes are cut into read events, and whole
  conversations with delayed replies.
- **Range requests** (`ByteRanges`, `RangeHeader`, `RangeWriter`, `RangeResponse`): the bytes a Range header asks for and
  their normal form (sections 2.1 and 4.1 of RFC 7233), and the answer as a client reads it.
- **The thread pool** (`ThreadPool`, `PoolLedger`, `SocketLists`, `ServerThread`): main thread, worker queues, mutexes,
  counters and the suspend barrier as a state machine, with invariants over all interleavings and books for every server.
- **The type collector** (`TypeCollector`): a worklist over a cyclic graph with an order-sensitive fix-up.
- **Values, envelopes and names** (`SoapValue`, `Addressing`, `Envelope`, `SoapDocument`, `QNames`): writers and readers on
  XML tokens with resolved namespaces, what they look like, and what exactly survives from one to the other.
- **The synchronous client** (`ClientThread`, `ClientProgress`): callers, worker thread and `stop()` over all interleavings.
- **The reader's retry** (`Repair`): why it ends, and what it replaces.

`Wrappers` and `Text` hold the shared option type and byte-string operations. Code that works step by step is a class or
a method with a loop, proved against a function; the results are lemmas about these functions. A concurrent protocol is a
function from a state and an action to the next state, with one action for each step no other thread can split.

Where code and intention differ the model follows the code, and a lemma says when it does what is meant:

- The pool compares its size with the maximum by `==` (`ThreadPool.BusyPoolGrows`).
- An optional list that is set but empty is not written, and comes back unset (`GeneratorRoundTrip.ObjectUnchanged`).
- A delayed-response handle used inside the handler yields two replies (`DelayedReply.AtMostOneReply`).
- The flag that a socket has sent data is cleared after every request, so the total connection count is not one of
  connections: it is the number of requests handed over, plus one while a later request has begun or a handle has been
  answered since (`ConnectionCount.CountIsExact`); it counts a connection at most once exactly when nothing is read after
  the first request (`ConnectionCount.CountedOnce`).
- The retry is meant for character references below the space. It takes the first `x` and the first `;` before the error
  instead of looking for one, so other sequences are replaced too (`Repair.ReplacedIsReference`, `Repair.EntityReplaced`),
  and a document without markup may be retried for ever (`Repair.NoMarkupNoProgress`).
- The HTTP version is kept with the line end of the request line, if header lines follow (`HttpHead.HeadIsParsed`).
- After a chunk size that is no number the request is never given up: every read is answered with the error again
  (`HttpHead.BadChunkIsRefused`). Nor are bytes given up that start with a blank line (`HttpHead.BlankLineFirst`).
- The gap test between two ranges adds up in 32 bits; near the largest file size the sum overflows
  (`ByteRanges.SumsFitExactly`, `ByteRanges.GapTestOverflows`).
- A synchronous call that `stop()` finds in the queue, or that comes after it, waits for ever (`ClientProgress.ReleasedExactly`).
- The parameters and metadata of an endpoint reference are not written (`Addressing.PropertiesSurvive`).
- An `xsi:type` resolves its prefix by the outermost declaration, a QName by the innermost (`QNames.TypeTakesOutermost`).
- The version of the WS-Addressing namespace is not read back (`Addressing.PropertiesSurvive`).

## Model

| member | source | states |
|---|---|---|
| `GeneratorRoundTrip.GeneratedRoundTrip` | kdwsdl2cpp/src/converter_complextype.cpp:494-733 | for every well-formed schema and every object of the right shape, running the emitted deserialize() on a new object over the output of the emitted serialize() gives the object back with the changes listed by `Arrived`: base-class parts, wrapped values, attributes, list order, nil flags, pointer members and recursion into the class itself included |
| `GeneratorRoundTrip.RoundTripThroughXml` | kdwsdl2cpp/src/converter_complextype.cpp:494-733 | the same when the value is printed as XML tokens anywhere in a document and parsed again in between |
| `GeneratorRoundTrip.ObjectUnchanged` | kdwsdl2cpp/src/converter_complextype.cpp:315-334 | given that the set simple values survive as texts, an object comes back unchanged if and only if its nil flags are honest at every depth: an unset member still has its initial contents, and an optional list is set exactly when it has entries (a set but empty one is lost) |
| `GeneratorRoundTrip.LinkedRoundTrip` | kdwsdl2cpp/src/converter_complextype.cpp:35-48 | the conditions are met by a class that derives from another and optionally contains its own kind through a pointer: a chain of two such objects comes back as it was |
| `GeneratorRoundTrip.ReadsBack` | kdwsdl2cpp/src/converter_complextype.cpp:536-547 | a class restores its own part, and its bases theirs, from any value that also carries elements and attributes of classes derived from it |
| `GeneratorRoundTrip.ForeignNames` | kdwsdl2cpp/src/converter_complextype.cpp:481-492 | the emitted else-if chains leave an object alone when no name they test for occurs |
| `GeneratorRoundTrip.BlockReads` | kdwsdl2cpp/src/elementargumentserializer.cpp:152-224 | the branch emitted for one element, run on exactly the values written for that element, turns the initial contents of its variable into what was written, for members by value, by pointer and in lists, and touches no other variable |
| `GeneratorRoundTrip.CanonView` | src/KDSoapClient/KDSoapMessageReader.cpp:64-136 | printing and parsing a value changes nothing that an emitted deserialize() looks at, unless an attribute is in a namespace the reader drops |
| `GeneratorMeaning.MarshalMeaning` | kdwsdl2cpp/src/converter_complextype.cpp:494-733 | the emitted serialize() produces exactly the value defined on the schema: text of the wrapped value, children of the bases before the own ones, one child per list entry, none for an unset optional, namespaces, qualified and nillable marks |
| `GeneratorMeaning.ElementMeaning` | kdwsdl2cpp/src/elementargumentserializer.cpp:74-140 | the statement emitted for one element appends precisely that element's values and leaves the attributes alone |
| `GeneratorMeaning.AttributesMeaning` | kdwsdl2cpp/src/converter_complextype.cpp:692-717 | the statements emitted for the attributes collect them in schema order, skipping unset ones, and do not touch the elements |
| `Generator.ElementArgumentSerializer.GenerateSerializationCode` | kdwsdl2cpp/src/elementargumentserializer.cpp:74-140 | the emitted block: serialize, namespace, qualified and nillable marks, then append, guarded by the pointer or the nil flag when the element is optional, or an unguarded assignment for message arguments |
| `Generator.ElementArgumentSerializer.DemarshalArray` | kdwsdl2cpp/src/elementargumentserializer.cpp:152-185 | builtin entries are appended directly, others through a temporary, stored as a pointer for polymorphic types; an optional list is marked as set |
| `Generator.ElementArgumentSerializer.DemarshalVariable` | kdwsdl2cpp/src/elementargumentserializer.cpp:187-204 | pointer members, by request or by polymorphism, are created when null and then filled; others are read in place |
| `Generator.GenerateElement` | kdwsdl2cpp/src/converter_complextype.cpp:617-684 | the loops and guards chosen for one element of a type that is not a SOAP array, and the branch that reads it |
| `Generator.GenerateArray` | kdwsdl2cpp/src/converter_complextype.cpp:584-612 | a SOAP array writes its entries as "item" and reads every child as an entry |
| `Generator.GenerateAttribute` | kdwsdl2cpp/src/converter_complextype.cpp:692-717 | an attribute is guarded by its nil flag unless it is required |
| `Generator.CreateComplexTypeSerializer` | kdwsdl2cpp/src/converter_complextype.cpp:494-733 | the whole generator for one type yields the code that the meaning and round-trip lemmas are about |
| `GeneratorFields.VariableOfElement` | kdwsdl2cpp/src/converter_complextype.cpp:20-48 | on the fields of the declaration: the variable is a list if and only if the element or its group can repeat, otherwise a pointer if and only if its type has derived types or is the class itself and the element can be absent; in a new object it is unset if and only if the element is one of a choice, or it or its group may occur no times |
| `GeneratorFields.VariableOfAttribute` | kdwsdl2cpp/src/converter_complextype.cpp:310-334 | an attribute variable starts unset if and only if it is not required |
| `GeneratorFields.UnsetIsAllowed` | kdwsdl2cpp/src/converter_complextype.cpp:310-334 | an object may have an element unset if and only if the element can repeat or be absent |
| `GeneratorFields.ChildrenOfElement` | kdwsdl2cpp/src/converter_complextype.cpp:617-684 | for every well-formed schema and object, the children written under an element's name are one for each value its variable holds, in order, with the namespace, marks and text declared for it, and none comes from a base class or another element |
| `GeneratorFields.AbsentIsNotWritten` | kdwsdl2cpp/src/converter_complextype.cpp:20-24 | an element of a choice, or one that it or its group allows to be absent, writes no child when unset; so of a choice only what is chosen is written |
| `GeneratorFields.RequiredIsWritten` | kdwsdl2cpp/src/converter_complextype.cpp:20-24 | an element that can neither be absent nor repeat is written exactly once by every object |
| `GeneratorFields.ValueOfObject` | kdwsdl2cpp/src/converter_complextype.cpp:494-560 | what the base class writes comes first, children and attributes alike, then the own elements in schema order; the text is the one of the base or of the wrapped simple value |
| `GeneratorFields.AttributeOfDeclaration` | kdwsdl2cpp/src/converter_complextype.cpp:692-717 | the attribute written under a declared name: its text, namespace and mark, none when unset, which a required one never is |
| `GeneratorFields.ArrayWritesItems` | kdwsdl2cpp/src/converter_complextype.cpp:584-612 | a SOAP array writes one child "item" per entry, in order, and nothing else |
| `SimpleTypes.GenerateStringValue` | kdwsdl2cpp/src/converter_simpletype.cpp:318-331 | the chain of switches, a new one after every 64th case, returns the i-th literal for value i and nothing for any other value, and no switch has more than 64 cases |
| `SimpleTypes.DeserializeEnumeration` | kdwsdl2cpp/src/converter_simpletype.cpp:350-366 | the emitted lookup stores the first matching literal and leaves the value alone when there is none |
| `SimpleTypes.EnumerationInverts` | kdwsdl2cpp/src/converter_simpletype.cpp:318-366 | the lookup inverts stringValue() for every value if and only if the literals are distinct |
| `SimpleTypes.SerializeEntries` | kdwsdl2cpp/src/converter_simpletype.cpp:394-424 | a list is joined with single spaces, none before the first non-empty text |
| `SimpleTypes.JoinedWithSpaces` | kdwsdl2cpp/src/converter_simpletype.cpp:394-424 | the text of a list that starts with a non-empty one has exactly one space between two texts |
| `SimpleTypes.JoinThenSplit` | kdwsdl2cpp/src/converter_simpletype.cpp:394-449 | joining and splitting gives a list of texts back if and only if each is non-empty and free of spaces |
| `SimpleTypes.StringListSurvives` | kdwsdl2cpp/src/converter_simpletype.cpp:394-449 | a list of strings survives serialize() and deserialize() on a new object if and only if, besides that, it is empty or some entry is not all white space |
| `SimpleTypes.ListArrives` | kdwsdl2cpp/src/converter_simpletype.cpp:394-449 | what arrives of any list: nothing when its texts are all white space, otherwise one entry per word |
| `SimpleTypes.SimpleRoundTrip` | kdwsdl2cpp/src/converter_simpletype.cpp:279-468 | every simple value, through restrictions and lists of any nesting, comes back from its text if it meets the stated conditions |
| `SimpleTypes.SurvivesExactly` | kdwsdl2cpp/src/converter_simpletype.cpp:279-468 | and only if it meets them, for all types but lists whose items may be texts that are no words |
| `ServerSocket.ServerSocket.SlotReadyRead` | src/KDSoapServer/KDSoapServerSocket.cpp:183-301 | the new state of all framing fields and everything delivered, for every state and every amount of waiting bytes except a negative chunk size |
| `ServerSocket.ServerSocket.ReadIncoming` | src/KDSoapServer/KDSoapServerSocket.cpp:198-208 | reading in blocks of 2048 takes every waiting byte |
| `ServerSocket.ServerSocket.ReadChunks` | src/KDSoapServer/KDSoapServerSocket.cpp:256-285 | the chunk loop takes exactly the complete chunks, and resumes where it stopped |
| `ServerSocket.ServerSocket.HandleRequest` | src/KDSoapServer/KDSoapServerSocket.cpp:420-431 | one dispatch, then a reply at once, or the socket switched off for a delayed one |
| `ServerSocket.ServerSocket.SendDelayedReply` | src/KDSoapServer/KDSoapServerSocket.cpp:798-803 | the reply goes to the call being handled; reading is switched on again and takes what has arrived |
| `HttpFraming.SegmentationIndependence` | src/KDSoapServer/KDSoapServerSocket.cpp:183-301 | for every well-formed request and every cut of its bytes into read events the request is handed over exactly once, at the event with the last byte, with its headers and its whole decoded body, and all framing state is ready for the next; a raw-XML handler sees newRequest, processXML calls that add up to the body, and endRequest |
| `HttpFraming.SplitsAgree` | src/KDSoapServer/KDSoapServerSocket.cpp:183-301 | two cuts of the same request leave the same trace; for raw XML this includes one processXML call per HTTP chunk |
| `HttpFraming.ArriveStep` | src/KDSoapServer/KDSoapServerSocket.cpp:183-301 | one read event in the middle of a request: the reader has taken precisely the bytes that have arrived, or is done when they were the last |
| `HttpFraming.ChunkLoopStep` | src/KDSoapServer/KDSoapServerSocket.cpp:255-289 | the chunk loop keeps the relation between bytes read and chunks taken, and reports the end exactly when the last-chunk line is there |
| `HttpFraming.EndingFound` | src/KDSoapServer/KDSoapServerSocket.cpp:286-289 | the search for the blank line after the last chunk succeeds exactly when the last byte of the request has arrived |
| `HttpHead.HeadIsParsed` | src/KDSoapServer/KDSoapServerSocket.cpp:71-115 | for every header block written as a request line and lines with names in any case and values with white space around them: each name in lowercase is bound to the value of its last line, trimmed; type, path, query and version come from the request line, and nothing else is bound |
| `HttpHead.ShortRequestLine` | src/KDSoapServer/KDSoapServerSocket.cpp:79-82 | a request line with fewer than three parts gives no headers, whatever follows it |
| `HttpHead.SizedIsWellFormed` | src/KDSoapServer/KDSoapServerSocket.cpp:244-248 | a header block with the length of the body, under a name in any case, makes a well-formed request |
| `HttpHead.UnsizedIsWellFormed` | src/KDSoapServer/KDSoapServerSocket.cpp:244-248 | and one without a length makes one without a body |
| `HttpHead.ChunkedIsWellFormed` | src/KDSoapServer/KDSoapServerSocket.cpp:255-289 | so does one that announces chunks, with sizes in hexadecimal of either case and any trailer lines |
| `HttpHead.SizedArrives` | src/KDSoapServer/KDSoapServerSocket.cpp:183-301 | however the bytes of such a request are cut, it is dispatched once, at the read with its last byte, with its body and these headers |
| `HttpHead.ChunkedArrives` | src/KDSoapServer/KDSoapServerSocket.cpp:183-301 | the same for a request in chunks, whose body is the chunks put together |
| `HttpHead.RawArrives` | src/KDSoapServer/KDSoapServerSocket.cpp:228-234 | with a raw-XML interface every request is announced with its headers; one that is taken is handed over in pieces that make up its body, one per HTTP chunk, and ended, any other is dispatched |
| `HttpHead.BadChunkIsRefused` | src/KDSoapServer/KDSoapServerSocket.cpp:263-270 | a chunk size that is no number is answered with an error and nothing is called; every later read is answered with the same error |
| `HttpHead.BlankLineFirst` | src/KDSoapServer/KDSoapServerSocket.cpp:121-130 | bytes that start with a blank line never become a request |
| `DelayedReply.EveryConversation` | src/KDSoapServer/KDSoapServerSocket.cpp:420-431 | in every run, whatever the handlers do, the trace is one dispatch per request, each followed by its own replies in order; nothing is dispatched while a handle is out, and bytes wait only while one is |
| `DelayedReply.RepliesFollowCalls` | src/KDSoapServer/KDSoapServerSocket.cpp:798-803 | in that trace the replies of a call, and no others, come directly after its dispatch |
| `DelayedReply.RepliesAreCounted` | src/KDSoapServer/KDSoapServerSocket.cpp:420-431 | in every run a call has had as many replies as its handler is due, except that a call whose handle is still out is owed one; what was not called is not replied to |
| `DelayedReply.AtMostOneReply` | src/KDSoapServer/KDSoapServerSocket.cpp:420-431 | over every run each call gets at most one reply if and only if no handler that was called uses its handle before it returns |
| `DelayedReply.AnswerConsumes` | src/KDSoapServer/KDSoapServerSocket.cpp:849-859 | using the handle consumes all bytes that arrived while the socket was disabled |
| `DelayedReply.AnsweredInsideRepliesTwice` | src/KDSoapServer/KDSoapServerSocket.cpp:426-431 | one request whose handle is used before the handler returns gets two replies |
| `ConnectionCount.CountIsExact` | src/KDSoapServer/KDSoapServerSocket.cpp:185-194 | over every run the count is the number of requests handed over, plus one if the socket has read since the last of them |
| `ConnectionCount.CountedOnce` | src/KDSoapServer/KDSoapServerSocket.cpp:185-194 | a connection is counted at all if and only if it is read from, and at most once if and only if nothing is read after its first request was handed over |
| `ConnectionCount.DelayedCountsTwice` | src/KDSoapServer/KDSoapServerSocket.cpp:849-859 | one request with a delayed reply is counted twice: switching reading on again counts although nothing is waiting |
| `ConnectionCount.KeptOpenCountsTwice` | src/KDSoapServer/KDSoapServerSocket.cpp:298-301 | a connection kept open for a second request is counted twice |
| `ConnectionCount.SmallRequest` | src/KDSoapServer/KDSoapServerSocket.cpp:214-230 | helper: a request and a handler that meet the conditions of the two lemmas above |
| `ByteRanges.DetermineFileRanges` | src/KDSoapServer/KDSoapServerSocket.cpp:450-570 | the answer for a Range header, missing, foreign or malformed ones included, whenever no sum of the gap test overflows |
| `ByteRanges.SortAndCoalesce` | src/KDSoapServer/KDSoapServerSocket.cpp:518-546 | the in-place loop over the sorted list computes the coalesced list |
| `ByteRanges.RangesAreExact` | src/KDSoapServer/KDSoapServerSocket.cpp:474-569 | whenever no sum of the gap test overflows: rejected if and only if malformed, more than five specs, or nothing satisfiable; whole file if and only if the bytes to send are all of it; otherwise sorted ranges inside the file, more than 86 bytes apart, that cover a byte if and only if it is requested or lies in a gap of at most 86 bytes between two requested ones |
| `ByteRanges.OrderDoesNotMatter` | src/KDSoapServer/KDSoapServerSocket.cpp:533-534 | then the answer does not depend on the order of the range-specs |
| `ByteRanges.SumsFitExactly` | src/KDSoapServer/KDSoapServerSocket.cpp:536-545 | no sum of the gap test overflows if and only if every range in order but the last ends at least 87 bytes before the end of the 32-bit numbers |
| `ByteRanges.SmallFileFits` | src/KDSoapServer/KDSoapServerSocket.cpp:536-545 | so none does for any header when the file has at most 2147483647 - 86 bytes |
| `ByteRanges.TwoRangesOverflow` | src/KDSoapServer/KDSoapServerSocket.cpp:536-545 | for two ranges of a larger file, written as a header, one does if and only if the first of them ends too late |
| `ByteRanges.GapTestOverflows` | src/KDSoapServer/KDSoapServerSocket.cpp:536-545 | a header with two overlapping ranges on which the sum overflows |
| `ByteRanges.ApartIsUnique` | src/KDSoapServer/KDSoapServerSocket.cpp:536-545 | ranges in normal form are determined by the bytes they cover |
| `ByteRanges.CoalesceIsClosure` | src/KDSoapServer/KDSoapServerSocket.cpp:536-545 | coalescing an ordered list covers exactly its bytes and its short gaps, and leaves only long ones |
| `RangeHeader.HeaderIsAnswered` | src/KDSoapServer/KDSoapServerSocket.cpp:450-570 | for every list of "a-b", "n-" and "-n" written behind "bytes=" with commas: rejected if and only if there are more than five or no byte of the file is asked for; the whole file if and only if every byte is to be sent; otherwise ranges more than 86 bytes apart that hold exactly the bytes from a to b, from n on, or the last n, of each, and those between two of them that are at most 86 apart |
| `RangeHeader.SpecIsRead` | src/KDSoapServer/KDSoapServerSocket.cpp:476-509 | each of the three forms is read as what it says |
| `RangeHeader.ForeignHeaders` | src/KDSoapServer/KDSoapServerSocket.cpp:455-472 | without a header, with another unit or with a character that no list of ranges has, the whole file is sent |
| `RangeResponse.ResponseIsRead` | src/KDSoapServer/KDSoapServerSocket.cpp:572-685 | what a client reads from the response: status 206, a Content-Length equal to the length of the body, and for one range the requested bytes with their Content-Range, for several ranges the parts that hold them |
| `RangeResponse.BodyIsRead` | src/KDSoapServer/KDSoapServerSocket.cpp:661-684 | a multipart body, read by delimiters and Content-Range headers, is one part for each range in order, with its bytes, and nothing else |
| `RangeWriter.PrecomputeLength` | src/KDSoapServer/KDSoapServerSocket.cpp:621-647 | the precomputed multipart length is the length of the body, for every boundary, content type, file and two or more ranges |
| `RangeWriter.RangeWriter.WriteRange` | src/KDSoapServer/KDSoapServerSocket.cpp:581-598 | copying in blocks of 4096 writes exactly the slice of the file |
| `RangeWriter.RangeWriter.WriteFileRanges` | src/KDSoapServer/KDSoapServerSocket.cpp:572-685 | everything written: headers with the precomputed length, and the body that has this length |
| `RangeWriter.PartCarriesSlice` | src/KDSoapServer/KDSoapServerSocket.cpp:661-678 | the payload of each part is the requested slice, at its place in the body |
| `RangeWriter.LengthFitsInt` | src/KDSoapServer/KDSoapServerSocket.cpp:621-647 | for ranges in normal form the length fits 32 bits whenever file size plus part overhead does, and the number written in Content-Length reads back as the length of the body |
| `ThreadPool.RunKeepsInv` | src/KDSoapServer/KDSoapThreadPool.cpp:59-125 | every interleaving of the main thread and the workers keeps the invariant behind all results on the pool |
| `ThreadPool.BarrierComplete` | src/KDSoapServer/KDSoapServer.cpp:271-283 | when disconnectSockets returns every thread has released the semaphore exactly once, holds no socket of that server, and has none on its way in its queue |
| `ThreadPool.ReleasesOnce` | src/KDSoapServer/KDSoapServerThread.cpp:162-170 | a release happens only inside a barrier, for its server, by a thread that has not released yet |
| `PoolLedger.LoadPerServer` | src/KDSoapServer/KDSoapServerThread.cpp:141-148 | over every run, for every thread and server: the sockets in that server's list and its connections on their way there are those handed to the thread for that server minus those closed for it |
| `PoolLedger.BarrierClosesAll` | src/KDSoapServer/KDSoapServer.cpp:271-283 | when disconnectSockets returns, every connection of its server that any thread was ever handed has been closed |
| `ThreadPool.BarrierSparesOthers` | src/KDSoapServer/KDSoapServerThread.cpp:162-170 | whatever step is taken, sockets of a server other than the one being suspended disappear only when their peer closes them |
| `ThreadPool.BarrierEnds` | src/KDSoapServer/KDSoapThreadPool.cpp:117-125 | the barrier cannot hang: while it waits some worker can step, and every worker step leaves less to do |
| `ThreadPool.LoadIsExact` | src/KDSoapServer/KDSoapServerThread.cpp:111-148 | in every reachable state a thread's load is what it was handed minus what was closed, except while its worker holds the mutex between registering a socket and lowering the counter |
| `ThreadPool.CountIsExact` | src/KDSoapServer/KDSoapServerThread.cpp:111-120 | the count used by chooseNextThread is the load at the time the lists were added up, although peers may close sockets before the counter is read |
| `ThreadPool.AlwaysAwake` | src/KDSoapServer/KDSoapServerThread.cpp:78-82 | outside start-up every pool thread has its event loop, so no connection is handed to a thread without one and no barrier skips one |
| `ThreadPool.PoolStaysBounded` | src/KDSoapServer/KDSoapThreadPool.cpp:85-95 | with a maximum of at least 1 that is never set below the current size the pool never exceeds it |
| `ThreadPool.BusyPoolGrows` | src/KDSoapServer/KDSoapThreadPool.cpp:85-95 | once every thread was found busy the pool grows if and only if it is empty or its size differs from the maximum, so a lowered maximum lets it grow |
| `ThreadPool.LoadsStayEven` | src/KDSoapServer/KDSoapThreadPool.cpp:59-97 | with a fixed maximum and arrivals only, the loads of two threads differ by at most one between arrivals |
| `ThreadPool.ScanFindsSame` | src/KDSoapServer/KDSoapThreadPool.cpp:59-83 | the scan, split into the steps between which workers may run, finds the first idle thread or the first least loaded one, as the undivided scan of the class does |
| `SocketLists.AddingSocket` | src/KDSoapServer/KDSoapSocketList.cpp:27-51 | registering a socket adds one to its server's list and leaves the other lists alone |
| `SocketLists.DroppingSockets` | src/KDSoapServer/KDSoapSocketList.cpp:58-65 | dropping sockets of one server removes exactly those |
| `ServerThread.ThreadImpl.SocketCount` | src/KDSoapServer/KDSoapServerThread.cpp:111-120 | the sum over the lists plus the counter |
| `ServerThread.ThreadImpl.HandleIncomingConnection` | src/KDSoapServer/KDSoapServerThread.cpp:141-148 | the new socket is in its server's list and the load does not change |
| `ServerThread.ThreadImpl.DisconnectSocketsForServer` | src/KDSoapServer/KDSoapServerThread.cpp:162-170 | no socket of that server is left, the other lists are as before, and the semaphore has one permit more |
| `ServerThread.ThreadImpl.PeerDisconnected` | src/KDSoapServer/KDSoapSocketList.cpp:43-48 | a closed peer lowers the load by one, unless the server disconnected the socket itself |
| `ServerThread.Pool.ChooseNextThread` | src/KDSoapServer/KDSoapThreadPool.cpp:59-97 | the first idle thread, else the first least loaded one of a full pool, else a new thread |
| `TypeCollector.TypeCollector.CollectDependentTypes` | kdwsdl2cpp/src/converter.cpp:118-165 | the worklist ends, and the names used are exactly those on a path from a root along base, derived, element, attribute, array, simple base and list item types; kept are their types, each simple type once, with conflict flags that are a function of the kept set and so do not depend on the order the names come in |
| `TypeCollector.TypeCollector.RegisterDerivedClasses` | kdwsdl2cpp/src/converter.cpp:99-116 | every type is entered in the derived list of its base |
| `TypeCollector.TypeCollector.FixupComplexType` | kdwsdl2cpp/src/converter.cpp:180-200 | the flag given to the type at hand, or to its lowercase variant already kept |
| `TypeCollector.LowercaseIsFlagged` | kdwsdl2cpp/src/converter.cpp:180-200 | helper: a kept type is flagged if and only if a kept type has its name with the first letter made uppercase |
| `TypeCollector.DepsAreEdges` | kdwsdl2cpp/src/converter.cpp:138-160 | the dependencies followed from a name are those of the fields of the first type of that name, a complex one before a simple one |
| `TypeCollector.KeptComplexTypes` | kdwsdl2cpp/src/converter.cpp:134-137 | a complex type is kept if and only if its name was handled, is not builtin and names one; nothing but the flag is changed in it |
| `TypeCollector.KeptSimpleTypes` | kdwsdl2cpp/src/converter.cpp:153-155 | a simple type is kept once if and only if its name was handled, is not builtin and names no complex type |
| `TypeCollector.DerivedAreRegistered` | kdwsdl2cpp/src/converter.cpp:99-116 | the derived types of a type are those it had and those that have it as their base, no others |
| `TypeCollector.DerivedAreKept` | kdwsdl2cpp/src/converter.cpp:136-140 | types derived from a reachable type are reachable |
| `SoapValue.WriteElement` | src/KDSoapClient/KDSoapValue.cpp:280-300 | the tokens written for an element: its effective namespace from the qualified flag, own and message namespace |
| `SoapValue.WriteElementContents` | src/KDSoapClient/KDSoapValue.cpp:302-344 | declarations, xsi:nil, attributes, children and text, in this order |
| `SoapValue.WriteChildren` | src/KDSoapClient/KDSoapValue.cpp:346-366 | attributes onto the open element, then the children in order |
| `SoapValue.XmlReader.ParseElement` | src/KDSoapClient/KDSoapMessageReader.cpp:64-136 | the value read from an element and where reading stops |
| `SoapValue.ParsePrinted` | src/KDSoapClient/KDSoapMessageReader.cpp:64-136 | printing a tree of any depth anywhere in a document and parsing it there gives its canonical form, and stops right after it |
| `SoapValue.TakePrintedAttrs` | src/KDSoapClient/KDSoapMessageReader.cpp:87-108 | the attributes that come back are those outside the reserved namespaces, by name and text; the last qualified xsi:type counts |
| `SoapDocument.ElementNamespace` | src/KDSoapClient/KDSoapValue.cpp:280-300 | the namespace of a start tag: its own, the message's, or none, for every combination of qualified mark and namespaces |
| `SoapDocument.LeafElement` | src/KDSoapClient/KDSoapValue.cpp:302-344 | an element without children: its text, xsi:nil if and only if nillable and empty, unqualified attributes in no namespace |
| `SoapDocument.TypeAttribute` | src/KDSoapClient/KDSoapMessageReader.cpp:23-31 | an xsi:type of either version gives its element a type of that name, in the namespace of the first declaration of its prefix, and is not kept as an attribute |
| `SoapDocument.ReservedNamespaces` | src/KDSoapClient/KDSoapMessageReader.cpp:87-108 | the namespaces whose attributes are not kept, and those of WS-Addressing, by their texts |
| `Addressing.WriteProperties` | src/KDSoapClient/KDSoapMessageAddressingProperties.cpp:310-396 | the header elements written for a set of properties, nothing for the "none" destination |
| `Addressing.WriteHierarchy` | src/KDSoapClient/KDSoapMessageAddressingProperties.cpp:293-308 | reference parameters and metadata of any depth, as names with texts at the leaves |
| `Addressing.ReadWritten` | src/KDSoapClient/KDSoapMessageAddressingProperties.cpp:398-430 | reading what was written gives the canonical properties: a relationship without a type becomes a reply, one without a URI is dropped, an endpoint keeps its address only |
| `Addressing.PropertiesSurvive` | src/KDSoapClient/KDSoapMessageAddressingProperties.cpp:310-430 | properties come back unchanged, but for marks and declarations that do not change what a value says, if and only if they are of the 2005/08 version, not for the "none" destination, the endpoints carry nothing besides an address, every relationship has a URI and a type, and the nodes of reference parameters and metadata are in the addressing namespace, without attributes, and have texts at the leaves only |
| `Addressing.HierarchyKeepsNodes` | src/KDSoapClient/KDSoapMessageAddressingProperties.cpp:293-308 | a hierarchy keeps names, namespaces, attributes, texts and order if and only if its nodes are such |
| `Addressing.HierarchyKeepsLeaves` | src/KDSoapClient/KDSoapMessageAddressingProperties.cpp:293-308 | a hierarchy keeps names, texts and order if and only if no inner node has a text |
| `SoapDocument.PropertyElements` | src/KDSoapClient/KDSoapMessageAddressingProperties.cpp:310-396 | every property is written under its own name in the namespace of the version, with texts, addresses and nodes as they are; nothing for the "none" destination of the 2005/08 version |
| `SoapDocument.DocumentByVersion` | src/KDSoapClient/KDSoapMessageWriter.cpp:33-116 | every document, by the texts of namespaces and names: SOAP 1.1 and 1.2 envelopes, declarations, persistent headers before others before properties, and the body called like the method |
| `SoapDocument.NoEnvelope` | src/KDSoapClient/KDSoapMessageReader.cpp:188-196 | a document is refused as no envelope if and only if its root is not called Envelope in one of the two SOAP namespaces |
| `SoapDocument.NoBody` | src/KDSoapClient/KDSoapMessageReader.cpp:196-229 | an empty envelope, or one that starts with neither header nor body, is refused |
| `SoapDocument.FaultElement` | src/KDSoapClient/KDSoapMessageReader.cpp:215-225 | a message arrives as a fault if and only if its element is called Fault in a SOAP namespace |
| `Envelope.MessageToXml` | src/KDSoapClient/KDSoapMessageWriter.cpp:33-116 | the whole document: declarations, header with persistent headers first, body in the envelope namespace for faults |
| `Envelope.WriteStandardNamespaces` | src/KDSoapClient/KDSoapNamespacePrefixes.cpp:14-35 | the declarations on the envelope |
| `Envelope.XmlToMessage` | src/KDSoapClient/KDSoapMessageReader.cpp:188-240 | the message, headers and addressing properties read, or the error for a missing envelope, content or body |
| `Envelope.EnvelopeRoundTrip` | src/KDSoapClient/KDSoapMessageReader.cpp:188-229 | for every message and all its headers, what xmlToMessage reads from what messageToXml wrote: payload, headers in order, fault flag, addressing properties |
| `Envelope.HeadersSurvive` | src/KDSoapClient/KDSoapMessageReader.cpp:199-211 | headers come back complete and in order if and only if none is written in a WS-Addressing namespace |
| `Envelope.AddressingSurvives` | src/KDSoapClient/KDSoapMessageReader.cpp:197-212 | then the properties read are the canonical ones; a header without any reads as a set of empty ones |
| `Envelope.FaultFlagSurvives` | src/KDSoapClient/KDSoapMessageReader.cpp:215-225 | helper: the fault flag comes back if and only if a fault is called Fault, and a message that is none is not called Fault in an envelope namespace |
| `QNames.KDQName.Parse` | src/KDSoapClient/KDQName.cpp:105-115 | prefix and local name, split at the first colon |
| `QNames.KDQName.Read` | src/KDSoapClient/KDQName.cpp:79-93 | the last matching declaration gives the namespace |
| `QNames.NameAsText` | src/KDSoapClient/KDQName.cpp:95-103 | a name is written as prefix, colon and local part, with the prefix declared on the same element |
| `QNames.NameRoundTrip` | src/KDSoapClient/KDQName.cpp:79-103 | whatever the ancestors declare, a name survives being written and read if and only if it has a prefix and a namespace, or its prefix is bound to its namespace out there |
| `QNames.NameThroughXml` | src/KDSoapClient/KDQName.cpp:79-103 | the same over XML tokens, for names with prefix and namespace |
| `QNames.NameListRoundTrip` | kdwsdl2cpp/src/converter_simpletype.cpp:394-449 | a list of names survives join, write, parse and split if and only if no prefix in it is ambiguous |
| `QNames.SerializeNames` | kdwsdl2cpp/src/converter_simpletype.cpp:394-424 | texts and declarations accumulated over the list |
| `QNames.Split` | src/KDSoapClient/KDSoapValue.cpp:410-425 | one copy of the value for each word of its text |
| `QNames.StalePrefix` | src/KDSoapClient/KDQName.cpp:105-115 | helper: assigning a name without a prefix is right if and only if there was no prefix before |
| `QNames.TypeTakesOutermost` | src/KDSoapClient/KDSoapMessageReader.cpp:23-31 | an xsi:type resolves its prefix by the outermost binding, right if and only if nothing outside binds it otherwise |
| `ClientThread.RunKeepsInv` | src/KDSoapClient/KDSoapClientThread.cpp:31-118 | every interleaving of callers, worker, network and stop() keeps the invariant |
| `ClientThread.StartedInOrder` | src/KDSoapClient/KDSoapClientThread.cpp:31-60 | tasks are started in the order they were enqueued, each once |
| `ClientThread.OwnResponse` | src/KDSoapClient/KDSoapClientInterface.cpp:183-201 | a call returns the response and headers of its own task |
| `ClientThread.ReleasedOnce` | src/KDSoapClient/KDSoapClientThread.cpp:101-111 | the semaphore is released at most once and only with response and headers stored; a blocked call can go on exactly then |
| `ClientThread.NeverDeleted` | src/KDSoapClient/KDSoapClientThread_p.h:42-53 | the worker never works on a task whose call has gone on |
| `ClientThread.NoLostWakeup` | src/KDSoapClient/KDSoapClientThread.cpp:50-57 | the worker is never left asleep beside a non-empty queue or a set stop flag |
| `ClientThread.NothingStartsAfterStop` | src/KDSoapClient/KDSoapClientThread.cpp:54-60 | after stop() has set its flag no task is started |
| `ClientProgress.CallsProgress` | src/KDSoapClient/KDSoapClientThread.cpp:31-111 | while a call waits whose task has been started, or that stop() has not preceded, the worker or the caller holding the mutex has a step; every step of the worker lowers a measure that nobody raises, and every step of the holder lowers its own |
| `ClientProgress.WorkIsBounded` | src/KDSoapClient/KDSoapClientThread.cpp:43-111 | so over every run without stop() the call is released before the worker has made that many steps |
| `ClientProgress.PendingIsReleased` | src/KDSoapClient/KDSoapClientThread.cpp:43-111 | and there is a run that releases it |
| `ClientProgress.NeverReturns` | src/KDSoapClient/KDSoapClientInterface.cpp:183-201 | a call whose task was not started before stop(), or that comes later, never gets its semaphore, in any run |
| `ClientProgress.ReleasedExactly` | src/KDSoapClient/KDSoapClientInterface.cpp:183-201 | a waiting call can be released if and only if its task has been started or stop() has not been called |
| `Repair.HandleNotWellFormedError` | src/KDSoapClient/KDSoapMessageReader.cpp:165-186 | the scan back from the error, and the repaired document |
| `Repair.RepairedIs` | src/KDSoapClient/KDSoapMessageReader.cpp:165-186 | the repaired document has a question mark for every occurrence of the sequence and is otherwise unchanged |
| `Repair.XmlToMessage` | src/KDSoapClient/KDSoapMessageReader.cpp:241-249 | for every parser and every document on which the retries end, the last document is the one reported on |
| `Repair.RetriesEnd` | src/KDSoapClient/KDSoapMessageReader.cpp:241-249 | they end if and only if the last document is not its own retry, and they do for every document that starts with an opening angle bracket |
| `Repair.RetriesShrink` | src/KDSoapClient/KDSoapMessageReader.cpp:241-249 | each retry is the repair of the document before and strictly shorter |
| `Repair.RetryProgress` | src/KDSoapClient/KDSoapMessageReader.cpp:165-186 | a retry makes progress if and only if the sequence, with an ampersand, occurs in the document |
| `Repair.NoMarkupNoProgress` | src/KDSoapClient/KDSoapMessageReader.cpp:165-186 | without markup before the error, text taken for a reference is tried again unchanged, for ever, if and only if it does not occur in the document behind an ampersand |
| `Repair.EndlessDocument` | src/KDSoapClient/KDSoapMessageReader.cpp:165-186 | such a document |
| `Repair.HexRefReplaced` | src/KDSoapClient/KDSoapMessageReader.cpp:142-163 | a hexadecimal character reference is replaced if and only if its value is at most 0x20 and not tab, LF or CR |
| `Repair.DecimalRefKept` | src/KDSoapClient/KDSoapMessageReader.cpp:142-163 | a decimal character reference is never replaced |
| `Repair.ReplacedIsReference` | src/KDSoapClient/KDSoapMessageReader.cpp:142-186 | whatever is replaced is a hexadecimal character reference if and only if it starts with #x, has its only semicolon at its end, and no white space, sign or further x in between |
| `Repair.EntityReplaced` | src/KDSoapClient/KDSoapMessageReader.cpp:142-186 | in every document, after every name without x, semicolon and marks, an x with a forbidden hexadecimal number and a semicolon is replaced, although it is a character reference only when the name is the number sign |

## Left out

- HTTP pipelining: a client that sends the next request before the last one is answered; what follows a request in the same read is dropped.
- ServerSocket.ServerSocket.SlotReadyRead: requires that no chunk of negative size is met, as the loop may then not end.
- ServerSocket.ServerSocket.ReadChunks: the same.
- ServerSocket.ServerSocket.SendDelayedReply: the same, for the bytes that have been waiting.
- ServerSocket.ServerSocket.HandleRequest: what comes before the call: path cleaning, the virtual root check, HTTP authentication, verbs other than POST and file downloads are folded into the handler's outcome.
- HttpHead.HeadIsParsed: the path is bound as it is written; QDir::cleanPath and the removal of leading slashes are not modelled.
- HttpHead.SizedArrives: a request that ends with the read; what follows it there is dropped.
- 32-bit counters in the framing machine: sizes and offsets there are unbounded; number texts are converted with their 32-bit range.
- ByteRanges.DetermineFileRanges: what is answered after an overflowing gap test, which is undefined in the source.
- XML lexing, escaping, automatic prefixes and the default namespace: tokens carry resolved namespaces and the declarations written explicitly.
- Conversion of texts to typed variants and the text of typed values: a value is null or a text, a builtin type its lexical text.
- Encoded use: xsi:type and array types are not written in literal use, and setType() has no effect there.
- Envelope.MessageToXml: no attributes on header messages: the writer would put them on whatever tag is open.
- The WS-Security username token and other authentication headers.
- Fault messages built by the reader: only the kind of error is modelled, not its text with line and column.
- Schemas with `any`, substitution groups, void elements or anonymous repeated element names, and polymorphic variables holding an object of a derived class.
- Getters, setters and default attribute values of generated classes, and the copies kept as `_as_kdsoap_value`.
- The surroundings of message arguments: the code around ElementArgumentSerializer for operations, which is not part of a class.
- Facet checks, unions and the naming of enumerators: no facet guarantee holds in the code.
- SimpleTypes.SimpleRoundTrip: one direction for lists of lists and of enumerations with literals that are no words, because such a text may still be read as the initial value; SimpleTypes.ListArrives gives the exact result.
- upperlize and lowerlize beyond plain identifiers, as TypeCollector.LowercaseIsFlagged uses them.
- The limit on connections: numConnectedSockets and the rejection of connections, which only read the lists and do not count connections still queued.
- Shutdown of the pool and of its threads, and the socket list of a server without a pool.
- Data races on the socket lists: a peer's close is one step of the worker, although its handler does not take the mutex.
- Duplicate headers after a retry: a failed attempt may have appended headers before it failed.
- Classes for the client thread: its queue, flag and semaphores are fields of one state, because their point is the interleaving.
- Sockets, SSL, cookies, proxies, timers, logging, KDDateTime, the UDP client, and loading and saving of WSDL files.
