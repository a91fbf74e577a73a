/** The SOAP envelope: KDSoapMessageWriter::messageToXml and KDSoapMessageReader::xmlToMessage on XML tokens, literal use. */
module Envelope {
  import opened Addressing
  import opened SoapValue
  import opened Wrappers

  datatype SoapVersion = Soap11 | Soap12

  /** A KDSoapMessage: its value, fault flag and addressing properties, if it has any. */
  datatype Message = Message(value: Value, isFault: bool, addressing: Option<Properties>)

  function EnvelopeNs(version: SoapVersion): string {
    match version
    case Soap11 => SOAP_ENVELOPE
    case Soap12 => SOAP_ENVELOPE_2003
  }

  function EncodingNs(version: SoapVersion): string {
    match version
    case Soap11 => SOAP_ENCODING
    case Soap12 => SOAP_ENCODING_2003
  }

  predicate IsEnvelopeNs(ns: string) {
    ns == SOAP_ENVELOPE || ns == SOAP_ENVELOPE_2003
  }

  // ----- writing -----

  /** What a message is sent with; persistent headers are in the order of their keys. */
  datatype Outgoing = Outgoing(
    message: Message, methodName: string, headers: seq<Value>, persistentHeaders: seq<Value>, version: SoapVersion, defaultNs: string)
  {
    function Ns(): string {
      if message.value.ns != "" && defaultNs != message.value.ns then message.value.ns else defaultNs
    }

    predicate HasHeader() {
      headers != [] || persistentHeaders != [] || message.addressing.Some?
    }

    /** The elements of the header that are values. */
    function HeaderValues(): seq<Value> {
      AllChildren(persistentHeaders) + AllChildren(headers)
    }

    function AddressingElements(): seq<Value> {
      if message.addressing.Some? then HeaderElements(message.addressing.value) else []
    }

    function ElementName(): string {
      if methodName != "" then methodName else message.value.name
    }

    function ElementNs(): string {
      if message.isFault then EnvelopeNs(version) else Ns()
    }

    function Decls(): seq<NsDecl> {
      StandardDecls(version, message.addressing) + if HasHeader() then [NsDecl("n1", Ns())] else []
    }

    function HeaderTokens(): seq<Token> {
      if HasHeader() then
        [Start(EnvelopeNs(version), "Header", [], [])]
        + (PrintAll(HeaderValues(), Ns(), true) + PrintAll(AddressingElements(), Ns(), false)) + [End]
      else []
    }

    function BodyTokens(): seq<Token> {
      [Start(EnvelopeNs(version), "Body", [], [])]
      + (if ElementName() == "" then [] else PrintAs(message.value, ElementNs(), ElementName(), Ns())) + [End]
    }

    function Tokens(): seq<Token> {
      [Start(EnvelopeNs(version), "Envelope", Decls(), [])] + (HeaderTokens() + BodyTokens()) + [End]
    }
  }

  function StandardDecls(version: SoapVersion, addressing: Option<Properties>): seq<NsDecl> {
    [NsDecl("soap", EnvelopeNs(version)), NsDecl("soap-enc", EncodingNs(version)), NsDecl("xsd", XSD_2001), NsDecl("xsi", XSI_2001)]
    + if addressing.Some? then [NsDecl("wsa", NamespaceOf(addressing.value.version))] else []
  }

  function AllChildren(headers: seq<Value>): seq<Value> {
    if headers == [] then [] else AllChildren(headers[..|headers| - 1]) + headers[|headers| - 1].children
  }

  method WriteStandardNamespaces(writer: XmlWriter, version: SoapVersion, addressing: Option<Properties>)
    requires writer.Valid() && writer.Tokens() == [] && writer.pending == [] && writer.open.None?
    modifies writer`open, writer`pending
    ensures writer.Valid() && writer.open.None? && writer.pending == StandardDecls(version, addressing)
  {
    hide NamespaceOf, EnvelopeNs, EncodingNs;
    writer.WriteNamespace(EnvelopeNs(version), "soap");
    writer.WriteNamespace(EncodingNs(version), "soap-enc");
    writer.WriteNamespace(XSD_2001, "xsd");
    writer.WriteNamespace(XSI_2001, "xsi");
    if addressing.Some? {
      writer.WriteNamespace(NamespaceOf(addressing.value.version), "wsa");
    }
  }

  predicate NoAttributes(headers: seq<Value>) {
    forall i :: 0 <= i < |headers| ==> headers[i].attrs == []
  }

  /** One of the two header lists, every child qualified. */
  method WriteHeaderList(writer: XmlWriter, headers: seq<Value>, messageNs: string)
    requires writer.Valid() && writer.pending == [] && NoAttributes(headers)
    modifies writer
    ensures writer.Valid() && writer.pending == []
    ensures writer.Tokens() == old(writer.Tokens()) + PrintAll(AllChildren(headers), messageNs, true)
  {
    hide PrintAll, PrintAttrs;
    NothingPrinted(messageNs);
    var i := 0;
    while i < |headers|
      invariant 0 <= i <= |headers|
      invariant writer.Valid() && writer.pending == []
      invariant writer.Tokens() == old(writer.Tokens()) + PrintAll(AllChildren(headers[..i]), messageNs, true)
    {
      assert headers[..i + 1][..i] == headers[..i];
      PrintAllAppend(AllChildren(headers[..i]), headers[i].children, messageNs, true);
      WriteHeaderValue(writer, headers[i], messageNs);
      i := i + 1;
    }
    assert headers[..|headers|] == headers;
  }

  lemma NothingPrinted(messageNs: string)
    ensures PrintAll([], messageNs, true) == [] == PrintAll([], messageNs, false)
  {
  }

  method WriteHeaderValue(writer: XmlWriter, header: Value, messageNs: string)
    requires writer.Valid() && writer.pending == [] && header.attrs == []
    modifies writer
    ensures writer.Valid() && writer.pending == []
    ensures writer.Tokens() == old(writer.Tokens()) + PrintAll(header.children, messageNs, true)
  {
    ghost var open := writer.open;
    assert open.Some? ==> open.value.attrs + PrintAttrs([], true) == open.value.attrs;
    WriteChildren(header, writer, messageNs, true);
  }

  method WriteHeader(writer: XmlWriter, m: Outgoing)
    requires writer.Valid() && writer.pending == []
    requires NoAttributes(m.headers) && NoAttributes(m.persistentHeaders) && m.HasHeader()
    modifies writer
    ensures writer.Valid() && writer.pending == []
    ensures writer.Tokens() == old(writer.Tokens()) + m.HeaderTokens()
  {
    hide PrintAll, EnvelopeNs, AllChildren, NamespaceOf, HeaderElements, NoAttributes, m.Ns;
    NothingPrinted(m.Ns());
    ghost var before := writer.Tokens();
    ghost var tag := [Start(EnvelopeNs(m.version), "Header", [], [])];
    ghost var persistent := PrintAll(AllChildren(m.persistentHeaders), m.Ns(), true);
    ghost var others := PrintAll(AllChildren(m.headers), m.Ns(), true);
    ghost var elements := PrintAll(m.AddressingElements(), m.Ns(), false);
    writer.WriteStartElement(EnvelopeNs(m.version), "Header");
    assert writer.Tokens() == before + tag;
    WriteHeaderList(writer, m.persistentHeaders, m.Ns());
    WriteHeaderList(writer, m.headers, m.Ns());
    PrintAllAppend(AllChildren(m.persistentHeaders), AllChildren(m.headers), m.Ns(), true);
    if m.message.addressing.Some? {
      WriteProperties(m.message.addressing.value, writer, m.Ns());
    }
    assert writer.Tokens() == before + tag + persistent + others + elements;
    writer.WriteEndElement();
    assert before + tag + persistent + others + elements + [End] == before + (tag + (persistent + others + elements) + [End]);
  }

  method WriteBody(writer: XmlWriter, m: Outgoing)
    requires writer.Valid() && writer.pending == []
    modifies writer
    ensures writer.Valid() && writer.pending == []
    ensures writer.Tokens() == old(writer.Tokens()) + m.BodyTokens()
  {
    hide EnvelopeNs, PrintAs, Contents;
    writer.WriteStartElement(EnvelopeNs(m.version), "Body");
    ghost var before := writer.Tokens();
    var elementName := if m.methodName != "" then m.methodName else m.message.value.name;
    if elementName != "" {
      if !m.message.isFault {
        writer.WriteStartElement(m.Ns(), elementName);
      } else {
        writer.WriteStartElement(EnvelopeNs(m.version), elementName);
      }
      WriteElementContents(m.message.value, writer, m.Ns());
      writer.WriteEndElement();
      ContentsArePrinted(m.message.value, m.ElementNs(), elementName, m.Ns(), before);
    }
    writer.WriteEndElement();
  }

  lemma NoHeaderTokens(m: Outgoing)
    ensures !m.HasHeader() ==> m.HeaderTokens() == []
  {
  }

  /** messageToXml. */
  method MessageToXml(m: Outgoing) returns (tokens: seq<Token>)
    requires NoAttributes(m.headers) && NoAttributes(m.persistentHeaders)
    ensures tokens == m.Tokens()
  {
    hide EnvelopeNs, StandardDecls, m.HeaderTokens, m.BodyTokens;
    var writer := new XmlWriter();
    WriteStandardNamespaces(writer, m.version, m.message.addressing);
    writer.WriteStartElement(EnvelopeNs(m.version), "Envelope");
    var messageNs := m.defaultNs;
    if m.message.value.ns != "" && messageNs != m.message.value.ns {
      messageNs := m.message.value.ns;
    }
    if m.headers != [] || m.persistentHeaders != [] || m.message.addressing.Some? {
      writer.WriteNamespace(messageNs, "n1");
      WriteHeader(writer, m);
    } else {
      assert StandardDecls(m.version, m.message.addressing) + [] == StandardDecls(m.version, m.message.addressing);
    }
    assert writer.Tokens() == [Start(EnvelopeNs(m.version), "Envelope", m.Decls(), [])] + if m.HasHeader() then m.HeaderTokens() else [];
    NoHeaderTokens(m);
    WriteBody(writer, m);
    writer.WriteEndElement();
    return writer.Tokens();
  }

  // ----- reading -----

  datatype Error = EnvelopeExpected | EmptyEnvelope | BodyExpected

  /** What xmlToMessage leaves behind; headers read before an error stay in the list. */
  datatype Reading =
    | Received(message: Message, headers: seq<Value>)
    | Failed(error: Error, headers: seq<Value>)

  /** One element of the header: an addressing property or another header. */
  function TakeHeader(p: Properties, headers: seq<Value>, v: Value): (Properties, seq<Value>) {
    if IsAddressingNamespace(v.ns) then (ReadProperty(p, v), headers) else (p, headers + [v])
  }

  /** The elements of the header up to its end. */
  function ReadHeader(tokens: seq<Token>, i: nat, env: seq<NsDecl>, p: Properties, headers: seq<Value>): (r: (Properties, seq<Value>, nat))
    requires i <= |tokens|
    ensures i <= r.2 <= |tokens|
    decreases |tokens| - i
  {
    var (found, j) := NextStart(tokens, i);
    if !found then (p, headers, j)
    else
      var (v, k) := Parse(tokens, j, env);
      var (q, more) := TakeHeader(p, headers, v);
      ReadHeader(tokens, k, env, q, more)
  }

  predicate StartsSoap(tokens: seq<Token>, i: nat, name: string) {
    i < |tokens| && tokens[i].Start? && tokens[i].name == name && IsEnvelopeNs(tokens[i].ns)
  }

  function ReadBody(tokens: seq<Token>, i: nat, env: seq<NsDecl>, into: Message, headers: seq<Value>): Reading
    requires i <= |tokens|
  {
    if !StartsSoap(tokens, i, "Body") then Failed(BodyExpected, headers)
    else
      var (found, j) := NextStart(tokens, i + 1);
      if !found then Received(into, headers)
      else
        var v := Parse(tokens, j, env).0;
        Received(into.(value := v, isFault := into.isFault || (v.name == "Fault" && IsEnvelopeNs(tokens[j].ns))), headers)
  }

  /** xmlToMessage on a well-formed document, into the message `into`. */
  function Read(tokens: seq<Token>, into: Message): Reading {
    var (found, i) := NextStart(tokens, 0);
    if !found || !StartsSoap(tokens, i, "Envelope") then Failed(EnvelopeExpected, [])
    else
      var env := tokens[i].decls;
      var (more, j) := NextStart(tokens, i + 1);
      if !more then Failed(EmptyEnvelope, [])
      else if !StartsSoap(tokens, j, "Header") then ReadBody(tokens, j, env, into, [])
      else
        var (p, headers, k) := ReadHeader(tokens, j + 1, env, NO_PROPERTIES, []);
        ReadBody(tokens, NextStart(tokens, k).1, env, into.(addressing := Some(p)), headers)
  }

  method ReadHeaderElements(reader: XmlReader, env: seq<NsDecl>) returns (p: Properties, headers: seq<Value>)
    requires reader.pos <= |reader.tokens|
    modifies reader
    ensures (p, headers, reader.pos) == ReadHeader(reader.tokens, old(reader.pos), env, NO_PROPERTIES, [])
  {
    hide Parse, NextStart, TakeHeader;
    ghost var begin := reader.pos;
    p, headers := NO_PROPERTIES, [];
    var found := reader.ReadNextStartElement();
    ghost var from := begin;
    while found
      invariant begin <= from <= reader.pos <= |reader.tokens|
      invariant (found, reader.pos) == NextStart(reader.tokens, from)
      invariant ReadHeader(reader.tokens, begin, env, NO_PROPERTIES, []) == ReadHeader(reader.tokens, from, env, p, headers)
      decreases |reader.tokens| - from
    {
      var v := reader.ParseElement(env);
      var taken := TakeHeader(p, headers, v);
      p, headers := taken.0, taken.1;
      from := reader.pos;
      found := reader.ReadNextStartElement();
    }
  }

  /** xmlToMessage. */
  method XmlToMessage(tokens: seq<Token>, into: Message) returns (r: Reading)
    ensures r == Read(tokens, into)
  {
    hide Parse, NextStart, ReadHeader, IsEnvelopeNs;
    var reader := new XmlReader(tokens);
    var found := reader.ReadNextStartElement();
    if !found || !StartsSoap(tokens, reader.pos, "Envelope") {
      return Failed(EnvelopeExpected, []);
    }
    var env := tokens[reader.pos].decls;
    reader.pos := reader.pos + 1;
    found := reader.ReadNextStartElement();
    if !found {
      return Failed(EmptyEnvelope, []);
    }
    var message, headers := into, [];
    if StartsSoap(tokens, reader.pos, "Header") {
      reader.pos := reader.pos + 1;
      var p;
      p, headers := ReadHeaderElements(reader, env);
      message := message.(addressing := Some(p));
      found := reader.ReadNextStartElement();
    }
    if !StartsSoap(tokens, reader.pos, "Body") {
      return Failed(BodyExpected, headers);
    }
    reader.pos := reader.pos + 1;
    found := reader.ReadNextStartElement();
    if found {
      var start := reader.pos;
      var v := reader.ParseElement(env);
      message := message.(value := v);
      if v.name == "Fault" && IsEnvelopeNs(tokens[start].ns) {
        message := message.(isFault := true);
      }
    }
    return Received(message, headers);
  }

  // ----- write, then read -----

  function Addressed(vs: seq<Value>): seq<Value> {
    if vs == [] then [] else (if IsAddressingNamespace(vs[0].ns) then [vs[0]] else []) + Addressed(vs[1..])
  }

  function Others(vs: seq<Value>): seq<Value> {
    if vs == [] then [] else (if IsAddressingNamespace(vs[0].ns) then [] else [vs[0]]) + Others(vs[1..])
  }

  /** The header values as a receiver sees them. */
  function SeenHeaders(m: Outgoing): seq<Value> {
    CanonAll(m.HeaderValues(), m.Ns(), true, m.Decls())
  }

  /** The addressing properties a receiver finds: header values in an addressing namespace count as properties too. */
  function SeenAddressing(m: Outgoing, into: Option<Properties>): Option<Properties> {
    if m.HasHeader() then
      Some(ReadAll(ReadAll(NO_PROPERTIES, Addressed(SeenHeaders(m))), Seen(m.AddressingElements(), m.Ns(), m.Decls())))
    else into
  }

  predicate SeenAsFault(m: Outgoing) {
    m.ElementName() == "Fault" && IsEnvelopeNs(m.ElementNs())
  }

  function SeenValue(m: Outgoing, into: Value): Value {
    if m.ElementName() == "" then into else CanonAs(m.message.value, m.ElementNs(), m.ElementName(), m.Ns(), m.Decls())
  }

  lemma StartIsNext(tokens: seq<Token>, i: nat)
    requires i < |tokens| && !tokens[i].Chars?
    ensures NextStart(tokens, i) == if tokens[i].Start? then (true, i) else (false, i + 1)
  {
  }

  lemma ReadHeaderOne(tokens: seq<Token>, i: nat, env: seq<NsDecl>, p: Properties, headers: seq<Value>)
    requires i < |tokens| && tokens[i].Start?
    ensures var (v, k) := Parse(tokens, i, env);
            var (q, more) := TakeHeader(p, headers, v);
            ReadHeader(tokens, i, env, p, headers) == ReadHeader(tokens, k, env, q, more)
  {
    hide Parse, TakeHeader;
  }

  lemma {:induction false} ReadHeaderPrinted(vs: seq<Value>, messageNs: string, force: bool, tokens: seq<Token>, i: nat,
                                             env: seq<NsDecl>, p: Properties, headers: seq<Value>)
    requires TokensAt(tokens, i, PrintAll(vs, messageNs, force))
    ensures ReadHeader(tokens, i, env, p, headers)
         == ReadHeader(tokens, i + |PrintAll(vs, messageNs, force)|, env, ReadAll(p, Addressed(CanonAll(vs, messageNs, force, env))),
                       headers + Others(CanonAll(vs, messageNs, force, env)))
    decreases |vs|
  {
    hide OpenTag, WrittenNs, PrintAs, CanonAs, Parse, ReadProperty, IsAddressingNamespace, ReadHeader, NextStart;
    if vs == [] {
      assert headers + [] == headers;
    } else {
      var first, rest := Print(vs[0], messageNs, force), PrintAll(vs[1..], messageNs, force);
      PartsAt(tokens, i, first, rest);
      var ns := WrittenNs(vs[0], messageNs, force);
      assert tokens[i] == first[0];
      StartIsNext(tokens, i);
      ParsePrinted(vs[0], ns, vs[0].name, messageNs, env, tokens, i);
      var v, seen := Canon(vs[0], messageNs, force, env), CanonAll(vs[1..], messageNs, force, env);
      var (q, more) := TakeHeader(p, headers, v);
      ReadHeaderOne(tokens, i, env, p, headers);
      ReadHeaderPrinted(vs[1..], messageNs, force, tokens, i + |first|, env, q, more);
      assert CanonAll(vs, messageNs, force, env) == [v] + seen && ([v] + seen)[1..] == seen;
      assert more + Others(seen) == headers + Others([v] + seen);
      ReadAddressedCons(p, v, seen);
    }
  }

  lemma ReadAddressedCons(p: Properties, v: Value, seen: seq<Value>)
    ensures ReadAll(p, Addressed([v] + seen)) == ReadAll(TakeHeader(p, [], v).0, Addressed(seen))
  {
    hide IsAddressingNamespace, ReadProperty;
    assert ([v] + seen)[1..] == seen;
    if IsAddressingNamespace(v.ns) {
      assert Addressed([v] + seen) == [v] + Addressed(seen) && ([v] + Addressed(seen))[1..] == Addressed(seen);
    } else {
      assert Addressed([v] + seen) == Addressed(seen);
    }
  }

  predicate AllQualified(vs: seq<Value>, ns: string) {
    forall i :: 0 <= i < |vs| ==> vs[i].qualified && vs[i].ns == ns
  }

  lemma {:induction false} RelatesToQualified(ns: string, rs: seq<Relationship>)
    ensures AllQualified(RelatesToAll(ns, rs), ns)
  {
    if rs != [] {
      RelatesToQualified(ns, rs[..|rs| - 1]);
    }
  }

  lemma AddressingElementsQualified(p: Properties)
    ensures AllQualified(HeaderElements(p), NamespaceOf(p.version))
  {
    hide NamespaceOf, RelatesToAll, OptText, OptEndpoint, OptParent, AllQualified;
    var ns := NamespaceOf(p.version);
    NoneQualified(ns);
    SimpleElementsQualified(p);
    RelatesToQualified(ns, p.relationships);
    OptParentQualified(ns, "ReferenceParameters", p.referenceParameters);
    OptParentQualified(ns, "Metadata", p.metadata);
    var done := SimpleElements(p) + RelatesToAll(ns, p.relationships);
    BothQualified(SimpleElements(p), RelatesToAll(ns, p.relationships), ns);
    BothQualified(done, OptParent(ns, "ReferenceParameters", p.referenceParameters), ns);
    done := done + OptParent(ns, "ReferenceParameters", p.referenceParameters);
    BothQualified(done, OptParent(ns, "Metadata", p.metadata), ns);
  }

  lemma SimpleElementsQualified(p: Properties)
    ensures AllQualified(SimpleElements(p), NamespaceOf(p.version))
  {
    hide NamespaceOf, OptText, OptEndpoint, AllQualified;
    var ns := NamespaceOf(p.version);
    OptQualified(ns, "To", p.destination);
    OptQualified(ns, "From", p.source.address);
    OptQualified(ns, "ReplyTo", p.replyTo.address);
    OptQualified(ns, "FaultTo", p.faultTo.address);
    OptQualified(ns, "Action", p.action);
    OptQualified(ns, "MessageID", p.messageID);
    var done := OptText(ns, "To", p.destination);
    BothQualified(done, OptEndpoint(ns, "From", p.source.address), ns);
    done := done + OptEndpoint(ns, "From", p.source.address);
    BothQualified(done, OptEndpoint(ns, "ReplyTo", p.replyTo.address), ns);
    done := done + OptEndpoint(ns, "ReplyTo", p.replyTo.address);
    BothQualified(done, OptEndpoint(ns, "FaultTo", p.faultTo.address), ns);
    done := done + OptEndpoint(ns, "FaultTo", p.faultTo.address);
    BothQualified(done, OptText(ns, "Action", p.action), ns);
    done := done + OptText(ns, "Action", p.action);
    BothQualified(done, OptText(ns, "MessageID", p.messageID), ns);
  }

  lemma NoneQualified(ns: string)
    ensures AllQualified([], ns)
  {
  }

  lemma BothQualified(a: seq<Value>, b: seq<Value>, ns: string)
    requires AllQualified(a, ns) && AllQualified(b, ns)
    ensures AllQualified(a + b, ns)
  {
  }

  lemma OptQualified(ns: string, name: string, text: string)
    ensures AllQualified(OptText(ns, name, text), ns) && AllQualified(OptEndpoint(ns, name, text), ns)
  {
  }

  lemma OptParentQualified(ns: string, name: string, vs: seq<Value>)
    ensures AllQualified(OptParent(ns, name, vs), ns)
  {
  }

  /** Every element written for the addressing properties is read as one. */
  lemma {:induction false} SeenAsAddressing(vs: seq<Value>, ns: string, messageNs: string, env: seq<NsDecl>)
    requires AllQualified(vs, ns) && ns != "" && IsAddressingNamespace(ns)
    ensures Addressed(CanonAll(vs, messageNs, false, env)) == Seen(vs, messageNs, env)
    ensures Others(CanonAll(vs, messageNs, false, env)) == []
  {
    hide IsAddressingNamespace, CanonAs;
    if vs != [] {
      SeenAsAddressing(vs[1..], ns, messageNs, env);
      var v, seen := Canon(vs[0], messageNs, false, env), CanonAll(vs[1..], messageNs, false, env);
      CanonNs(vs[0], messageNs, env);
      assert CanonAll(vs, messageNs, false, env) == [v] + seen && ([v] + seen)[1..] == seen;
    }
  }

  lemma CanonNs(v: Value, messageNs: string, env: seq<NsDecl>)
    requires v.qualified && v.ns != ""
    ensures Canon(v, messageNs, false, env).ns == v.ns
  {
  }

  lemma OutgoingAddressing(m: Outgoing)
    ensures Addressed(Seen(m.AddressingElements(), m.Ns(), m.Decls())) == Seen(m.AddressingElements(), m.Ns(), m.Decls())
    ensures Others(Seen(m.AddressingElements(), m.Ns(), m.Decls())) == []
  {
    hide HeaderElements, NamespaceOf;
    if m.message.addressing.Some? {
      var p := m.message.addressing.value;
      NamespaceNotEmpty(p.version);
      AddressingElementsQualified(p);
      SeenAsAddressing(m.AddressingElements(), NamespaceOf(p.version), m.Ns(), m.Decls());
    }
  }

  lemma HeaderParts(m: Outgoing, tokens: seq<Token>, i: nat)
    requires m.HasHeader() && TokensAt(tokens, i, m.HeaderTokens())
    ensures var values, elements := PrintAll(m.HeaderValues(), m.Ns(), true), PrintAll(m.AddressingElements(), m.Ns(), false);
            var end := i + 1 + |values| + |elements|;
            && TokensAt(tokens, i + 1, values) && TokensAt(tokens, i + 1 + |values|, elements)
            && end < |tokens| && tokens[end] == End && i + |m.HeaderTokens()| == end + 1
            && tokens[i] == Start(EnvelopeNs(m.version), "Header", [], [])
  {
    hide PrintAll, TokensAt, EnvelopeNs, m.HeaderValues, m.AddressingElements, m.Ns;
    var values, elements := PrintAll(m.HeaderValues(), m.Ns(), true), PrintAll(m.AddressingElements(), m.Ns(), false);
    var tag := [Start(EnvelopeNs(m.version), "Header", [], [])];
    Reassociate(tag, values, elements, [End]);
    PartsAt(tokens, i, tag, values + (elements + [End]));
    PartsAt(tokens, i + 1, values, elements + [End]);
    PartsAt(tokens, i + 1 + |values|, elements, [End]);
    OneTokenAt(tokens, i, tag[0]);
    OneTokenAt(tokens, i + 1 + |values| + |elements|, End);
  }

  lemma Reassociate(a: seq<Token>, b: seq<Token>, c: seq<Token>, d: seq<Token>)
    ensures a + (b + c) + d == a + (b + (c + d))
  {
  }

  lemma OneTokenAt(tokens: seq<Token>, i: nat, t: Token)
    requires TokensAt(tokens, i, [t])
    ensures i < |tokens| && tokens[i] == t
  {
    assert [t][0] == t;
  }

  lemma ReadWrittenHeader(m: Outgoing, tokens: seq<Token>, i: nat)
    requires m.HasHeader() && TokensAt(tokens, i, m.HeaderTokens())
    ensures tokens[i] == Start(EnvelopeNs(m.version), "Header", [], [])
    ensures ReadHeader(tokens, i + 1, m.Decls(), NO_PROPERTIES, [])
         == (SeenAddressing(m, None).value, Others(SeenHeaders(m)), i + |m.HeaderTokens()|)
  {
    hide PrintAll, CanonAll, Others, Addressed, NextStart, TakeHeader, ReadAll, TokensAt, EnvelopeNs;
    hide m.HeaderTokens, m.HeaderValues, m.AddressingElements, m.Decls, m.Ns, m.HasHeader;
    var values, elements := PrintAll(m.HeaderValues(), m.Ns(), true), PrintAll(m.AddressingElements(), m.Ns(), false);
    HeaderParts(m, tokens, i);
    ReadHeaderPrinted(m.HeaderValues(), m.Ns(), true, tokens, i + 1, m.Decls(), NO_PROPERTIES, []);
    var p, headers := ReadAll(NO_PROPERTIES, Addressed(SeenHeaders(m))), Others(SeenHeaders(m));
    assert [] + headers == headers;
    ReadHeaderPrinted(m.AddressingElements(), m.Ns(), false, tokens, i + 1 + |values|, m.Decls(), p, headers);
    OutgoingAddressing(m);
    assert headers + [] == headers;
    StartIsNext(tokens, i + 1 + |values| + |elements|);
  }

  lemma ReadWrittenBody(m: Outgoing, tokens: seq<Token>, i: nat, into: Message, headers: seq<Value>)
    requires TokensAt(tokens, i, m.BodyTokens())
    ensures ReadBody(tokens, i, m.Decls(), into, headers)
         == Received(into.(value := SeenValue(m, into.value), isFault := into.isFault || SeenAsFault(m)), headers)
  {
    hide PrintAs, CanonAs, OpenTag, NextStart, Parse;
    var tag := [Start(EnvelopeNs(m.version), "Body", [], [])];
    var element := if m.ElementName() == "" then [] else PrintAs(m.message.value, m.ElementNs(), m.ElementName(), m.Ns());
    assert m.BodyTokens() == tag + (element + [End]);
    PartsAt(tokens, i, tag, element + [End]);
    PartsAt(tokens, i + 1, element, [End]);
    assert tokens[i] == tag[0];
    if m.ElementName() == "" {
      assert tokens[i + 1] == [End][0];
      StartIsNext(tokens, i + 1);
    } else {
      assert tokens[i + 1] == element[0];
      StartIsNext(tokens, i + 1);
      TagOf(m.message.value, m.ElementNs(), m.ElementName());
      ParsePrinted(m.message.value, m.ElementNs(), m.ElementName(), m.Ns(), m.Decls(), tokens, i + 1);
      CanonAsName(m.message.value, m.ElementNs(), m.ElementName(), m.Ns(), m.Decls());
    }
  }

  lemma TagOf(v: Value, ns: string, name: string)
    ensures var tag := OpenTag(v, ns, name, []); tag.Start? && tag.ns == ns && tag.name == name
  {
  }

  lemma CanonAsName(v: Value, ns: string, name: string, messageNs: string, env: seq<NsDecl>)
    ensures CanonAs(v, ns, name, messageNs, env).name == name
  {
  }

  lemma SoapElement(tokens: seq<Token>, i: nat, version: SoapVersion, name: string, decls: seq<NsDecl>)
    requires i < |tokens| && tokens[i] == Start(EnvelopeNs(version), name, decls, [])
    ensures NextStart(tokens, i) == (true, i) && tokens[i].Start? && tokens[i].decls == decls
    ensures forall other :: StartsSoap(tokens, i, other) <==> other == name
  {
  }

  lemma DocumentParts(m: Outgoing)
    ensures m.Tokens()[0] == Start(EnvelopeNs(m.version), "Envelope", m.Decls(), [])
    ensures TokensAt(m.Tokens(), 1, m.HeaderTokens())
    ensures TokensAt(m.Tokens(), 1 + |m.HeaderTokens()|, m.BodyTokens())
  {
    hide m.HeaderTokens, m.BodyTokens, m.Decls, EnvelopeNs;
    var tokens := m.Tokens();
    var tag := [Start(EnvelopeNs(m.version), "Envelope", m.Decls(), [])];
    assert tokens == tag + (m.HeaderTokens() + (m.BodyTokens() + [End]));
    PartsAt(tokens, 0, tag, m.HeaderTokens() + (m.BodyTokens() + [End]));
    PartsAt(tokens, 1, m.HeaderTokens(), m.BodyTokens() + [End]);
    PartsAt(tokens, 1 + |m.HeaderTokens()|, m.BodyTokens(), [End]);
  }

  /** For every message and all its headers: what xmlToMessage reads from what messageToXml wrote. */
  lemma EnvelopeRoundTrip(m: Outgoing, into: Message)
    ensures Read(m.Tokens(), into)
         == Received(Message(SeenValue(m, into.value), into.isFault || SeenAsFault(m), SeenAddressing(m, into.addressing)),
                     Others(SeenHeaders(m)))
  {
    hide ReadBody, ReadHeader, StartsSoap, NextStart, EnvelopeNs, SeenValue, SeenAddressing, SeenAsFault, SeenHeaders, Others;
    hide m.Tokens, m.HeaderTokens, m.BodyTokens, m.Decls, m.HasHeader;
    var tokens := m.Tokens();
    DocumentParts(m);
    SoapElement(tokens, 0, m.version, "Envelope", m.Decls());
    var body := 1 + |m.HeaderTokens()|;
    BodyStarts(m);
    assert tokens[body] == m.BodyTokens()[0];
    SoapElement(tokens, body, m.version, "Body", []);
    if m.HasHeader() {
      HeaderStarts(m);
      assert tokens[1] == m.HeaderTokens()[0];
      SoapElement(tokens, 1, m.version, "Header", []);
      ReadWrittenHeader(m, tokens, 1);
      HeaderMakesAddressing(m, into);
      ReadWrittenBody(m, tokens, body, into.(addressing := SeenAddressing(m, into.addressing)), Others(SeenHeaders(m)));
    } else {
      NoHeaderValues(m);
      NoHeaderTokens(m);
      ReadWrittenBody(m, tokens, body, into, []);
    }
  }

  lemma HeaderMakesAddressing(m: Outgoing, into: Message)
    requires m.HasHeader()
    ensures SeenAddressing(m, None).Some? && SeenAddressing(m, into.addressing) == SeenAddressing(m, None)
  {
  }

  lemma HeaderStarts(m: Outgoing)
    requires m.HasHeader()
    ensures |m.HeaderTokens()| > 0 && m.HeaderTokens()[0] == Start(EnvelopeNs(m.version), "Header", [], [])
  {
    hide PrintAll;
  }

  lemma BodyStarts(m: Outgoing)
    ensures |m.BodyTokens()| > 0 && m.BodyTokens()[0] == Start(EnvelopeNs(m.version), "Body", [], [])
  {
    hide PrintAs;
  }

  lemma NoHeaderValues(m: Outgoing)
    requires !m.HasHeader()
    ensures Others(SeenHeaders(m)) == [] && SeenAddressing(m, None) == None && forall into :: SeenAddressing(m, into) == into
  {
    assert m.HeaderValues() == [];
  }

  /** No header value is written in a WS-Addressing namespace. */
  predicate NoAddressingHeaders(m: Outgoing) {
    forall i :: 0 <= i < |m.HeaderValues()| ==> !IsAddressingNamespace(WrittenNs(m.HeaderValues()[i], m.Ns(), true))
  }

  lemma {:induction false} OthersAreAll(vs: seq<Value>, messageNs: string, env: seq<NsDecl>)
    ensures var seen := CanonAll(vs, messageNs, true, env);
            (Others(seen) == seen <==> forall i :: 0 <= i < |vs| ==> !IsAddressingNamespace(WrittenNs(vs[i], messageNs, true)))
            && (Others(seen) == seen ==> Addressed(seen) == []) && |Others(seen)| <= |seen|
  {
    hide IsAddressingNamespace, WrittenNs, CanonAs;
    if vs != [] {
      var v, seen := Canon(vs[0], messageNs, true, env), CanonAll(vs[1..], messageNs, true, env);
      OthersAreAll(vs[1..], messageNs, env);
      var all := [v] + seen;
      assert all[1..] == seen;
      CanonNsForced(vs[0], messageNs, env);
      assert (forall i :: 0 <= i < |vs| ==> !IsAddressingNamespace(WrittenNs(vs[i], messageNs, true))) <==>
          !IsAddressingNamespace(WrittenNs(vs[0], messageNs, true))
          && forall i :: 0 <= i < |vs[1..]| ==> !IsAddressingNamespace(WrittenNs(vs[1..][i], messageNs, true));
      if !IsAddressingNamespace(v.ns) {
        assert Others(all)[1..] == Others(seen);
        assert Addressed(all) == Addressed(seen);
      }
    }
  }

  lemma CanonNsForced(v: Value, messageNs: string, env: seq<NsDecl>)
    ensures Canon(v, messageNs, true, env).ns == WrittenNs(v, messageNs, true)
  {
    hide WrittenNs;
  }

  /** Headers come back complete and in order, persistent ones first, exactly when none is written in an addressing namespace. */
  lemma HeadersSurvive(m: Outgoing)
    ensures Others(SeenHeaders(m)) == SeenHeaders(m) <==> NoAddressingHeaders(m)
  {
    OthersAreAll(m.HeaderValues(), m.Ns(), m.Decls());
  }

  /** Then the addressing properties are those of the message; a header without any reads as a set of empty ones. */
  lemma AddressingSurvives(m: Outgoing, into: Option<Properties>)
    requires NoAddressingHeaders(m) && m.HasHeader()
    ensures SeenAddressing(m, into)
         == Some(if m.message.addressing.Some? then CanonProperties(m.message.addressing.value, m.Decls()) else NO_PROPERTIES)
  {
    hide HeaderElements, CanonProperties, CanonAll, m.Decls;
    OthersAreAll(m.HeaderValues(), m.Ns(), m.Decls());
    if m.message.addressing.Some? {
      ReadWritten(m.message.addressing.value, m.Ns(), m.Decls());
    } else {
      NothingSeen(m.Ns(), m.Decls());
    }
  }

  /** The fault flag is not sent; it is recovered from the name and namespace of the element in the body. */
  lemma FaultFlagSurvives(m: Outgoing)
    ensures SeenAsFault(m) == m.message.isFault <==>
            if m.message.isFault then m.ElementName() == "Fault" else m.ElementName() != "Fault" || !IsEnvelopeNs(m.Ns())
  {
  }
}
