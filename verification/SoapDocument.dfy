/**
 What the SOAP documents look like, by the texts of namespaces and names: sections 3 and 4 of SOAP 1.1, section 5 of
 SOAP 1.2, and section 3 of WS-Addressing 1.0. Writers and readers that agreed on other names would not do.
 */
module SoapDocument {
  import opened Addressing
  import opened Envelope
  import opened SoapValue
  import opened Wrappers

  // ----- the envelope -----

  function SoapNs(version: SoapVersion): string {
    match version
    case Soap11 => "http://schemas.xmlsoap.org/soap/envelope/"
    case Soap12 => "http://www.w3.org/2003/05/soap-envelope"
  }

  function SoapEncoding(version: SoapVersion): string {
    match version
    case Soap11 => "http://schemas.xmlsoap.org/soap/encoding/"
    case Soap12 => "http://www.w3.org/2003/05/soap-encoding"
  }

  function WsaNs(version: Version): string {
    match version
    case Addressing200303 => "http://schemas.xmlsoap.org/ws/2003/03/addressing"
    case Addressing200403 => "http://schemas.xmlsoap.org/ws/2004/03/addressing"
    case Addressing200408 => "http://schemas.xmlsoap.org/ws/2004/08/addressing"
    case Addressing200508 => "http://www.w3.org/2005/08/addressing"
  }

  /** The namespace of the message: its own, or else the default one. */
  function MessageNs(m: Outgoing): string {
    if m.message.value.ns == "" then m.defaultNs else m.message.value.ns
  }

  function Declared(m: Outgoing): seq<NsDecl> {
    [NsDecl("soap", SoapNs(m.version)), NsDecl("soap-enc", SoapEncoding(m.version)),
     NsDecl("xsd", "http://www.w3.org/2001/XMLSchema"), NsDecl("xsi", "http://www.w3.org/2001/XMLSchema-instance")]
    + (if m.message.addressing.Some? then [NsDecl("wsa", WsaNs(m.message.addressing.value.version))] else [])
    + (if m.headers == [] && m.persistentHeaders == [] && m.message.addressing.None? then [] else [NsDecl("n1", MessageNs(m))])
  }

  /** The header of a message: nothing, or the children of the persistent headers, of the others, and the properties. */
  function HeaderPart(m: Outgoing): seq<Token> {
    if m.headers == [] && m.persistentHeaders == [] && m.message.addressing.None? then []
    else
      [Start(SoapNs(m.version), "Header", [], [])]
      + PrintAll(AllChildren(m.persistentHeaders), MessageNs(m), true) + PrintAll(AllChildren(m.headers), MessageNs(m), true)
      + (if m.message.addressing.Some? then PrintAll(HeaderElements(m.message.addressing.value), MessageNs(m), false) else [])
      + [End]
  }

  /** The body: the message, called like the method if there is one, and a fault in the namespace of the envelope. */
  function BodyPart(m: Outgoing): seq<Token> {
    var name := if m.methodName != "" then m.methodName else m.message.value.name;
    [Start(SoapNs(m.version), "Body", [], [])]
    + (if name == "" then [] else PrintAs(m.message.value, if m.message.isFault then SoapNs(m.version) else MessageNs(m), name, MessageNs(m)))
    + [End]
  }

  /** Every document that messageToXml writes. */
  lemma DocumentByVersion(m: Outgoing)
    ensures m.Tokens() == [Start(SoapNs(m.version), "Envelope", Declared(m), [])] + HeaderPart(m) + BodyPart(m) + [End]
  {
    hide PrintAll, PrintAs, AllChildren, HeaderElements;
    HeaderIs(m);
    var first := [Start(SoapNs(m.version), "Envelope", Declared(m), [])];
    assert StandardDecls(m.version, m.message.addressing) + [] == StandardDecls(m.version, m.message.addressing);
    assert m.Decls() == Declared(m);
    assert m.BodyTokens() == BodyPart(m);
    assert first + (m.HeaderTokens() + m.BodyTokens()) + [End] == first + m.HeaderTokens() + m.BodyTokens() + [End];
  }

  lemma HeaderIs(m: Outgoing)
    ensures m.HeaderTokens() == HeaderPart(m)
  {
    hide PrintAll, AllChildren, HeaderElements;
    var ns := MessageNs(m);
    NothingLeft(ns, false);
    PrintAllAppend(AllChildren(m.persistentHeaders), AllChildren(m.headers), ns, true);
    var tag := [Start(SoapNs(m.version), "Header", [], [])];
    var a, b, c := PrintAll(AllChildren(m.persistentHeaders), ns, true), PrintAll(AllChildren(m.headers), ns, true),
                   PrintAll(m.AddressingElements(), ns, false);
    assert tag + ((a + b) + c) + [End] == tag + a + b + c + [End];
  }

  // ----- documents that are refused -----

  predicate IsSoapNs(ns: string) {
    ns == "http://schemas.xmlsoap.org/soap/envelope/" || ns == "http://www.w3.org/2003/05/soap-envelope"
  }

  /** A document has to be an envelope of one of the two versions. */
  lemma NoEnvelope(root: Token, rest: seq<Token>, into: Message)
    requires root.Start?
    ensures Read([root] + rest, into) == Failed(EnvelopeExpected, []) <==> !(root.name == "Envelope" && IsSoapNs(root.ns))
  {
    hide Parse, ReadHeader, NextStart;
    FirstStart(root, rest);
    var tokens := [root] + rest;
    assert tokens[0] == root;
  }

  lemma FirstStart(root: Token, rest: seq<Token>)
    requires root.Start?
    ensures NextStart([root] + rest, 0) == (true, 0)
  {
  }

  /** It must not be empty, and without a header it has to start with a body. */
  lemma NoBody(root: Token, first: Token, rest: seq<Token>, into: Message)
    requires root.Start? && root.name == "Envelope" && IsSoapNs(root.ns)
    ensures Read([root, End] + rest, into) == Failed(EmptyEnvelope, [])
    ensures first.Start? && !(IsSoapNs(first.ns) && (first.name == "Header" || first.name == "Body")) ==>
              Read([root, first] + rest, into) == Failed(BodyExpected, [])
  {
    hide Parse, ReadHeader;
    var a, b := [root, End] + rest, [root, first] + rest;
    assert a[0] == root && a[1] == End && b[0] == root && b[1] == first;
  }

  /** A message arrives as a fault exactly when its element is called Fault in a namespace of the envelope. */
  lemma FaultElement(m: Outgoing, into: Message)
    requires !into.isFault
    ensures var r := Read(m.Tokens(), into);
            r.Received? && (r.message.isFault <==>
                              && (if m.methodName != "" then m.methodName else m.message.value.name) == "Fault"
                              && (m.message.isFault || IsSoapNs(MessageNs(m))))
  {
    hide m.Tokens, Read, SeenValue, SeenAddressing, SeenHeaders, Others;
    EnvelopeRoundTrip(m, into);
  }

  // ----- the namespace and contents of an element -----

  /**
   The start tag of an element: in its own namespace if it has one and is qualified or in another one than the message;
   in the message's if it is qualified without one of its own; otherwise in none.
   */
  lemma ElementNamespace(v: Value, messageNs: string)
    ensures var tag := Print(v, messageNs, false)[0];
            && tag.Start? && tag.name == v.name && tag.decls == v.decls
            && (v.ns != "" && (v.qualified || v.ns != messageNs) ==> tag.ns == v.ns)
            && (v.ns == "" && v.qualified ==> tag.ns == messageNs)
            && (!v.qualified && (v.ns == "" || v.ns == messageNs) ==> tag.ns == "")
    ensures var tag := Print(v, messageNs, true)[0];
            tag.Start? && tag.name == v.name && tag.ns == if v.ns == "" then messageNs else v.ns
  {
    assert [] + v.decls == v.decls;
  }

  /** An element without children: xsi:nil exactly when it is nillable and has neither a text nor attributes. */
  lemma LeafElement(v: Value, messageNs: string)
    requires v.children == []
    ensures var tokens := Print(v, messageNs, false);
            && tokens[0].Start?
            && (if v.text.Some? && v.text.value != "" then tokens[1..] == [Chars(v.text.value), End] else tokens[1..] == [End])
            && (v.attrs == [] ==>
                  tokens[0].attrs == if v.text.None? && v.nillable
                                     then [XmlAttribute("http://www.w3.org/2001/XMLSchema-instance", "nil", "true")] else [])
            && (v.attrs != [] ==>
                  && |tokens[0].attrs| == |v.attrs|
                  && forall i :: 0 <= i < |v.attrs| ==>
                       tokens[0].attrs[i] == XmlAttribute(if v.attrs[i].qualified then v.attrs[i].ns else "", v.attrs[i].name, v.attrs[i].text))
  {
    hide WrittenNs;
    NothingLeft(messageNs, false);
    assert Print(v, messageNs, false) == [OpenTag(v, WrittenNs(v, messageNs, false), v.name, [])] + [] + PrintText(v.text) + [End];
  }

  /** The attributes that a receiver does not keep are those of XML Schema instances and of the SOAP namespaces. */
  lemma ReservedNamespaces(ns: string)
    ensures Reserved(ns) <==> ns in ["http://www.w3.org/1999/XMLSchema-instance", "http://www.w3.org/2001/XMLSchema-instance",
                                     SoapNs(Soap11), SoapNs(Soap12), SoapEncoding(Soap11), SoapEncoding(Soap12)]
    ensures IsAddressingNamespace(ns) <==> ns in [WsaNs(Addressing200303), WsaNs(Addressing200403), WsaNs(Addressing200408), WsaNs(Addressing200508)]
  {
  }

  /** An xsi:type "prefix:name" gives the element a type of that name, in the namespace of the first declaration of the prefix. */
  lemma TypeAttribute(start: Token, env: seq<NsDecl>, xsi: string, prefix: string, name: string)
    requires start.Start? && start.attrs == [XmlAttribute(xsi, "type", prefix + ":" + name)] && ':' !in prefix
    requires xsi == "http://www.w3.org/2001/XMLSchema-instance" || xsi == "http://www.w3.org/1999/XMLSchema-instance"
    ensures Opened(start, env).attrs == []
    ensures Opened(start, env).xsiType.name == name
    ensures Opened(start, env).xsiType.ns == NamespaceForPrefix(env + start.decls, prefix)
  {
    hide NamespaceForPrefix, IndexOfChar;
    var value := prefix + ":" + name;
    assert value[|prefix|] == ':' && value[..|prefix|] == prefix && value[|prefix| + 1..] == name;
    FirstChar(value, ':', |prefix|);
    OneAttribute(Value(start.name, start.ns, None, [], [], false, false, start.decls, env + start.decls, NO_TYPE), start.attrs[0]);
    assert start.attrs == [start.attrs[0]];
  }

  lemma OneAttribute(v: Value, a: XmlAttribute)
    ensures TakeAttrs(v, [a]) == TakeAttr(v, a)
  {
    assert [a][..0] == [];
  }

  // ----- addressing properties -----

  /** The values called `name`, in order. */
  function Named(vs: seq<Value>, name: string): seq<Value> {
    if vs == [] then [] else (if vs[0].name == name then [vs[0]] else []) + Named(vs[1..], name)
  }

  lemma {:induction false} NamedAppend(a: seq<Value>, b: seq<Value>, name: string)
    ensures Named(a + b, name) == Named(a, name) + Named(b, name)
  {
    if a == [] {
      assert a + b == b;
    } else {
      NamedCons(a[0], a[1..], name);
      NamedCons(a[0], a[1..] + b, name);
      assert [a[0]] + a[1..] == a && [a[0]] + (a[1..] + b) == a + b;
      NamedAppend(a[1..], b, name);
    }
  }

  lemma NamedCons(v: Value, vs: seq<Value>, name: string)
    ensures Named([v] + vs, name) == (if v.name == name then [v] else []) + Named(vs, name)
  {
    assert ([v] + vs)[1..] == vs;
  }

  lemma {:induction false} AllNamed(vs: seq<Value>, name: string)
    requires forall v :: v in vs ==> v.name == name
    ensures Named(vs, name) == vs
  {
    if vs != [] {
      AllNamed(vs[1..], name);
      assert vs == [vs[0]] + vs[1..];
    }
  }

  lemma {:induction false} NoneNamed(vs: seq<Value>, name: string)
    requires forall v :: v in vs ==> v.name != name
    ensures Named(vs, name) == []
  {
    if vs != [] {
      NoneNamed(vs[1..], name);
    }
  }

  /** An element with a text and nothing else. */
  predicate IsText(v: Value, ns: string, text: string) {
    v.ns == ns && v.qualified && v.text == Some(text) && v.children == [] && v.attrs == []
  }

  predicate HasText(vs: seq<Value>, ns: string, text: string) {
    if text == "" then vs == [] else |vs| == 1 && IsText(vs[0], ns, text)
  }

  predicate HasAddress(vs: seq<Value>, ns: string, address: string) {
    if address == "" then vs == []
    else |vs| == 1 && vs[0].ns == ns && vs[0].qualified && |vs[0].children| == 1
         && vs[0].children[0].name == "Address" && IsText(vs[0].children[0], ns, address)
  }

  predicate HasNodes(vs: seq<Value>, ns: string, nodes: seq<Value>) {
    if nodes == [] then vs == []
    else |vs| == 1 && vs[0].ns == ns && vs[0].qualified && |vs[0].children| == |nodes|
         && forall i :: 0 <= i < |nodes| ==> vs[0].children[i].name == nodes[i].name && vs[0].children[i].ns == ns
  }

  /** One element for each relationship with a URI, its type as an attribute. */
  predicate HasRelationships(vs: seq<Value>, ns: string, rs: seq<Relationship>)
    decreases |rs|
  {
    if rs == [] then vs == []
    else
      var last := rs[|rs| - 1];
      if last.uri == "" then HasRelationships(vs, ns, rs[..|rs| - 1])
      else
        vs != [] &&
        var v := vs[|vs| - 1];
        && v.ns == ns && v.qualified && v.text == Some(last.uri)
        && v.attrs == (if last.relationshipType == "" then [] else [Attribute("RelationshipType", "", last.relationshipType, false)])
        && HasRelationships(vs[..|vs| - 1], ns, rs[..|rs| - 1])
  }

  lemma {:induction false} HierarchyNames(ns: string, nodes: seq<Value>)
    ensures forall i :: 0 <= i < |nodes| ==> Hierarchy(ns, nodes)[i].name == nodes[i].name && Hierarchy(ns, nodes)[i].ns == ns
    decreases |nodes|
  {
    if nodes != [] {
      HierarchyNames(ns, nodes[1..]);
    }
  }

  lemma NodesAre(ns: string, element: string, nodes: seq<Value>)
    ensures HasNodes(OptParent(ns, element, nodes), ns, nodes)
  {
    hide Hierarchy;
    HierarchyNames(ns, nodes);
  }

  lemma {:induction false} RelationshipsAre(ns: string, rs: seq<Relationship>)
    ensures HasRelationships(RelatesToAll(ns, rs), ns, rs)
    ensures forall v :: v in RelatesToAll(ns, rs) ==> v.name == "RelatesTo"
    decreases |rs|
  {
    if rs != [] {
      var n := |rs| - 1;
      RelationshipsAre(ns, rs[..n]);
      if rs[n].uri == "" {
        assert RelatesToAll(ns, rs[..n]) + [] == RelatesToAll(ns, rs[..n]);
      }
    }
  }

  /** What is written for each property, in order, and under which name. */
  function Pieces(p: Properties): seq<seq<Value>> {
    var ns := NamespaceOf(p.version);
    [OptText(ns, "To", p.destination), OptEndpoint(ns, "From", p.source.address), OptEndpoint(ns, "ReplyTo", p.replyTo.address),
     OptEndpoint(ns, "FaultTo", p.faultTo.address), OptText(ns, "Action", p.action), OptText(ns, "MessageID", p.messageID),
     RelatesToAll(ns, p.relationships), OptParent(ns, "ReferenceParameters", p.referenceParameters), OptParent(ns, "Metadata", p.metadata)]
  }

  function PropertyNames(): seq<string> {
    ["To", "From", "ReplyTo", "FaultTo", "Action", "MessageID", "RelatesTo", "ReferenceParameters", "Metadata"]
  }

  function Flat(pieces: seq<seq<Value>>, n: nat): seq<Value>
    requires n <= |pieces|
  {
    if n == 0 then [] else Flat(pieces, n - 1) + pieces[n - 1]
  }

  /** Each piece keeps to its name. */
  predicate Labelled(pieces: seq<seq<Value>>, names: seq<string>) {
    && |pieces| == |names|
    && (forall i, j :: 0 <= i < j < |names| ==> names[i] != names[j])
    && forall i, v :: 0 <= i < |pieces| && v in pieces[i] ==> v.name == names[i]
  }

  lemma {:induction false} NamedPiece(pieces: seq<seq<Value>>, names: seq<string>, i: nat, n: nat)
    requires Labelled(pieces, names) && i < |names| && n <= |names|
    ensures Named(Flat(pieces, n), names[i]) == if i < n then pieces[i] else []
    decreases n
  {
    hide Named;
    if n == 0 {
      NoneNamed([], names[i]);
    } else {
      NamedPiece(pieces, names, i, n - 1);
      NamedAppend(Flat(pieces, n - 1), pieces[n - 1], names[i]);
      if i == n - 1 {
        AllNamed(pieces[i], names[i]);
      } else {
        NoneNamed(pieces[n - 1], names[i]);
      }
    }
  }

  lemma SameLengthNames()
    ensures "ReplyTo" != "FaultTo" && "MessageID" != "RelatesTo"
  {
    assert "ReplyTo"[0] != "FaultTo"[0] && "MessageID"[0] != "RelatesTo"[0];
  }

  /** The names are all different. */
  lemma DifferentNames()
    ensures forall i, j :: 0 <= i < j < 9 ==> PropertyNames()[i] != PropertyNames()[j]
  {
    SameLengthNames();
    forall i, j | 0 <= i < j < 9
      ensures PropertyNames()[i] != PropertyNames()[j]
    {
      assert |PropertyNames()[i]| == |PropertyNames()[j]| ==> (i == 2 && j == 3) || (i == 5 && j == 6);
    }
  }

  lemma TextPiece(ns: string, element: string, text: string)
    ensures forall v :: v in OptText(ns, element, text) ==> v.name == element
  {
  }

  lemma EndpointPiece(ns: string, element: string, address: string)
    ensures forall v :: v in OptEndpoint(ns, element, address) ==> v.name == element
  {
  }

  lemma NodesPiece(ns: string, element: string, nodes: seq<Value>)
    ensures forall v :: v in OptParent(ns, element, nodes) ==> v.name == element
  {
  }

  lemma SixPieces(p: Properties, i: nat, name: string)
    requires i < 6 && name == PropertyNames()[i]
    ensures forall v :: v in Pieces(p)[i] ==> v.name == name
  {
    hide NamespaceOf, RelatesToAll, OptText, OptEndpoint, OptParent;
    var ns := NamespaceOf(p.version);
    TextPiece(ns, "To", p.destination);
    EndpointPiece(ns, "From", p.source.address);
    EndpointPiece(ns, "ReplyTo", p.replyTo.address);
    EndpointPiece(ns, "FaultTo", p.faultTo.address);
    TextPiece(ns, "Action", p.action);
    TextPiece(ns, "MessageID", p.messageID);
  }

  lemma LastPieces(p: Properties, i: nat, name: string)
    requires 6 <= i < 9 && name == PropertyNames()[i]
    ensures forall v :: v in Pieces(p)[i] ==> v.name == name
  {
    hide NamespaceOf, RelatesToAll, OptText, OptEndpoint, OptParent;
    var ns := NamespaceOf(p.version);
    RelationshipsAre(ns, p.relationships);
    NodesPiece(ns, "ReferenceParameters", p.referenceParameters);
    NodesPiece(ns, "Metadata", p.metadata);
  }

  lemma NinePieces(p: Properties)
    ensures |Pieces(p)| == 9
  {
  }

  lemma PiecesAreLabelled(p: Properties)
    ensures Labelled(Pieces(p), PropertyNames())
  {
    hide Pieces, PropertyNames;
    DifferentNames();
    NinePieces(p);
    NineNames();
    forall i | 0 <= i < 9 ensures forall v :: v in Pieces(p)[i] ==> v.name == PropertyNames()[i] {
      if i < 6 {
        SixPieces(p, i, PropertyNames()[i]);
      } else {
        LastPieces(p, i, PropertyNames()[i]);
      }
    }
  }

  lemma NamedProperty(p: Properties, i: nat, name: string)
    requires !WritesNothing(p) && i < 9 && name == PropertyNames()[i]
    ensures Named(HeaderElements(p), name) == Pieces(p)[i]
  {
    hide Named, HeaderElements, Pieces, Flat, WritesNothing, Labelled, PropertyNames;
    PiecesAreLabelled(p);
    ElementsArePieces(p);
    NineNames();
    LabelledSizes(Pieces(p), PropertyNames());
    NamedPiece(Pieces(p), PropertyNames(), i, 9);
  }

  lemma NineNames()
    ensures |PropertyNames()| == 9
  {
  }

  lemma LabelledSizes(pieces: seq<seq<Value>>, names: seq<string>)
    requires Labelled(pieces, names)
    ensures |pieces| == |names|
  {
  }

  lemma ElementsArePieces(p: Properties)
    requires !WritesNothing(p)
    ensures HeaderElements(p) == Flat(Pieces(p), 9)
  {
    hide OptText, OptEndpoint, OptParent, RelatesToAll, NamespaceOf, WritesNothing;
    var q := Pieces(p);
    assert Flat(q, 1) == q[0];
    assert Flat(q, 3) == q[0] + q[1] + q[2];
    assert Flat(q, 5) == q[0] + q[1] + q[2] + q[3] + q[4];
    assert Flat(q, 7) == q[0] + q[1] + q[2] + q[3] + q[4] + q[5] + q[6];
  }

  /** The elements written for a set of properties, each under its own name, in the namespace of the version. */
  predicate Carries(vs: seq<Value>, ns: string, p: Properties) {
    && HasText(Named(vs, "To"), ns, p.destination)
    && HasText(Named(vs, "Action"), ns, p.action)
    && HasText(Named(vs, "MessageID"), ns, p.messageID)
    && HasAddress(Named(vs, "From"), ns, p.source.address)
    && HasAddress(Named(vs, "ReplyTo"), ns, p.replyTo.address)
    && HasAddress(Named(vs, "FaultTo"), ns, p.faultTo.address)
    && HasRelationships(Named(vs, "RelatesTo"), ns, p.relationships)
    && HasNodes(Named(vs, "ReferenceParameters"), ns, p.referenceParameters)
    && HasNodes(Named(vs, "Metadata"), ns, p.metadata)
  }

  lemma TextProperties(p: Properties)
    requires !WritesNothing(p)
    ensures HasText(Named(HeaderElements(p), "To"), NamespaceOf(p.version), p.destination)
    ensures HasText(Named(HeaderElements(p), "Action"), NamespaceOf(p.version), p.action)
    ensures HasText(Named(HeaderElements(p), "MessageID"), NamespaceOf(p.version), p.messageID)
  {
    hide Named, HeaderElements, WritesNothing, NamespaceOf, OptEndpoint, OptParent, RelatesToAll;
    NamedProperty(p, 0, "To");
    NamedProperty(p, 4, "Action");
    NamedProperty(p, 5, "MessageID");
  }

  lemma EndpointProperties(p: Properties)
    requires !WritesNothing(p)
    ensures HasAddress(Named(HeaderElements(p), "From"), NamespaceOf(p.version), p.source.address)
    ensures HasAddress(Named(HeaderElements(p), "ReplyTo"), NamespaceOf(p.version), p.replyTo.address)
    ensures HasAddress(Named(HeaderElements(p), "FaultTo"), NamespaceOf(p.version), p.faultTo.address)
  {
    hide Named, HeaderElements, WritesNothing, NamespaceOf, OptText, OptParent, RelatesToAll;
    NamedProperty(p, 1, "From");
    NamedProperty(p, 2, "ReplyTo");
    NamedProperty(p, 3, "FaultTo");
  }

  lemma ListProperties(p: Properties)
    requires !WritesNothing(p)
    ensures HasRelationships(Named(HeaderElements(p), "RelatesTo"), NamespaceOf(p.version), p.relationships)
    ensures HasNodes(Named(HeaderElements(p), "ReferenceParameters"), NamespaceOf(p.version), p.referenceParameters)
    ensures HasNodes(Named(HeaderElements(p), "Metadata"), NamespaceOf(p.version), p.metadata)
  {
    hide Named, HeaderElements, WritesNothing, NamespaceOf, OptText, OptEndpoint, OptParent, RelatesToAll, HasRelationships, HasNodes;
    NamedProperty(p, 6, "RelatesTo");
    NamedProperty(p, 7, "ReferenceParameters");
    NamedProperty(p, 8, "Metadata");
    RelationshipsAre(NamespaceOf(p.version), p.relationships);
    NodesAre(NamespaceOf(p.version), "ReferenceParameters", p.referenceParameters);
    NodesAre(NamespaceOf(p.version), "Metadata", p.metadata);
  }

  /** Nothing is written for the "none" destination of the 2005/08 version; otherwise every property under its name. */
  lemma PropertyElements(p: Properties)
    ensures if p.version == Addressing200508 && p.destination == "http://www.w3.org/2005/08/addressing/none" then HeaderElements(p) == []
            else Carries(HeaderElements(p), WsaNs(p.version), p)
  {
    hide Named, HasText, HasAddress, HasNodes, HasRelationships;
    if !WritesNothing(p) {
      hide HeaderElements;
      TextProperties(p);
      EndpointProperties(p);
      ListProperties(p);
    }
  }
}
