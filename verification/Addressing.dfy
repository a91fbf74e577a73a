/**
 WS-Addressing message properties: how KDSoapMessageAddressingProperties writes them into a SOAP header and reads them back.
 Section 3 of WS-Addressing 1.0 Core.
 */
module Addressing {
  import opened SoapValue
  import opened Wrappers

  datatype Version = Addressing200303 | Addressing200403 | Addressing200408 | Addressing200508

  datatype Relationship = Relationship(uri: string, relationshipType: string)

  /** A KDSoapEndpointReference: an address, with parameters and metadata of its own. */
  datatype Endpoint = Endpoint(address: string, referenceParameters: seq<Value>, metadata: seq<Value>)

  const NO_ENDPOINT := Endpoint("", [], [])

  datatype Properties = Properties(
    destination: string, action: string, source: Endpoint, replyTo: Endpoint, faultTo: Endpoint, messageID: string,
    relationships: seq<Relationship>, referenceParameters: seq<Value>, metadata: seq<Value>, version: Version)

  /** A default-constructed KDSoapMessageAddressingProperties. */
  const NO_PROPERTIES := Properties("", "", NO_ENDPOINT, NO_ENDPOINT, NO_ENDPOINT, "", [], [], [], Addressing200508)

  function NamespaceOf(v: Version): string {
    match v
    case Addressing200303 => "http://schemas.xmlsoap.org/ws/2003/03/addressing"
    case Addressing200403 => "http://schemas.xmlsoap.org/ws/2004/03/addressing"
    case Addressing200408 => "http://schemas.xmlsoap.org/ws/2004/08/addressing"
    case Addressing200508 => "http://www.w3.org/2005/08/addressing"
  }

  predicate IsAddressingNamespace(ns: string) {
    || ns == NamespaceOf(Addressing200508) || ns == NamespaceOf(Addressing200303)
    || ns == NamespaceOf(Addressing200403) || ns == NamespaceOf(Addressing200408)
  }

  const NONE_ADDRESS := "http://www.w3.org/2005/08/addressing/none"
  const REPLY_TYPE := "http://www.w3.org/2005/08/addressing/reply"

  // ----- the header elements as values -----

  function TextElement(ns: string, name: string, text: string): Value {
    NewValue(name, Some(text)).(ns := ns, qualified := true)
  }

  function ParentElement(ns: string, name: string, children: seq<Value>): Value {
    NewValue(name, None).(ns := ns, qualified := true, children := children)
  }

  function EndpointElement(ns: string, name: string, address: string): Value {
    ParentElement(ns, name, [TextElement(ns, "Address", address)])
  }

  function RelatesTo(ns: string, r: Relationship): Value {
    TextElement(ns, "RelatesTo", r.uri).(attrs :=
      if r.relationshipType == "" then [] else [Attribute("RelationshipType", "", r.relationshipType, false)])
  }

  /** writeKDSoapValueListHierarchy: names and leaf texts only, everything in the addressing namespace. */
  function Hierarchy(ns: string, vs: seq<Value>): (r: seq<Value>)
    ensures |r| == |vs|
    decreases vs, 0
  {
    if vs == [] then [] else [HierarchyElement(ns, vs[0])] + Hierarchy(ns, vs[1..])
  }

  function HierarchyElement(ns: string, v: Value): Value
    decreases v, 1
  {
    NewValue(v.name, if v.children == [] then v.text else None).(ns := ns, qualified := true, children := Hierarchy(ns, v.children))
  }

  function OptText(ns: string, name: string, text: string): seq<Value> {
    if text == "" then [] else [TextElement(ns, name, text)]
  }

  function OptEndpoint(ns: string, name: string, address: string): seq<Value> {
    if address == "" then [] else [EndpointElement(ns, name, address)]
  }

  function OptParent(ns: string, name: string, vs: seq<Value>): seq<Value> {
    if vs == [] then [] else [ParentElement(ns, name, Hierarchy(ns, vs))]
  }

  function RelatesToAll(ns: string, rs: seq<Relationship>): seq<Value> {
    if rs == [] then []
    else
      var n := |rs| - 1;
      RelatesToAll(ns, rs[..n]) + if rs[n].uri == "" then [] else [RelatesTo(ns, rs[n])]
  }

  /** Nothing is written for the "none" destination. */
  predicate WritesNothing(p: Properties) {
    p.version == Addressing200508 && p.destination == NONE_ADDRESS
  }

  function SimpleElements(p: Properties): seq<Value> {
    var ns := NamespaceOf(p.version);
    OptText(ns, "To", p.destination) + OptEndpoint(ns, "From", p.source.address) + OptEndpoint(ns, "ReplyTo", p.replyTo.address)
    + OptEndpoint(ns, "FaultTo", p.faultTo.address) + OptText(ns, "Action", p.action) + OptText(ns, "MessageID", p.messageID)
  }

  /** The header elements, in the order they are written. */
  function HeaderElements(p: Properties): seq<Value> {
    if WritesNothing(p) then []
    else
      var ns := NamespaceOf(p.version);
      SimpleElements(p) + RelatesToAll(ns, p.relationships)
      + OptParent(ns, "ReferenceParameters", p.referenceParameters) + OptParent(ns, "Metadata", p.metadata)
  }

  // ----- writing -----

  lemma {:induction false} PrintAllAppend(a: seq<Value>, b: seq<Value>, messageNs: string, force: bool)
    ensures PrintAll(a + b, messageNs, force) == PrintAll(a, messageNs, force) + PrintAll(b, messageNs, force)
  {
    hide Print;
    if a == [] {
      assert a + b == b;
    } else {
      assert (a + b)[1..] == a[1..] + b;
      PrintAllAppend(a[1..], b, messageNs, force);
    }
  }

  /** A qualified element is written in its own namespace, whatever the message's. */
  lemma PrintQualified(v: Value, messageNs: string)
    requires v.qualified && v.ns != ""
    ensures PrintAll([v], messageNs, false)
         == [OpenTag(v, v.ns, v.name, [])] + PrintAll(v.children, messageNs, false) + PrintText(v.text) + [End]
  {
    hide OpenTag, PrintText;
    assert PrintAll([v], messageNs, false) == Print(v, messageNs, false) + PrintAll([v][1..], messageNs, false);
    assert [v][1..] == [];
    assert Print(v, messageNs, false) + [] == Print(v, messageNs, false);
  }

  lemma PlainTag(v: Value, ns: string)
    requires v.decls == [] && v.attrs == [] && !v.nillable
    ensures OpenTag(v, ns, v.name, []) == Start(ns, v.name, [], [])
  {
    assert [] + v.decls == [];
  }

  method WriteTextElement(writer: XmlWriter, ns: string, name: string, text: string, ghost messageNs: string)
    requires writer.Valid() && writer.pending == [] && ns != ""
    modifies writer
    ensures writer.Valid() && writer.pending == []
    ensures writer.Tokens() == old(writer.Tokens()) + PrintAll([TextElement(ns, name, text)], messageNs, false)
  {
    hide PrintText;
    PrintQualified(TextElement(ns, name, text), messageNs);
    PlainTag(TextElement(ns, name, text), ns);
    writer.WriteStartElement(ns, name);
    writer.WriteCharacters(text);
    writer.WriteEndElement();
  }

  method WriteEndpoint(writer: XmlWriter, ns: string, name: string, address: string, ghost messageNs: string)
    requires writer.Valid() && writer.pending == [] && ns != ""
    modifies writer
    ensures writer.Valid() && writer.pending == []
    ensures writer.Tokens() == old(writer.Tokens()) + PrintAll([EndpointElement(ns, name, address)], messageNs, false)
  {
    hide PrintText, PrintAll;
    ghost var e := EndpointElement(ns, name, address);
    PrintQualified(e, messageNs);
    PlainTag(e, ns);
    NoText(e);
    writer.WriteStartElement(ns, name);
    WriteTextElement(writer, ns, "Address", address, messageNs);
    writer.WriteEndElement();
  }

  lemma NoText(v: Value)
    requires v.text == None
    ensures PrintText(v.text) == []
  {
  }

  method WriteRelatesTo(writer: XmlWriter, ns: string, r: Relationship, ghost messageNs: string)
    requires writer.Valid() && writer.pending == [] && ns != "" && r.uri != ""
    modifies writer
    ensures writer.Valid() && writer.pending == []
    ensures writer.Tokens() == old(writer.Tokens()) + PrintAll([RelatesTo(ns, r)], messageNs, false)
  {
    hide PrintText, PrintAll;
    ghost var e := RelatesTo(ns, r);
    PrintQualified(e, messageNs);
    NoChildren(messageNs);
    RelatesToTag(ns, r);
    writer.WriteStartElement(ns, "RelatesTo");
    if r.relationshipType != "" {
      writer.WriteAttribute("", "RelationshipType", r.relationshipType);
    }
    writer.WriteCharacters(r.uri);
    writer.WriteEndElement();
  }

  lemma NoChildren(messageNs: string)
    ensures PrintAll([], messageNs, false) == []
  {
  }

  lemma RelatesToTag(ns: string, r: Relationship)
    ensures OpenTag(RelatesTo(ns, r), ns, "RelatesTo", [])
         == Start(ns, "RelatesTo", [], [] + if r.relationshipType == "" then [] else [XmlAttribute("", "RelationshipType", r.relationshipType)])
  {
    assert [] + RelatesTo(ns, r).decls == [];
  }

  /** writeKDSoapValueListHierarchy. */
  method WriteHierarchy(writer: XmlWriter, ns: string, vs: seq<Value>, ghost messageNs: string)
    requires writer.Valid() && writer.pending == [] && ns != ""
    modifies writer
    ensures writer.Valid() && writer.pending == []
    ensures writer.Tokens() == old(writer.Tokens()) + PrintAll(Hierarchy(ns, vs), messageNs, false)
    decreases vs, 0
  {
    hide PrintAll, Hierarchy;
    NoHierarchy(ns, messageNs);
    assert vs[..0] == [];
    for i := 0 to |vs|
      invariant writer.Valid() && writer.pending == []
      invariant writer.Tokens() == old(writer.Tokens()) + PrintAll(Hierarchy(ns, vs[..i]), messageNs, false)
    {
      HierarchySnoc(ns, vs, i);
      PrintAllAppend(Hierarchy(ns, vs[..i]), [HierarchyElement(ns, vs[i])], messageNs, false);
      WriteHierarchyElement(writer, ns, vs[i], messageNs);
    }
    assert vs[..|vs|] == vs;
  }

  lemma NoHierarchy(ns: string, messageNs: string)
    ensures PrintAll(Hierarchy(ns, []), messageNs, false) == []
  {
  }

  method WriteHierarchyElement(writer: XmlWriter, ns: string, v: Value, ghost messageNs: string)
    requires writer.Valid() && writer.pending == [] && ns != ""
    modifies writer
    ensures writer.Valid() && writer.pending == []
    ensures writer.Tokens() == old(writer.Tokens()) + PrintAll([HierarchyElement(ns, v)], messageNs, false)
    decreases v, 1
  {
    hide PrintText, PrintAll, OpenTag, Hierarchy;
    ghost var e := HierarchyElement(ns, v);
    PrintQualified(e, messageNs);
    PlainTag(e, ns);
    NoHierarchy(ns, messageNs);
    writer.WriteStartElement(ns, v.name);
    if v.children == [] {
      if v.text.Some? {
        writer.WriteCharacters(v.text.value);
      } else {
        NoText(e);
      }
    } else {
      NoText(e);
      WriteHierarchy(writer, ns, v.children, messageNs);
    }
    writer.WriteEndElement();
  }

  lemma {:induction false} HierarchySnoc(ns: string, vs: seq<Value>, i: nat)
    requires i < |vs|
    ensures Hierarchy(ns, vs[..i + 1]) == Hierarchy(ns, vs[..i]) + [HierarchyElement(ns, vs[i])]
  {
    if i > 0 {
      HierarchySnoc(ns, vs[1..], i - 1);
      assert vs[..i + 1][1..] == vs[1..][..i] && vs[..i][1..] == vs[1..][..i - 1];
    } else {
      assert vs[..1][1..] == [] && vs[..0] == [];
    }
  }

  method WriteOptText(writer: XmlWriter, ns: string, name: string, text: string, ghost messageNs: string)
    requires writer.Valid() && writer.pending == [] && ns != ""
    modifies writer
    ensures writer.Valid() && writer.pending == []
    ensures writer.Tokens() == old(writer.Tokens()) + PrintAll(OptText(ns, name, text), messageNs, false)
  {
    NoChildren(messageNs);
    if text != "" {
      WriteTextElement(writer, ns, name, text, messageNs);
    }
  }

  method WriteOptEndpoint(writer: XmlWriter, ns: string, name: string, address: string, ghost messageNs: string)
    requires writer.Valid() && writer.pending == [] && ns != ""
    modifies writer
    ensures writer.Valid() && writer.pending == []
    ensures writer.Tokens() == old(writer.Tokens()) + PrintAll(OptEndpoint(ns, name, address), messageNs, false)
  {
    hide EndpointElement;
    NoChildren(messageNs);
    if address != "" {
      WriteEndpoint(writer, ns, name, address, messageNs);
    }
  }

  method WriteOptParent(writer: XmlWriter, ns: string, name: string, vs: seq<Value>, ghost messageNs: string)
    requires writer.Valid() && writer.pending == [] && ns != ""
    modifies writer
    ensures writer.Valid() && writer.pending == []
    ensures writer.Tokens() == old(writer.Tokens()) + PrintAll(OptParent(ns, name, vs), messageNs, false)
  {
    hide PrintAll, Hierarchy, OpenTag;
    NoChildren(messageNs);
    if vs != [] {
      ghost var e := ParentElement(ns, name, Hierarchy(ns, vs));
      PrintQualified(e, messageNs);
      PlainTag(e, ns);
      NoText(e);
      writer.WriteStartElement(ns, name);
      WriteHierarchy(writer, ns, vs, messageNs);
      writer.WriteEndElement();
    }
  }

  /** The properties that are single elements. */
  method WriteSimple(p: Properties, writer: XmlWriter, ghost messageNs: string)
    requires writer.Valid() && writer.pending == []
    modifies writer
    ensures writer.Valid() && writer.pending == []
    ensures writer.Tokens() == old(writer.Tokens()) + PrintAll(SimpleElements(p), messageNs, false)
  {
    hide PrintAll, OptText, OptEndpoint, NamespaceOf;
    var ns := NamespaceOf(p.version);
    NamespaceNotEmpty(p.version);
    WriteOptText(writer, ns, "To", p.destination, messageNs);
    ghost var done, next := OptText(ns, "To", p.destination), OptEndpoint(ns, "From", p.source.address);
    PrintAllAppend(done, next, messageNs, false);
    WriteOptEndpoint(writer, ns, "From", p.source.address, messageNs);
    done, next := done + next, OptEndpoint(ns, "ReplyTo", p.replyTo.address);
    PrintAllAppend(done, next, messageNs, false);
    WriteOptEndpoint(writer, ns, "ReplyTo", p.replyTo.address, messageNs);
    done, next := done + next, OptEndpoint(ns, "FaultTo", p.faultTo.address);
    PrintAllAppend(done, next, messageNs, false);
    WriteOptEndpoint(writer, ns, "FaultTo", p.faultTo.address, messageNs);
    done, next := done + next, OptText(ns, "Action", p.action);
    PrintAllAppend(done, next, messageNs, false);
    WriteOptText(writer, ns, "Action", p.action, messageNs);
    done, next := done + next, OptText(ns, "MessageID", p.messageID);
    PrintAllAppend(done, next, messageNs, false);
    WriteOptText(writer, ns, "MessageID", p.messageID, messageNs);
  }

  /** writeMessageAddressingProperties. */
  method WriteProperties(p: Properties, writer: XmlWriter, ghost messageNs: string)
    requires writer.Valid() && writer.pending == []
    modifies writer
    ensures writer.Valid() && writer.pending == []
    ensures writer.Tokens() == old(writer.Tokens()) + PrintAll(HeaderElements(p), messageNs, false)
  {
    hide PrintAll, OptParent, NamespaceOf, RelatesToAll, SimpleElements;
    NoChildren(messageNs);
    if WritesNothing(p) {
      return;
    }
    var ns := NamespaceOf(p.version);
    NamespaceNotEmpty(p.version);
    WriteSimple(p, writer, messageNs);
    WriteRelationships(writer, ns, p.relationships, messageNs);
    ghost var done, next := SimpleElements(p), RelatesToAll(ns, p.relationships);
    PrintAllAppend(done, next, messageNs, false);
    done, next := done + RelatesToAll(ns, p.relationships), OptParent(ns, "ReferenceParameters", p.referenceParameters);
    PrintAllAppend(done, next, messageNs, false);
    WriteOptParent(writer, ns, "ReferenceParameters", p.referenceParameters, messageNs);
    done, next := done + next, OptParent(ns, "Metadata", p.metadata);
    PrintAllAppend(done, next, messageNs, false);
    WriteOptParent(writer, ns, "Metadata", p.metadata, messageNs);
  }

  lemma NamespaceNotEmpty(v: Version)
    ensures NamespaceOf(v) != "" && IsAddressingNamespace(NamespaceOf(v)) && !Reserved(NamespaceOf(v))
  {
    match v
    case Addressing200303 => assert |NamespaceOf(v)| == 48;
    case Addressing200403 => assert |NamespaceOf(v)| == 48;
    case Addressing200408 => assert |NamespaceOf(v)| == 48;
    case Addressing200508 => assert |NamespaceOf(v)| == 36;
  }

  method WriteRelationships(writer: XmlWriter, ns: string, rs: seq<Relationship>, ghost messageNs: string)
    requires writer.Valid() && writer.pending == [] && ns != ""
    modifies writer
    ensures writer.Valid() && writer.pending == []
    ensures writer.Tokens() == old(writer.Tokens()) + PrintAll(RelatesToAll(ns, rs), messageNs, false)
  {
    hide PrintAll, RelatesTo;
    NoChildren(messageNs);
    var i := 0;
    while i < |rs|
      invariant 0 <= i <= |rs|
      invariant writer.Valid() && writer.pending == []
      invariant writer.Tokens() == old(writer.Tokens()) + PrintAll(RelatesToAll(ns, rs[..i]), messageNs, false)
    {
      assert rs[..i + 1][..i] == rs[..i];
      if rs[i].uri != "" {
        WriteRelatesTo(writer, ns, rs[i], messageNs);
        PrintAllAppend(RelatesToAll(ns, rs[..i]), [RelatesTo(ns, rs[i])], messageNs, false);
      } else {
        assert RelatesToAll(ns, rs[..i]) + [] == RelatesToAll(ns, rs[..i]);
      }
      i := i + 1;
    }
    assert rs[..|rs|] == rs;
  }

  // ----- reading -----

  /** The text of the first child of that name; a missing child reads as the null string. */
  function ChildText(vs: seq<Value>, name: string): string {
    if vs == [] then "" else if vs[0].name == name then vs[0].text.GetOr("") else ChildText(vs[1..], name)
  }

  /** The last attribute called RelationshipType, or the default. */
  function RelationshipTypeOf(attrs: seq<Attribute>, default: string): string {
    if attrs == [] then default
    else
      var a := attrs[|attrs| - 1];
      if a.name == "RelationshipType" then a.text else RelationshipTypeOf(attrs[..|attrs| - 1], default)
  }

  /** readMessageAddressingProperty: what one header element sets. */
  function ReadProperty(p: Properties, v: Value): Properties {
    var text := v.text.GetOr("");
    if v.name == "Action" then p.(action := text)
    else if v.name == "MessageID" then p.(messageID := text)
    else if v.name == "To" then p.(destination := text)
    else if v.name == "From" then p.(source := p.source.(address := ChildText(v.children, "Address")))
    else if v.name == "ReplyTo" then p.(replyTo := p.replyTo.(address := ChildText(v.children, "Address")))
    else if v.name == "RelatesTo" then
      p.(relationships := p.relationships + [Relationship(text, RelationshipTypeOf(v.attrs, NamespaceOf(p.version) + "/reply"))])
    else if v.name == "FaultTo" then p.(faultTo := p.faultTo.(address := ChildText(v.children, "Address")))
    else if v.name == "ReferenceParameters" then p.(referenceParameters := v.children)
    else if v.name == "Metadata" then p.(metadata := v.children)
    else p
  }

  function ReadAll(p: Properties, vs: seq<Value>): Properties
    decreases |vs|
  {
    if vs == [] then p else ReadAll(ReadProperty(p, vs[0]), vs[1..])
  }

  // ----- what comes back -----

  /** Relationships without a URI are not sent; one without a type is a reply. */
  function CanonRelationships(rs: seq<Relationship>): seq<Relationship> {
    if rs == [] then []
    else
      var n := |rs| - 1;
      CanonRelationships(rs[..n]) +
      if rs[n].uri == "" then []
      else [Relationship(rs[n].uri, if rs[n].relationshipType == "" then REPLY_TYPE else rs[n].relationshipType)]
  }

  /** A tree of names, with texts at its leaves, all in one namespace. */
  function LeafTree(ns: string, v: Value, env: seq<NsDecl>): Value
    decreases v, 1
  {
    Value(v.name, ns, if v.children == [] then CanonText(v.text) else None, LeafTrees(ns, v.children, env), [], false, false, [], env, NO_TYPE)
  }

  function LeafTrees(ns: string, vs: seq<Value>, env: seq<NsDecl>): seq<Value>
    decreases vs, 0
  {
    if vs == [] then [] else [LeafTree(ns, vs[0], env)] + LeafTrees(ns, vs[1..], env)
  }

  /** An endpoint is written as its address alone. */
  function AddressOnly(e: Endpoint): Endpoint {
    Endpoint(e.address, [], [])
  }

  /** The properties a receiver reads from the headers written for `p`. The version of the namespace is not recorded. */
  function CanonProperties(p: Properties, env: seq<NsDecl>): Properties {
    if WritesNothing(p) then NO_PROPERTIES
    else
      var ns := NamespaceOf(p.version);
      Properties(p.destination, p.action, AddressOnly(p.source), AddressOnly(p.replyTo), AddressOnly(p.faultTo), p.messageID, CanonRelationships(p.relationships),
                 LeafTrees(ns, p.referenceParameters, env), LeafTrees(ns, p.metadata, env), Addressing200508)
  }

  lemma {:induction false} HierarchyCanon(ns: string, vs: seq<Value>, messageNs: string, env: seq<NsDecl>)
    requires ns != ""
    ensures CanonAll(Hierarchy(ns, vs), messageNs, false, env) == LeafTrees(ns, vs, env)
    decreases vs
  {
    if vs != [] {
      var e := HierarchyElement(ns, vs[0]);
      assert env + [] == env;
      assert Canon(e, messageNs, false, env) == CanonAs(e, ns, e.name, messageNs, env);
      assert CanonAttrs([]) == [] && CanonType([], env) == NO_TYPE;
      HierarchyCanon(ns, vs[0].children, messageNs, env);
      HierarchyCanon(ns, vs[1..], messageNs, env);
      assert Hierarchy(ns, vs)[1..] == Hierarchy(ns, vs[1..]);
    }
  }

  lemma {:induction false} CanonAllAppend(a: seq<Value>, b: seq<Value>, messageNs: string, force: bool, env: seq<NsDecl>)
    ensures CanonAll(a + b, messageNs, force, env) == CanonAll(a, messageNs, force, env) + CanonAll(b, messageNs, force, env)
  {
    hide Canon;
    if a == [] {
      assert a + b == b;
    } else {
      assert (a + b)[1..] == a[1..] + b;
      CanonAllAppend(a[1..], b, messageNs, force, env);
    }
  }

  lemma {:induction false} ReadAllAppend(p: Properties, a: seq<Value>, b: seq<Value>)
    ensures ReadAll(p, a + b) == ReadAll(ReadAll(p, a), b)
    decreases |a|
  {
    hide ReadProperty;
    if a == [] {
      assert a + b == b;
    } else {
      assert (a + b)[1..] == a[1..] + b;
      ReadAllAppend(ReadProperty(p, a[0]), a[1..], b);
    }
  }

  /** What the reader sees of some written elements. */
  function Seen(vs: seq<Value>, messageNs: string, env: seq<NsDecl>): seq<Value> {
    CanonAll(vs, messageNs, false, env)
  }

  lemma SeenOne(v: Value, messageNs: string, env: seq<NsDecl>, p: Properties)
    requires v.qualified && v.ns != "" && v.decls == []
    ensures ReadAll(p, Seen([v], messageNs, env))
         == ReadProperty(p, Value(v.name, v.ns, CanonText(v.text), CanonAll(v.children, messageNs, false, env), CanonAttrs(v.attrs),
                                  false, false, [], env, CanonType(v.attrs, env)))
  {
    hide ReadProperty, CanonText, CanonAttrs, CanonType;
    assert env + [] == env;
    var seen := Canon(v, messageNs, false, env);
    assert seen == CanonAs(v, v.ns, v.name, messageNs, env);
    assert CanonAll([v], messageNs, false, env) == [seen] + CanonAll([v][1..], messageNs, false, env);
    assert [v][1..] == [] && [seen][1..] == [];
    assert ReadAll(p, [seen]) == ReadAll(ReadProperty(p, seen), [seen][1..]);
  }

  lemma ReadOptText(p: Properties, ns: string, name: string, text: string, messageNs: string, env: seq<NsDecl>)
    requires ns != ""
    ensures var q := ReadAll(p, Seen(OptText(ns, name, text), messageNs, env));
            if text == "" then q == p
            else
              && (name == "To" ==> q == p.(destination := text))
              && (name == "Action" ==> q == p.(action := text))
              && (name == "MessageID" ==> q == p.(messageID := text))
  {
    if text != "" {
      SeenOne(TextElement(ns, name, text), messageNs, env, p);
    }
  }

  lemma ReadOptEndpoint(p: Properties, ns: string, name: string, address: string, messageNs: string, env: seq<NsDecl>)
    requires ns != ""
    ensures var q := ReadAll(p, Seen(OptEndpoint(ns, name, address), messageNs, env));
            if address == "" then q == p
            else
              && (name == "From" ==> q == p.(source := p.source.(address := address)))
              && (name == "ReplyTo" ==> q == p.(replyTo := p.replyTo.(address := address)))
              && (name == "FaultTo" ==> q == p.(faultTo := p.faultTo.(address := address)))
  {
    hide CanonAttrs, CanonType;
    if address != "" {
      var inner := TextElement(ns, "Address", address);
      assert Canon(inner, messageNs, false, env) == CanonAs(inner, ns, "Address", messageNs, env);
      assert CanonAll([inner], messageNs, false, env)[0] == Canon(inner, messageNs, false, env);
      SeenOne(EndpointElement(ns, name, address), messageNs, env, p);
    }
  }

  lemma ReadOptParent(p: Properties, ns: string, name: string, vs: seq<Value>, messageNs: string, env: seq<NsDecl>)
    requires ns != ""
    ensures var q := ReadAll(p, Seen(OptParent(ns, name, vs), messageNs, env));
            if vs == [] then q == p
            else
              && (name == "ReferenceParameters" ==> q == p.(referenceParameters := LeafTrees(ns, vs, env)))
              && (name == "Metadata" ==> q == p.(metadata := LeafTrees(ns, vs, env)))
  {
    hide CanonAttrs, CanonType;
    if vs != [] {
      HierarchyCanon(ns, vs, messageNs, env);
      SeenOne(ParentElement(ns, name, Hierarchy(ns, vs)), messageNs, env, p);
    }
  }

  lemma {:induction false} ReadRelationships(p: Properties, ns: string, rs: seq<Relationship>, messageNs: string, env: seq<NsDecl>)
    requires ns != "" && p.version == Addressing200508
    ensures ReadAll(p, Seen(RelatesToAll(ns, rs), messageNs, env)) == p.(relationships := p.relationships + CanonRelationships(rs))
  {
    if rs == [] {
      assert p.relationships + [] == p.relationships;
    } else {
      hide ReadAll, CanonAll, RelatesTo;
      var n := |rs| - 1;
      ReadRelationships(p, ns, rs[..n], messageNs, env);
      if rs[n].uri == "" {
        assert RelatesToAll(ns, rs[..n]) + [] == RelatesToAll(ns, rs[..n]);
        assert CanonRelationships(rs[..n]) + [] == CanonRelationships(rs[..n]);
      } else {
        ReadOneMore(p, RelatesToAll(ns, rs[..n]), CanonRelationships(rs[..n]), ns, rs[n], messageNs, env);
      }
    }
  }

  lemma ReadOneMore(p: Properties, written: seq<Value>, found: seq<Relationship>, ns: string, r: Relationship, messageNs: string, env: seq<NsDecl>)
    requires ns != "" && r.uri != "" && p.version == Addressing200508
    requires ReadAll(p, Seen(written, messageNs, env)) == p.(relationships := p.relationships + found)
    ensures ReadAll(p, Seen(written + [RelatesTo(ns, r)], messageNs, env))
         == p.(relationships := p.relationships + (found + [Relationship(r.uri, if r.relationshipType == "" then REPLY_TYPE else r.relationshipType)]))
  {
    hide ReadAll, CanonAll, RelatesTo, CanonRelationships;
    var one := [RelatesTo(ns, r)];
    CanonAllAppend(written, one, messageNs, false, env);
    ReadAllAppend(p, Seen(written, messageNs, env), Seen(one, messageNs, env));
    var q := p.(relationships := p.relationships + found);
    ReadRelatesTo(q, ns, r, messageNs, env);
    OneRelationship(r);
    assert p.relationships + (found + CanonRelationships([r])) == q.relationships + CanonRelationships([r]);
  }

  lemma ReadRelatesTo(p: Properties, ns: string, r: Relationship, messageNs: string, env: seq<NsDecl>)
    requires ns != "" && r.uri != "" && p.version == Addressing200508
    ensures ReadAll(p, Seen([RelatesTo(ns, r)], messageNs, env))
         == p.(relationships := p.relationships + CanonRelationships([r]))
  {
    hide CanonType, CanonAttrs, CanonAll, ReadAll, CanonRelationships, RelationshipTypeOf;
    var v := RelatesTo(ns, r);
    SeenOne(v, messageNs, env, p);
    RelatesToAttrs(ns, r);
    OneRelationship(r);
    assert "http://www.w3.org/2005/08/addressing" + "/reply" == REPLY_TYPE;
  }

  lemma OneRelationship(r: Relationship)
    requires r.uri != ""
    ensures CanonRelationships([r]) == [Relationship(r.uri, if r.relationshipType == "" then REPLY_TYPE else r.relationshipType)]
  {
    assert [r][..0] == [];
  }

  lemma RelatesToAttrs(ns: string, r: Relationship)
    ensures RelationshipTypeOf(CanonAttrs(RelatesTo(ns, r).attrs), REPLY_TYPE) == if r.relationshipType == "" then REPLY_TYPE else r.relationshipType
  {
    hide Reserved;
    NoNamespaceKept();
    var attrs := RelatesTo(ns, r).attrs;
    if attrs != [] {
      assert attrs[..0] == [] && CanonAttrs([]) == [];
      assert CanonAttrs(attrs) == [Attribute("RelationshipType", "", r.relationshipType, false)];
    }
  }

  lemma NoNamespaceKept()
    ensures !Reserved("")
  {
  }

  lemma ReadSeenAppend(p: Properties, a: seq<Value>, b: seq<Value>, messageNs: string, env: seq<NsDecl>)
    ensures ReadAll(p, Seen(a + b, messageNs, env)) == ReadAll(ReadAll(p, Seen(a, messageNs, env)), Seen(b, messageNs, env))
  {
    hide ReadAll, CanonAll;
    CanonAllAppend(a, b, messageNs, false, env);
    ReadAllAppend(p, Seen(a, messageNs, env), Seen(b, messageNs, env));
  }

  lemma ReadSimple(p: Properties, messageNs: string, env: seq<NsDecl>)
    ensures ReadAll(NO_PROPERTIES, Seen(SimpleElements(p), messageNs, env))
         == Properties(p.destination, p.action, AddressOnly(p.source), AddressOnly(p.replyTo), AddressOnly(p.faultTo), p.messageID, [], [], [], Addressing200508)
  {
    hide OptText, OptEndpoint, NamespaceOf, Seen, ReadAll;
    var ns := NamespaceOf(p.version);
    NamespaceNotEmpty(p.version);
    var written, q := OptText(ns, "To", p.destination), NO_PROPERTIES.(destination := p.destination);
    ReadOptText(NO_PROPERTIES, ns, "To", p.destination, messageNs, env);
    ReadSeenAppend(NO_PROPERTIES, written, OptEndpoint(ns, "From", p.source.address), messageNs, env);
    ReadOptEndpoint(q, ns, "From", p.source.address, messageNs, env);
    written, q := written + OptEndpoint(ns, "From", p.source.address), q.(source := AddressOnly(p.source));
    ReadSeenAppend(NO_PROPERTIES, written, OptEndpoint(ns, "ReplyTo", p.replyTo.address), messageNs, env);
    ReadOptEndpoint(q, ns, "ReplyTo", p.replyTo.address, messageNs, env);
    written, q := written + OptEndpoint(ns, "ReplyTo", p.replyTo.address), q.(replyTo := AddressOnly(p.replyTo));
    ReadSeenAppend(NO_PROPERTIES, written, OptEndpoint(ns, "FaultTo", p.faultTo.address), messageNs, env);
    ReadOptEndpoint(q, ns, "FaultTo", p.faultTo.address, messageNs, env);
    written, q := written + OptEndpoint(ns, "FaultTo", p.faultTo.address), q.(faultTo := AddressOnly(p.faultTo));
    ReadSeenAppend(NO_PROPERTIES, written, OptText(ns, "Action", p.action), messageNs, env);
    ReadOptText(q, ns, "Action", p.action, messageNs, env);
    written, q := written + OptText(ns, "Action", p.action), q.(action := p.action);
    ReadSeenAppend(NO_PROPERTIES, written, OptText(ns, "MessageID", p.messageID), messageNs, env);
    ReadOptText(q, ns, "MessageID", p.messageID, messageNs, env);
  }

  /** Reading what was written gives every property back, up to the canonical form. */
  lemma ReadWritten(p: Properties, messageNs: string, env: seq<NsDecl>)
    ensures ReadAll(NO_PROPERTIES, Seen(HeaderElements(p), messageNs, env)) == CanonProperties(p, env)
  {
    hide OptParent, RelatesToAll, NamespaceOf, SimpleElements, Seen, ReadAll, CanonRelationships;
    if WritesNothing(p) {
      NothingSeen(messageNs, env);
    } else {
      var ns := NamespaceOf(p.version);
      NamespaceNotEmpty(p.version);
      ReadSimple(p, messageNs, env);
      var written, q := SimpleElements(p), ReadAll(NO_PROPERTIES, Seen(SimpleElements(p), messageNs, env));
      ReadSeenAppend(NO_PROPERTIES, written, RelatesToAll(ns, p.relationships), messageNs, env);
      ReadRelationships(q, ns, p.relationships, messageNs, env);
      assert [] + CanonRelationships(p.relationships) == CanonRelationships(p.relationships);
      written, q := written + RelatesToAll(ns, p.relationships), q.(relationships := CanonRelationships(p.relationships));
      ReadSeenAppend(NO_PROPERTIES, written, OptParent(ns, "ReferenceParameters", p.referenceParameters), messageNs, env);
      ReadOptParent(q, ns, "ReferenceParameters", p.referenceParameters, messageNs, env);
      written, q := written + OptParent(ns, "ReferenceParameters", p.referenceParameters),
        q.(referenceParameters := LeafTrees(ns, p.referenceParameters, env));
      ReadSeenAppend(NO_PROPERTIES, written, OptParent(ns, "Metadata", p.metadata), messageNs, env);
      ReadOptParent(q, ns, "Metadata", p.metadata, messageNs, env);
    }
  }

  lemma NothingSeen(messageNs: string, env: seq<NsDecl>)
    ensures ReadAll(NO_PROPERTIES, Seen([], messageNs, env)) == NO_PROPERTIES
  {
  }

  // ----- what is lost -----

  /** Two trees with the same names and texts. */
  predicate SameTree(v: Value, w: Value)
    decreases v, 1
  {
    v.name == w.name && CanonText(v.text) == CanonText(w.text) && SameTrees(v.children, w.children)
  }

  predicate SameTrees(vs: seq<Value>, ws: seq<Value>)
    decreases vs, 0
  {
    |vs| == |ws| && (vs == [] || (SameTree(vs[0], ws[0]) && SameTrees(vs[1..], ws[1..])))
  }

  /** Only nodes without children have a text. */
  predicate TextOnlyAtLeaves(vs: seq<Value>)
    decreases vs
  {
    vs == [] || ((vs[0].children == [] || CanonText(vs[0].text) == None) && TextOnlyAtLeaves(vs[0].children) && TextOnlyAtLeaves(vs[1..]))
  }

  /** Reference parameters and metadata come back, names, texts and order, exactly when no inner node has a text. */
  lemma {:induction false} HierarchyKeepsLeaves(ns: string, vs: seq<Value>, env: seq<NsDecl>)
    ensures SameTrees(vs, LeafTrees(ns, vs, env)) <==> TextOnlyAtLeaves(vs)
    decreases vs
  {
    if vs != [] {
      HierarchyKeepsLeaves(ns, vs[0].children, env);
      HierarchyKeepsLeaves(ns, vs[1..], env);
      LeafTreesLength(ns, vs[1..], env);
    }
  }

  lemma {:induction false} LeafTreesLength(ns: string, vs: seq<Value>, env: seq<NsDecl>)
    ensures |LeafTrees(ns, vs, env)| == |vs|
  {
    if vs != [] {
      LeafTreesLength(ns, vs[1..], env);
    }
  }

  lemma {:induction false} RelationshipsSurvive(rs: seq<Relationship>)
    ensures |CanonRelationships(rs)| <= |rs|
    ensures CanonRelationships(rs) == rs <==> forall i :: 0 <= i < |rs| ==> rs[i].uri != "" && rs[i].relationshipType != ""
  {
    if rs != [] {
      var n := |rs| - 1;
      var front := CanonRelationships(rs[..n]);
      RelationshipsSurvive(rs[..n]);
      assert rs == rs[..n] + [rs[n]];
      if rs[n].uri != "" && |front| == n {
        assert CanonRelationships(rs)[..n] == front;
      }
      assert (forall i :: 0 <= i < |rs| ==> rs[i].uri != "" && rs[i].relationshipType != "") <==>
          (forall i :: 0 <= i < n ==> rs[..n][i].uri != "" && rs[..n][i].relationshipType != "")
          && rs[n].uri != "" && rs[n].relationshipType != "";
    }
  }

  /** Two trees that are the same down to names, namespaces, texts, attributes, declarations and types. */
  predicate SameNode(v: Value, w: Value)
    decreases v, 1
  {
    && v.name == w.name && v.ns == w.ns && CanonText(v.text) == CanonText(w.text) && v.attrs == w.attrs
    && v.decls == w.decls && v.xsiType == w.xsiType && SameNodes(v.children, w.children)
  }

  predicate SameNodes(vs: seq<Value>, ws: seq<Value>)
    decreases vs, 0
  {
    |vs| == |ws| && (vs == [] || (SameNode(vs[0], ws[0]) && SameNodes(vs[1..], ws[1..])))
  }

  /** Nodes of one namespace with nothing besides a name, children and, without children, a text. */
  predicate PlainNodes(ns: string, vs: seq<Value>)
    decreases vs
  {
    vs == [] ||
    (&& vs[0].ns == ns && vs[0].attrs == [] && vs[0].decls == [] && vs[0].xsiType == NO_TYPE
     && (vs[0].children == [] || CanonText(vs[0].text) == None) && PlainNodes(ns, vs[0].children) && PlainNodes(ns, vs[1..]))
  }

  /** They come back node by node the same exactly when they are plain nodes of the addressing namespace. */
  lemma {:induction false} HierarchyKeepsNodes(ns: string, vs: seq<Value>, env: seq<NsDecl>)
    ensures SameNodes(vs, LeafTrees(ns, vs, env)) <==> PlainNodes(ns, vs)
    decreases vs
  {
    if vs != [] {
      HierarchyKeepsNodes(ns, vs[0].children, env);
      HierarchyKeepsNodes(ns, vs[1..], env);
      LeafTreesLength(ns, vs[1..], env);
    }
  }

  predicate SameEndpoint(a: Endpoint, b: Endpoint) {
    a.address == b.address && SameNodes(a.referenceParameters, b.referenceParameters) && SameNodes(a.metadata, b.metadata)
  }

  predicate SameProperties(p: Properties, q: Properties) {
    && p.destination == q.destination && p.action == q.action && p.messageID == q.messageID && p.version == q.version
    && SameEndpoint(p.source, q.source) && SameEndpoint(p.replyTo, q.replyTo) && SameEndpoint(p.faultTo, q.faultTo)
    && p.relationships == q.relationships
    && SameNodes(p.referenceParameters, q.referenceParameters) && SameNodes(p.metadata, q.metadata)
  }

  /** Properties survive the journey unchanged exactly when nothing in them is one of the things that get lost or filled in. */
  lemma PropertiesSurvive(p: Properties, env: seq<NsDecl>)
    ensures SameProperties(p, CanonProperties(p, env)) <==>
            && p.version == Addressing200508 && p.destination != NONE_ADDRESS
            && p.source == AddressOnly(p.source) && p.replyTo == AddressOnly(p.replyTo) && p.faultTo == AddressOnly(p.faultTo)
            && (forall i :: 0 <= i < |p.relationships| ==> p.relationships[i].uri != "" && p.relationships[i].relationshipType != "")
            && PlainNodes(NamespaceOf(p.version), p.referenceParameters) && PlainNodes(NamespaceOf(p.version), p.metadata)
  {
    hide NamespaceOf, PlainNodes;
    var ns := NamespaceOf(p.version);
    RelationshipsSurvive(p.relationships);
    HierarchyKeepsNodes(ns, p.referenceParameters, env);
    HierarchyKeepsNodes(ns, p.metadata, env);
  }
}
