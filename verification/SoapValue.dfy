/**
 KDSoapValue trees printed as XML tokens and parsed back, in literal use.
 A token carries the resolved namespace of its element; prefixes that the XML writer invents are not tokens' business.
 */
module SoapValue {
  import opened Wrappers

  const XSI_1999 := "http://www.w3.org/1999/XMLSchema-instance"
  const XSI_2001 := "http://www.w3.org/2001/XMLSchema-instance"
  const XSD_2001 := "http://www.w3.org/2001/XMLSchema"
  const SOAP_ENVELOPE := "http://schemas.xmlsoap.org/soap/envelope/"
  const SOAP_ENVELOPE_2003 := "http://www.w3.org/2003/05/soap-envelope"
  const SOAP_ENCODING := "http://schemas.xmlsoap.org/soap/encoding/"
  const SOAP_ENCODING_2003 := "http://www.w3.org/2003/05/soap-encoding"

  datatype NsDecl = NsDecl(prefix: string, uri: string)

  datatype TypeName = TypeName(ns: string, name: string)

  datatype Attribute = Attribute(name: string, ns: string, text: string, qualified: bool)

  /** A KDSoapValue; its QVariant is null or a text. */
  datatype Value = Value(
    name: string, ns: string, text: Option<string>, children: seq<Value>, attrs: seq<Attribute>,
    qualified: bool, nillable: bool, decls: seq<NsDecl>, envDecls: seq<NsDecl>, xsiType: TypeName)
  {
    predicate IsNil() {
      text.None? && children == [] && attrs == []
    }
  }

  const NO_TYPE := TypeName("", "")

  function NewValue(name: string, text: Option<string>): Value {
    Value(name, "", text, [], [], false, false, [], [], NO_TYPE)
  }

  datatype XmlAttribute = XmlAttribute(ns: string, name: string, value: string)

  datatype Token =
    | Start(ns: string, name: string, decls: seq<NsDecl>, attrs: seq<XmlAttribute>)
    | Chars(text: string)
    | End

  // ----- printing -----

  /** The namespace an element is written in; "" is no namespace. */
  function WrittenNs(v: Value, messageNs: string, forceQualified: bool): string {
    var force := forceQualified || (v.ns != "" && v.ns != messageNs);
    if v.qualified || force then (if v.ns == "" then messageNs else v.ns) else ""
  }

  function PrintAttr(a: Attribute, forceQualified: bool): XmlAttribute {
    XmlAttribute(if a.qualified || forceQualified then a.ns else "", a.name, a.text)
  }

  function PrintAttrs(attrs: seq<Attribute>, forceQualified: bool): seq<XmlAttribute> {
    seq(|attrs|, i requires 0 <= i < |attrs| => PrintAttr(attrs[i], forceQualified))
  }

  function NilAttr(v: Value): seq<XmlAttribute> {
    if v.IsNil() && v.nillable then [XmlAttribute(XSI_2001, "nil", "true")] else []
  }

  function PrintText(text: Option<string>): seq<Token> {
    if text.Some? && text.value != "" then [Chars(text.value)] else []
  }

  function OpenTag(v: Value, ns: string, name: string, decls: seq<NsDecl>): (tag: Token)
    ensures tag.Start?
  {
    Start(ns, name, decls + v.decls, NilAttr(v) + PrintAttrs(v.attrs, false))
  }

  /** The element `v` written as `name` in `ns`. */
  function PrintAs(v: Value, ns: string, name: string, messageNs: string): (tokens: seq<Token>)
    ensures |tokens| >= 2 && tokens[0] == OpenTag(v, ns, name, [])
    decreases v, 1
  {
    [OpenTag(v, ns, name, [])] + PrintAll(v.children, messageNs, false) + PrintText(v.text) + [End]
  }

  function Print(v: Value, messageNs: string, forceQualified: bool): seq<Token>
    decreases v, 2
  {
    PrintAs(v, WrittenNs(v, messageNs, forceQualified), v.name, messageNs)
  }

  function PrintAll(vs: seq<Value>, messageNs: string, forceQualified: bool): seq<Token>
    decreases vs, 0
  {
    if vs == [] then [] else Print(vs[0], messageNs, forceQualified) + PrintAll(vs[1..], messageNs, forceQualified)
  }

  /** QXmlStreamWriter: `open` is the start tag still being written; namespaces written outside one go to the next. */
  class XmlWriter {
    var done: seq<Token>
    var open: Option<Token>
    var pending: seq<NsDecl>

    predicate Valid()
      reads this
    {
      open.Some? ==> open.value.Start?
    }

    function Tokens(): seq<Token>
      reads this
    {
      done + if open.Some? then [open.value] else []
    }

    constructor ()
      ensures Valid() && Tokens() == [] && pending == []
    {
      done, open, pending := [], None, [];
    }

    method WriteStartElement(ns: string, name: string)
      modifies this
      ensures Valid() && done == old(Tokens()) && open == Some(Start(ns, name, old(pending), [])) && pending == []
    {
      done := Tokens();
      open := Some(Start(ns, name, pending, []));
      pending := [];
    }

    method WriteEndElement()
      modifies this`done, this`open
      ensures Valid() && open == None && done == old(Tokens()) + [End]
    {
      done := Tokens() + [End];
      open := None;
    }

    method WriteCharacters(text: string)
      requires Valid()
      modifies this`done, this`open
      ensures Valid() && Tokens() == old(Tokens()) + PrintText(Some(text))
    {
      if text != "" {
        done := Tokens() + [Chars(text)];
        open := None;
      }
    }

    method WriteNamespace(uri: string, prefix: string)
      requires Valid()
      modifies this`open, this`pending
      ensures Valid()
      ensures if old(open).Some?
              then pending == old(pending)
                   && open == Some(old(open).value.(decls := old(open).value.decls + [NsDecl(prefix, uri)]))
              else open == None && pending == old(pending) + [NsDecl(prefix, uri)]
    {
      if open.Some? {
        open := Some(open.value.(decls := open.value.decls + [NsDecl(prefix, uri)]));
      } else {
        pending := pending + [NsDecl(prefix, uri)];
      }
    }

    method WriteAttribute(ns: string, name: string, value: string)
      requires Valid() && open.Some?
      modifies this`open
      ensures Valid() && open == Some(old(open).value.(attrs := old(open).value.attrs + [XmlAttribute(ns, name, value)]))
    {
      open := Some(open.value.(attrs := open.value.attrs + [XmlAttribute(ns, name, value)]));
    }
  }

  /** KDSoapValue::writeElement. */
  method WriteElement(v: Value, writer: XmlWriter, messageNs: string, forceQualified: bool)
    requires writer.Valid() && writer.pending == []
    modifies writer
    ensures writer.Valid() && writer.pending == []
    ensures writer.Tokens() == old(writer.Tokens()) + Print(v, messageNs, forceQualified)
    decreases v, 2
  {
    var force := forceQualified;
    if v.ns != "" && v.ns != messageNs {
      force := true;
    }
    if v.qualified || force {
      writer.WriteStartElement(if v.ns == "" then messageNs else v.ns, v.name);
    } else {
      writer.WriteStartElement("", v.name);
    }
    ghost var ns := WrittenNs(v, messageNs, forceQualified);
    assert writer.open == Some(Start(ns, v.name, [], []));
    WriteElementContents(v, writer, messageNs);
    writer.WriteEndElement();
    ContentsArePrinted(v, ns, v.name, messageNs, old(writer.Tokens()));
  }

  /** An open tag without anything, its contents, and an end tag are the printed element. */
  lemma ContentsArePrinted(v: Value, ns: string, name: string, messageNs: string, before: seq<Token>)
    ensures before + Contents(v, Start(ns, name, [], []), messageNs) + [End] == before + PrintAs(v, ns, name, messageNs)
  {
    var tag := Start(ns, name, [], []);
    assert tag.attrs + (NilAttr(v) + PrintAttrs(v.attrs, false)) == NilAttr(v) + PrintAttrs(v.attrs, false);
    assert Contents(v, tag, messageNs) + [End] == PrintAs(v, ns, name, messageNs);
  }

  /** The open tag completed by `v`, and what comes before the end tag. */
  function Contents(v: Value, tag: Token, messageNs: string): seq<Token>
    requires tag.Start?
  {
    [tag.(decls := tag.decls + v.decls, attrs := tag.attrs + (NilAttr(v) + PrintAttrs(v.attrs, false)))]
    + PrintAll(v.children, messageNs, false) + PrintText(v.text)
  }

  lemma NullText()
    ensures PrintText(None) == []
  {
  }

  /** The local namespace declarations, onto the open element. */
  method WriteDeclarations(decls: seq<NsDecl>, writer: XmlWriter)
    requires writer.Valid() && writer.open.Some?
    modifies writer`open, writer`pending
    ensures writer.Valid() && writer.pending == old(writer.pending)
    ensures writer.open == Some(old(writer.open).value.(decls := old(writer.open).value.decls + decls))
  {
    ghost var tag := writer.open.value;
    assert tag.decls + decls[..0] == tag.decls;
    for i := 0 to |decls|
      invariant writer.Valid() && writer.pending == old(writer.pending)
      invariant writer.open == Some(tag.(decls := tag.decls + decls[..i]))
    {
      assert tag.decls + decls[..i + 1] == tag.decls + decls[..i] + [decls[i]];
      writer.WriteNamespace(decls[i].uri, decls[i].prefix);
    }
    assert decls[..|decls|] == decls;
  }

  /** KDSoapValue::writeElementContents, into the element just opened. */
  method WriteElementContents(v: Value, writer: XmlWriter, messageNs: string)
    requires writer.Valid() && writer.open.Some? && writer.pending == []
    modifies writer
    ensures writer.Valid() && writer.pending == []
    ensures writer.Tokens() == old(writer.done) + Contents(v, old(writer.open).value, messageNs)
    decreases v, 1
  {
    hide PrintAll, PrintAttrs, PrintText;
    ghost var tag, front := writer.open.value, writer.done;
    WriteDeclarations(v.decls, writer);
    assert tag.attrs + [] == tag.attrs;
    if v.IsNil() && v.nillable {
      writer.WriteAttribute(XSI_2001, "nil", "true");
    }
    assert tag.attrs + NilAttr(v) + PrintAttrs(v.attrs, false) == tag.attrs + (NilAttr(v) + PrintAttrs(v.attrs, false));
    assert writer.open == Some(tag.(decls := tag.decls + v.decls, attrs := tag.attrs + NilAttr(v)));
    WriteChildren(v, writer, messageNs, false);
    if v.text.Some? {
      writer.WriteCharacters(v.text.value);
    } else {
      NullText();
    }
  }

  /** KDSoapValue::writeChildren: attributes onto the open element, then the child elements. */
  method WriteChildren(v: Value, writer: XmlWriter, messageNs: string, forceQualified: bool)
    requires writer.Valid() && writer.pending == []
    requires v.attrs != [] ==> writer.open.Some?
    modifies writer
    ensures writer.Valid() && writer.pending == []
    ensures writer.Tokens() == WithAttrs(old(writer.done), old(writer.open), PrintAttrs(v.attrs, forceQualified))
                               + PrintAll(v.children, messageNs, forceQualified)
    decreases v, 0
  {
    WriteAttributes(v.attrs, writer, forceQualified);
    ghost var begun, all := writer.Tokens(), PrintAll(v.children, messageNs, forceQualified);
    hide Print, PrintAll, PrintAttrs, WithAttrs;
    assert v.children[0..] == v.children;
    var i := 0;
    while i < |v.children|
      invariant 0 <= i <= |v.children|
      invariant writer.Valid() && writer.pending == []
      invariant writer.Tokens() + PrintAll(v.children[i..], messageNs, forceQualified) == begun + all
    {
      PrintNext(writer.Tokens(), v.children, i, messageNs, forceQualified);
      WriteElement(v.children[i], writer, messageNs, forceQualified);
      i := i + 1;
    }
    NothingLeft(messageNs, forceQualified);
    assert writer.Tokens() + [] == writer.Tokens();
  }

  lemma NothingLeft(messageNs: string, forceQualified: bool)
    ensures PrintAll([], messageNs, forceQualified) == []
  {
  }

  lemma PrintNext(before: seq<Token>, vs: seq<Value>, i: nat, messageNs: string, forceQualified: bool)
    requires i < |vs|
    ensures before + PrintAll(vs[i..], messageNs, forceQualified)
         == before + Print(vs[i], messageNs, forceQualified) + PrintAll(vs[i + 1..], messageNs, forceQualified)
  {
    hide Print;
    assert vs[i..][0] == vs[i] && vs[i..][1..] == vs[i + 1..];
  }

  /** The tokens of a writer whose open tag, if any, gets more attributes. */
  function WithAttrs(done: seq<Token>, open: Option<Token>, attrs: seq<XmlAttribute>): seq<Token>
    requires open.Some? ==> open.value.Start?
  {
    done + if open.Some? then [open.value.(attrs := open.value.attrs + attrs)] else []
  }

  method WriteAttributes(attrs: seq<Attribute>, writer: XmlWriter, forceQualified: bool)
    requires writer.Valid()
    requires attrs != [] ==> writer.open.Some?
    modifies writer`open
    ensures writer.Valid()
    ensures writer.Tokens() == WithAttrs(old(writer.done), old(writer.open), PrintAttrs(attrs, forceQualified))
  {
    var i := 0;
    ghost var before := writer.open;
    assert before.Some? ==> before.value.attrs + PrintAttrs(attrs[..0], forceQualified) == before.value.attrs;
    while i < |attrs|
      invariant 0 <= i <= |attrs|
      invariant writer.Valid() && writer.open.Some? == before.Some?
      invariant before.Some? ==>
                  writer.open.value == before.value.(attrs := before.value.attrs + PrintAttrs(attrs[..i], forceQualified))
    {
      assert PrintAttrs(attrs[..i + 1], forceQualified) == PrintAttrs(attrs[..i], forceQualified) + [PrintAttr(attrs[i], forceQualified)];
      writer.WriteAttribute(if attrs[i].qualified || forceQualified then attrs[i].ns else "", attrs[i].name, attrs[i].text);
      i := i + 1;
    }
    assert attrs[..|attrs|] == attrs;
  }

  // ----- parsing -----

  /** The first declaration of a prefix. */
  function NamespaceForPrefix(decls: seq<NsDecl>, prefix: string): string {
    if decls == [] then "" else if decls[0].prefix == prefix then decls[0].uri else NamespaceForPrefix(decls[1..], prefix)
  }

  function IndexOfChar(s: string, c: char): (r: int)
    ensures -1 <= r < |s|
    ensures r >= 0 ==> s[r] == c && c !in s[..r]
    ensures r < 0 ==> c !in s
  {
    if s == "" then -1
    else if s[0] == c then 0
    else
      var r := IndexOfChar(s[1..], c);
      if r < 0 then -1 else r + 1
  }

  lemma FirstChar(s: string, c: char, k: nat)
    requires k < |s| && s[k] == c && c !in s[..k]
    ensures IndexOfChar(s, c) == k
  {
    assert s[k] in s;
  }

  predicate IsXsi(ns: string) {
    ns == XSI_1999 || ns == XSI_2001
  }

  /** Attributes in these namespaces are not kept. */
  predicate Reserved(ns: string) {
    IsXsi(ns) || ns == SOAP_ENCODING || ns == SOAP_ENCODING_2003 || ns == SOAP_ENVELOPE || ns == SOAP_ENVELOPE_2003
  }

  function ResolveType(value: string, decls: seq<NsDecl>): TypeName {
    var colon := IndexOfChar(value, ':');
    TypeName(NamespaceForPrefix(decls, if colon < 0 then value else value[..colon]), value[colon + 1..])
  }

  /** What one attribute does to the value being parsed. */
  function TakeAttr(v: Value, a: XmlAttribute): Value {
    if IsXsi(a.ns) then (if a.name == "type" then v.(xsiType := ResolveType(a.value, v.envDecls)) else v)
    else if Reserved(a.ns) then v
    else v.(attrs := v.attrs + [Attribute(a.name, "", a.value, false)])
  }

  function TakeAttrs(v: Value, attrs: seq<XmlAttribute>): Value {
    if attrs == [] then v else TakeAttr(TakeAttrs(v, attrs[..|attrs| - 1]), attrs[|attrs| - 1])
  }

  /** The value before the element's content is read. */
  function Opened(start: Token, env: seq<NsDecl>): Value
    requires start.Start?
  {
    TakeAttrs(Value(start.name, start.ns, None, [], [], false, false, start.decls, env + start.decls, NO_TYPE), start.attrs)
  }

  function SetText(v: Value, text: string): Value {
    if text != "" then v.(text := Some(text)) else v
  }

  /** parseElement at a start token: the value, and the position after its end token. */
  function Parse(tokens: seq<Token>, i: nat, env: seq<NsDecl>): (r: (Value, nat))
    requires i < |tokens| && tokens[i].Start?
    ensures i < r.1 <= |tokens|
    decreases |tokens| - i, 0
  {
    ParseContent(tokens, i + 1, Opened(tokens[i], env), "")
  }

  function ParseContent(tokens: seq<Token>, i: nat, v: Value, text: string): (r: (Value, nat))
    requires i <= |tokens|
    ensures i <= r.1 <= |tokens|
    decreases |tokens| - i, 1
  {
    if i == |tokens| then (SetText(v, text), i)
    else
      match tokens[i]
      case End => (SetText(v, text), i + 1)
      case Chars(t) => ParseContent(tokens, i + 1, v, t)
      case Start(_, _, _, _) =>
        var (child, j) := Parse(tokens, i, v.envDecls);
        ParseContent(tokens, j, v.(children := v.children + [child]), text)
  }

  /** readNextStartElement: whether the next element starts before the current one ends, and where the reader stands. */
  function NextStart(tokens: seq<Token>, i: nat): (r: (bool, nat))
    requires i <= |tokens|
    ensures i <= r.1 <= |tokens|
    ensures r.0 ==> r.1 < |tokens| && tokens[r.1].Start?
    decreases |tokens| - i
  {
    if i == |tokens| then (false, i)
    else if tokens[i].End? then (false, i + 1)
    else if tokens[i].Start? then (true, i)
    else NextStart(tokens, i + 1)
  }

  /** QXmlStreamReader over a token sequence; `pos` is the next token, or the start token just found. */
  class XmlReader {
    const tokens: seq<Token>
    var pos: nat

    constructor (tokens: seq<Token>)
      ensures this.tokens == tokens && pos == 0
    {
      this.tokens := tokens;
      pos := 0;
    }

    method ReadNextStartElement() returns (found: bool)
      requires pos <= |tokens|
      modifies this
      ensures (found, pos) == NextStart(tokens, old(pos))
    {
      while pos < |tokens| && tokens[pos].Chars?
        invariant pos <= |tokens| && NextStart(tokens, pos) == NextStart(tokens, old(pos))
        decreases |tokens| - pos
      {
        pos := pos + 1;
      }
      found := pos < |tokens| && tokens[pos].Start?;
      if !found && pos < |tokens| {
        pos := pos + 1;
      }
    }

    /** parseElement: the start token at `pos` is the current one. */
    method ParseElement(env: seq<NsDecl>) returns (v: Value)
      requires pos < |tokens| && tokens[pos].Start?
      modifies this
      ensures old(pos) < pos <= |tokens|
      ensures (v, pos) == Parse(tokens, old(pos), env)
      decreases |tokens| - pos
    {
      ghost var begin := pos;
      var start := tokens[pos];
      v := Value(start.name, start.ns, None, [], [], false, false, start.decls, env + start.decls, NO_TYPE);
      ghost var blank := v;
      var i := 0;
      while i < |start.attrs|
        invariant 0 <= i <= |start.attrs|
        invariant v == TakeAttrs(blank, start.attrs[..i])
      {
        assert start.attrs[..i + 1][..i] == start.attrs[..i];
        v := TakeAttr(v, start.attrs[i]);
        i := i + 1;
      }
      assert start.attrs[..|start.attrs|] == start.attrs;
      assert v == Opened(start, env);
      pos := pos + 1;
      var text := "";
      while pos < |tokens| && !tokens[pos].End?
        invariant begin < pos <= |tokens|
        invariant ParseContent(tokens, begin + 1, Opened(start, env), "") == ParseContent(tokens, pos, v, text)
        decreases |tokens| - pos
      {
        if tokens[pos].Chars? {
          text := tokens[pos].text;
          pos := pos + 1;
        } else {
          var child := ParseElement(v.envDecls);
          v := v.(children := v.children + [child]);
        }
      }
      if pos < |tokens| {
        pos := pos + 1;
      }
      v := SetText(v, text);
    }
  }

  // ----- the canonical form -----

  function CanonText(text: Option<string>): Option<string> {
    if text == Some("") then None else text
  }

  /** The attributes that survive: those outside the reserved namespaces, by name and text. */
  function CanonAttrs(attrs: seq<Attribute>): seq<Attribute> {
    if attrs == [] then []
    else
      var n := |attrs| - 1;
      CanonAttrs(attrs[..n]) +
      if Reserved(if attrs[n].qualified then attrs[n].ns else "") then [] else [Attribute(attrs[n].name, "", attrs[n].text, false)]
  }

  /** The type a value gets from its own qualified xsi:type attributes: the last one counts. */
  function CanonType(attrs: seq<Attribute>, decls: seq<NsDecl>): TypeName {
    if attrs == [] then NO_TYPE
    else
      var a := attrs[|attrs| - 1];
      if a.qualified && IsXsi(a.ns) && a.name == "type" then ResolveType(a.text, decls) else CanonType(attrs[..|attrs| - 1], decls)
  }

  /** What is left of `v` after printing it as `name` in `ns` and parsing it under the declarations `env`. */
  function CanonAs(v: Value, ns: string, name: string, messageNs: string, env: seq<NsDecl>): Value
    decreases v, 1
  {
    var combined := env + v.decls;
    Value(name, ns, CanonText(v.text), CanonAll(v.children, messageNs, false, combined), CanonAttrs(v.attrs),
          false, false, v.decls, combined, CanonType(v.attrs, combined))
  }

  function Canon(v: Value, messageNs: string, forceQualified: bool, env: seq<NsDecl>): Value
    decreases v, 2
  {
    CanonAs(v, WrittenNs(v, messageNs, forceQualified), v.name, messageNs, env)
  }

  function CanonAll(vs: seq<Value>, messageNs: string, forceQualified: bool, env: seq<NsDecl>): seq<Value>
    decreases vs, 0
  {
    if vs == [] then []
    else [Canon(vs[0], messageNs, forceQualified, env)] + CanonAll(vs[1..], messageNs, forceQualified, env)
  }

  // ----- print, then parse -----

  lemma {:induction false} TakePrintedAttrs(v: Value, attrs: seq<Attribute>, nil: seq<XmlAttribute>)
    requires v.attrs == [] && v.xsiType == NO_TYPE
    requires nil == [] || nil == [XmlAttribute(XSI_2001, "nil", "true")]
    ensures TakeAttrs(v, nil + PrintAttrs(attrs, false)) == v.(attrs := CanonAttrs(attrs), xsiType := CanonType(attrs, v.envDecls))
  {
    hide TakeAttr, Reserved, IsXsi, ResolveType;
    if attrs == [] {
      assert nil + PrintAttrs(attrs, false) == nil;
      NilTaken(v, nil);
    } else {
      var n := |attrs| - 1;
      var all := nil + PrintAttrs(attrs, false);
      assert all[..|all| - 1] == nil + PrintAttrs(attrs[..n], false) && all[|all| - 1] == PrintAttr(attrs[n], false);
      TakePrintedAttrs(v, attrs[..n], nil);
      TakePrintedAttr(v.(attrs := CanonAttrs(attrs[..n]), xsiType := CanonType(attrs[..n], v.envDecls)), attrs[n]);
      assert CanonAttrs(attrs[..n]) + [] == CanonAttrs(attrs[..n]);
    }
  }

  lemma NilTaken(v: Value, nil: seq<XmlAttribute>)
    requires nil == [] || nil == [XmlAttribute(XSI_2001, "nil", "true")]
    ensures TakeAttrs(v, nil) == v
  {
    if nil != [] {
      assert nil[..0] == [];
    }
  }

  /** One attribute printed and taken: a type, dropped, or kept by name and text. */
  lemma TakePrintedAttr(v: Value, a: Attribute)
    ensures var ns := if a.qualified then a.ns else "";
            TakeAttr(v, PrintAttr(a, false)) ==
              if a.qualified && IsXsi(a.ns) && a.name == "type" then v.(xsiType := ResolveType(a.text, v.envDecls))
              else if Reserved(ns) then v
              else v.(attrs := v.attrs + [Attribute(a.name, "", a.text, false)])
    ensures a.qualified && IsXsi(a.ns) ==> Reserved(a.ns)
  {
    hide ResolveType;
  }

  lemma OpenedPrinted(v: Value, ns: string, name: string, env: seq<NsDecl>)
    ensures Opened(OpenTag(v, ns, name, []), env)
         == Value(name, ns, None, [], CanonAttrs(v.attrs), false, false, v.decls, env + v.decls, CanonType(v.attrs, env + v.decls))
  {
    assert [] + v.decls == v.decls;
    TakePrintedAttrs(Value(name, ns, None, [], [], false, false, v.decls, env + v.decls, NO_TYPE), v.attrs, NilAttr(v));
  }

  predicate TokensAt(tokens: seq<Token>, i: nat, part: seq<Token>) {
    i + |part| <= |tokens| && forall k :: 0 <= k < |part| ==> tokens[i + k] == part[k]
  }

  lemma PartsAt(tokens: seq<Token>, i: nat, a: seq<Token>, b: seq<Token>)
    requires TokensAt(tokens, i, a + b)
    ensures TokensAt(tokens, i, a) && TokensAt(tokens, i + |a|, b)
  {
    assert forall k :: 0 <= k < |a| ==> (a + b)[k] == a[k];
    assert forall k :: 0 <= k < |b| ==> (a + b)[|a| + k] == b[k];
  }

  /** The end of an element: its text, if it has any, and the end tag. */
  lemma ParseTail(tokens: seq<Token>, i: nat, v: Value, text: Option<string>)
    requires TokensAt(tokens, i, PrintText(text) + [End]) && v.text == None
    ensures ParseContent(tokens, i, v, "") == (v.(text := CanonText(text)), i + |PrintText(text)| + 1)
  {
    PartsAt(tokens, i, PrintText(text), [End]);
    assert tokens[i + |PrintText(text)|] == [End][0];
    if PrintText(text) != [] {
      assert tokens[i] == PrintText(text)[0];
    }
  }

  /** Printing a value anywhere in a document and parsing it there gives its canonical form, and stops right after it. */
  lemma {:induction false} ParsePrinted(v: Value, ns: string, name: string, messageNs: string, env: seq<NsDecl>, tokens: seq<Token>, i: nat)
    requires TokensAt(tokens, i, PrintAs(v, ns, name, messageNs))
    ensures Parse(tokens, i, env) == (CanonAs(v, ns, name, messageNs, env), i + |PrintAs(v, ns, name, messageNs)|)
    decreases v, 1
  {
    hide Opened, OpenTag, PrintAll, CanonAll, ParseContent;
    var printed := PrintAs(v, ns, name, messageNs);
    var kids := PrintAll(v.children, messageNs, false);
    var tag, tail := [OpenTag(v, ns, name, [])], PrintText(v.text) + [End];
    assert printed == tag + (kids + tail);
    PartsAt(tokens, i, tag, kids + tail);
    PartsAt(tokens, i + 1, kids, tail);
    assert tokens[i] == tag[0];
    OpenedPrinted(v, ns, name, env);
    var value := Opened(tokens[i], env);
    ParseAllPrinted(v.children, messageNs, false, value, "", tokens, i + 1);
    assert [] + CanonAll(v.children, messageNs, false, value.envDecls) == CanonAll(v.children, messageNs, false, value.envDecls);
    ParseTail(tokens, i + 1 + |kids|, value.(children := CanonAll(v.children, messageNs, false, value.envDecls)), v.text);
  }

  lemma {:induction false} ParseAllPrinted(vs: seq<Value>, messageNs: string, force: bool, into: Value, text: string, tokens: seq<Token>, i: nat)
    requires TokensAt(tokens, i, PrintAll(vs, messageNs, force))
    ensures ParseContent(tokens, i, into, text)
         == ParseContent(tokens, i + |PrintAll(vs, messageNs, force)|,
                         into.(children := into.children + CanonAll(vs, messageNs, force, into.envDecls)), text)
    decreases vs, 0
  {
    hide OpenTag, WrittenNs, PrintAs, CanonAs, Parse;
    if vs == [] {
      assert into.children + [] == into.children;
    } else {
      var first, rest := Print(vs[0], messageNs, force), PrintAll(vs[1..], messageNs, force);
      PartsAt(tokens, i, first, rest);
      var ns := WrittenNs(vs[0], messageNs, force);
      assert tokens[i] == first[0];
      ParsePrinted(vs[0], ns, vs[0].name, messageNs, into.envDecls, tokens, i);
      var child := Canon(vs[0], messageNs, force, into.envDecls);
      var into' := into.(children := into.children + [child]);
      StartsElement(vs[0], ns, messageNs);
      assert ParseContent(tokens, i, into, text) == ParseContent(tokens, i + |first|, into', text);
      ParseAllPrinted(vs[1..], messageNs, force, into', text, tokens, i + |first|);
      assert into.children + ([child] + CanonAll(vs[1..], messageNs, force, into.envDecls))
          == into'.children + CanonAll(vs[1..], messageNs, force, into.envDecls);
    }
  }

  lemma StartsElement(v: Value, ns: string, messageNs: string)
    ensures PrintAs(v, ns, v.name, messageNs)[0].Start?
  {
  }
}
