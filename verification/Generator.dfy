/**
 The generator: ElementArgumentSerializer and Converter::createComplexTypeSerializer turn a complex type of the schema
 into the members and the serialize() and deserialize() code of a C++ class.
 */
module Generator {
  import opened GeneratedCode
  import opened SimpleTypes
  import opened Wrappers

  // ----- the schema -----

  /** An element with the facts of its compositor: whether it is a choice, and how often it occurs. */
  datatype Element = Element(
    name: string, ns: string, typ: TypeRef, minOccurs: nat, maxOccurs: nat,
    inChoice: bool, compositorMin: nat, compositorMax: nat, qualified: bool, nillable: bool)

  datatype AttributeUse = Optional | Required | Prohibited

  datatype AttributeDecl = AttributeDecl(name: string, ns: string, typ: SimpleType, use: AttributeUse, qualified: bool)

  /** What a complex type extends: nothing, an earlier complex type, or a simple type whose value it wraps. */
  datatype Base = NoBase | Extends(index: nat) | Wraps(simple: SimpleType)

  /** `arrayOf` is the item type of a SOAP array; `polymorphic` holds for types that others derive from. */
  datatype ComplexType = ComplexType(
    base: Base, elements: seq<Element>, attributes: seq<AttributeDecl>, arrayOf: Option<TypeRef>, polymorphic: bool)

  type Schema = seq<ComplexType>

  predicate IsOptional(e: Element) {
    e.minOccurs == 0 || e.inChoice || e.compositorMin == 0
  }

  predicate IsRepeated(e: Element) {
    e.maxOccurs > 1 || e.compositorMax > 1
  }

  predicate IsPolymorphic(schema: Schema, typ: TypeRef) {
    typ.Complex? && typ.index < |schema| && schema[typ.index].polymorphic
  }

  /** usePointerForElement: an optional member of its own class, or a polymorphic one, lists aside. */
  predicate UsesPointer(schema: Schema, c: nat, e: Element, isList: bool) {
    !isList && ((IsOptional(e) && e.typ == Complex(c)) || IsPolymorphic(schema, e.typ))
  }

  // ----- member variables -----

  /** generateMemberVariable, for an element. */
  function ElementMember(schema: Schema, c: nat, e: Element): MemberVar
    requires c < |schema|
  {
    if schema[c].arrayOf.Some? then
      MemberVar(InList(IsPolymorphic(schema, schema[c].arrayOf.value)), schema[c].arrayOf.value, IsOptional(e), false)
    else if IsRepeated(e) then MemberVar(InList(IsPolymorphic(schema, e.typ)), e.typ, IsOptional(e), false)
    else if UsesPointer(schema, c, e, false) then MemberVar(ByPointer, e.typ, false, !IsOptional(e))
    else MemberVar(ByValue, e.typ, IsOptional(e), false)
  }

  function AttributeMember(a: AttributeDecl): MemberVar {
    MemberVar(ByValue, Simple(a.typ), a.use.Optional? || a.use.Prohibited?, false)
  }

  /** One member per element, then one per attribute. */
  function Members(schema: Schema, c: nat): (r: seq<MemberVar>)
    requires c < |schema|
    ensures |r| == |schema[c].elements| + |schema[c].attributes|
    ensures forall i :: 0 <= i < |schema[c].elements| ==> r[i] == ElementMember(schema, c, schema[c].elements[i])
    ensures forall i :: 0 <= i < |schema[c].attributes| ==> r[|schema[c].elements| + i] == AttributeMember(schema[c].attributes[i])
  {
    var t := schema[c];
    seq(|t.elements|, i requires 0 <= i < |t.elements| => ElementMember(schema, c, t.elements[i]))
    + seq(|t.attributes|, i requires 0 <= i < |t.attributes| => AttributeMember(t.attributes[i]))
  }

  // ----- the emitted code, as a function of the schema -----

  function ItemOps(local: Local, arrow: bool, name: string, ns: string, qualified: bool, nillable: bool, output: Output): seq<Op> {
    [Op.Serialize(local, arrow, name), SetNamespaceUri(ns)]
    + (if qualified then [SetQualified] else []) + (if nillable then [SetNillable] else []) + [Append(output)]
  }

  /** The serialization of one element: a loop for lists and arrays, otherwise guarded by the nil flag or the pointer. */
  function ElementMarshal(schema: Schema, c: nat, i: nat): Marshal
    requires c < |schema| && i < |schema[c].elements|
  {
    var t := schema[c];
    var e := t.elements[i];
    if t.arrayOf.Some? then
      ForEach(i, ItemOps(VarAt(i), IsPolymorphic(schema, t.arrayOf.value), "item", e.ns, e.qualified, e.nillable, Args))
    else if IsRepeated(e) then
      ForEach(i, ItemOps(VarAt(i), IsPolymorphic(schema, e.typ), e.name, e.ns, e.qualified, false, Args))
    else
      var pointer := UsesPointer(schema, c, e, false);
      var ops := ItemOps(Var(i), e.typ.Complex? && (IsPolymorphic(schema, e.typ) || pointer), e.name, e.ns, e.qualified, e.nillable, Args);
      if !IsOptional(e) then Do(ops) else if pointer then IfPointer(i, ops) else IfNotNil(i, ops)
  }

  function AttributeMarshal(schema: Schema, c: nat, i: nat): seq<Marshal>
    requires c < |schema| && i < |schema[c].attributes|
  {
    var a := schema[c].attributes[i];
    var f := |schema[c].elements| + i;
    if a.name == "" then []
    else
      var ops := ItemOps(Var(f), false, a.name, a.ns, a.qualified, false, Attribs);
      [if a.use.Required? then Do(ops) else IfNotNil(f, ops)]
  }

  function InitCode(t: ComplexType): Marshal {
    match t.base
    case Extends(b) => if t.arrayOf.Some? then InitEmpty else InitFromBase(b)
    case Wraps(_) => if t.arrayOf.Some? then InitEmpty else InitFromValue
    case NoBase => InitEmpty
  }

  function ElementMarshals(schema: Schema, c: nat, n: nat): seq<Marshal>
    requires c < |schema| && n <= |schema[c].elements|
  {
    if n == 0 then [] else ElementMarshals(schema, c, n - 1) + [ElementMarshal(schema, c, n - 1)]
  }

  function AttributeMarshals(schema: Schema, c: nat, n: nat): seq<Marshal>
    requires c < |schema| && n <= |schema[c].attributes|
  {
    if n == 0 then [] else AttributeMarshals(schema, c, n - 1) + AttributeMarshal(schema, c, n - 1)
  }

  function MarshalCode(schema: Schema, c: nat): seq<Marshal>
    requires c < |schema|
  {
    var t := schema[c];
    [InitCode(t)] + (if t.elements != [] && t.elements[0].qualified then [SetMainQualified] else [])
    + ElementMarshals(schema, c, |t.elements|)
    + (if t.attributes == [] then [] else AttributeMarshals(schema, c, |t.attributes|) + [JoinAttribs])
  }

  /** demarshalVarHelper for a member. */
  function ReadMember(f: nat, optional: bool): seq<Assign> {
    [MemberDeserialize(f)] + if optional then [ClearNil(f)] else []
  }

  function ReadPointer(f: nat): seq<Assign> {
    [NewIfNull(f), PointerDeserialize(f)]
  }

  function ReadListItem(f: nat, typ: TypeRef, pointers: bool, optional: bool): seq<Assign> {
    (if typ.Simple? && typ.simple.Builtin? then [AppendBuiltin(f)] else [NewTemp(typ), TempDeserialize, AppendTemp(f, pointers)])
    + if optional then [ClearNil(f)] else []
  }

  function ElementRead(schema: Schema, c: nat, i: nat): seq<Assign>
    requires c < |schema| && i < |schema[c].elements|
  {
    var e := schema[c].elements[i];
    if IsRepeated(e) then ReadListItem(i, e.typ, IsPolymorphic(schema, e.typ), IsOptional(e))
    else if UsesPointer(schema, c, e, false) then ReadPointer(i)
    else ReadMember(i, IsOptional(e))
  }

  function ElementTests(schema: Schema, c: nat, n: nat): seq<NameTest>
    requires c < |schema| && n <= |schema[c].elements|
  {
    if n == 0 then [] else ElementTests(schema, c, n - 1) + [NameTest(schema[c].elements[n - 1].name, ElementRead(schema, c, n - 1))]
  }

  function AttributeTests(schema: Schema, c: nat, n: nat): seq<NameTest>
    requires c < |schema| && n <= |schema[c].attributes|
  {
    if n == 0 then []
    else
      var a := schema[c].attributes[n - 1];
      AttributeTests(schema, c, n - 1)
      + if a.name == "" then [] else [NameTest(a.name, ReadMember(|schema[c].elements| + n - 1, !a.use.Required?))]
  }

  function BaseRead(t: ComplexType): seq<Demarshal> {
    if t.arrayOf.Some? then []
    else
      match t.base
      case Extends(b) => [CallBase(b)]
      case Wraps(_) => [ReadValue]
      case NoBase => []
  }

  function ElementsRead(schema: Schema, c: nat): seq<Demarshal>
    requires c < |schema|
  {
    var t := schema[c];
    if t.elements == [] then []
    else if t.arrayOf.Some? then
      var item := t.arrayOf.value;
      [ForAllChildren(ReadListItem(0, item, IsPolymorphic(schema, item), IsOptional(t.elements[0])))]
    else [ForChildren(ElementTests(schema, c, |t.elements|))]
  }

  function DemarshalCode(schema: Schema, c: nat): seq<Demarshal>
    requires c < |schema|
  {
    var t := schema[c];
    BaseRead(t) + ElementsRead(schema, c)
    + if t.attributes == [] then [] else [ForAttributes(AttributeTests(schema, c, |t.attributes|))]
  }

  function ClassOf(schema: Schema, c: nat): Class
    requires c < |schema|
  {
    var t := schema[c];
    Class(if t.base.Extends? && t.arrayOf.None? then Some(t.base.index) else None,
          if t.base.Wraps? && t.arrayOf.None? then Some(t.base.simple) else None,
          Members(schema, c), MarshalCode(schema, c), DemarshalCode(schema, c))
  }

  /** Every class generated for a schema. */
  function Compile(schema: Schema): (classes: seq<Class>)
    ensures |classes| == |schema| && forall c :: 0 <= c < |schema| ==> classes[c] == ClassOf(schema, c)
  {
    seq(|schema|, c requires 0 <= c < |schema| => ClassOf(schema, c))
  }

  // ----- the generator's own code -----

  /** ElementArgumentSerializer: its setters collect what to emit for one element. */
  class ElementArgumentSerializer {
    const schema: Schema
    const typ: TypeRef
    const field: nat
    var local: Local
    var name: string
    var ns: string
    var output: Output
    var append: bool
    var qualified: bool
    var nillable: bool
    var optional: bool
    var usePointer: bool

    constructor (schema: Schema, typ: TypeRef, field: nat, local: Local)
      ensures this.schema == schema && this.typ == typ && this.field == field && this.local == local
      ensures name == "" && ns == "" && output == Args && !append && !qualified && !nillable && !optional && !usePointer
    {
      this.schema, this.typ, this.field, this.local := schema, typ, field, local;
      name, ns, output, append, qualified, nillable, optional, usePointer := "", "", Args, false, false, false, false, false;
    }

    method SetLocalVariableName(local: Local)
      requires !nillable
      modifies this`local
      ensures this.local == local
    {
      this.local := local;
    }

    method SetElementName(name: string, ns: string)
      modifies this`name, this`ns
      ensures this.name == name && this.ns == ns
    {
      this.name, this.ns := name, ns;
    }

    method SetOutputVariable(output: Output, append: bool)
      modifies this`output, this`append
      ensures this.output == output && this.append == append
    {
      this.output, this.append := output, append;
    }

    method SetIsQualified(qualified: bool)
      modifies this`qualified
      ensures this.qualified == qualified
    {
      this.qualified := qualified;
    }

    method SetNillable(nillable: bool)
      modifies this`nillable
      ensures this.nillable == nillable
    {
      this.nillable := nillable;
    }

    method SetOptional(optional: bool)
      modifies this`optional
      ensures this.optional == optional
    {
      this.optional := optional;
    }

    method SetUsePointer(usePointer: bool)
      modifies this`usePointer
      ensures this.usePointer == usePointer
    {
      this.usePointer := usePointer;
    }

    /** The code that appends one serialized value, guarded if the element is optional, or assigns it without a guard. */
    method GenerateSerializationCode() returns (block: Marshal)
      ensures var ops := ItemOps(local, typ.Complex? && (IsPolymorphic(schema, typ) || usePointer), name, ns, qualified, nillable, output);
              block == if !append then Do(ops[..|ops| - 1] + [AssignTo(output)]) else if !optional then Do(ops) else if usePointer then IfPointer(field, ops) else IfNotNil(field, ops)
    {
      var arrow := typ.Complex? && (IsPolymorphic(schema, typ) || usePointer);
      var ops := [Op.Serialize(local, arrow, name)];
      ops := ops + [SetNamespaceUri(ns)];
      if qualified {
        ops := ops + [SetQualified];
      }
      if nillable {
        ops := ops + [Op.SetNillable];
      }
      assert ops + [Append(output)] == ItemOps(local, arrow, name, ns, qualified, nillable, output);
      ops := ops + [if append then Append(output) else AssignTo(output)];
      if append && optional {
        if usePointer {
          block := IfPointer(field, ops);
        } else {
          block := IfNotNil(field, ops);
        }
      } else {
        block := Do(ops);
      }
    }

    method DemarshalArray() returns (code: seq<Assign>)
      ensures code == ReadListItem(field, typ, IsPolymorphic(schema, typ), optional)
    {
      if typ.Simple? && typ.simple.Builtin? {
        code := [AppendBuiltin(field)];
      } else {
        code := [NewTemp(typ), TempDeserialize, AppendTemp(field, IsPolymorphic(schema, typ))];
      }
      if optional {
        code := code + [ClearNil(field)];
      }
    }

    method DemarshalVariable() returns (code: seq<Assign>)
      ensures code == if usePointer || IsPolymorphic(schema, typ) then ReadPointer(field) else ReadMember(field, optional)
    {
      if usePointer || IsPolymorphic(schema, typ) {
        code := [NewIfNull(field), PointerDeserialize(field)];
      } else {
        code := DemarshalVarHelper();
      }
    }

    method DemarshalVarHelper() returns (code: seq<Assign>)
      ensures code == ReadMember(field, optional)
    {
      code := [MemberDeserialize(field)];
      if optional {
        code := code + [ClearNil(field)];
      }
    }
  }

  /** One element of a complex type: the statement that writes it and the branch that reads it. */
  method GenerateElement(schema: Schema, c: nat, i: nat) returns (marshal: Marshal, read: seq<Assign>)
    requires c < |schema| && i < |schema[c].elements| && schema[c].arrayOf.None?
    ensures marshal == ElementMarshal(schema, c, i) && read == ElementRead(schema, c, i)
  {
    hide ItemOps, ReadListItem, ReadPointer, ReadMember;
    var e := schema[c].elements[i];
    var serializer := new ElementArgumentSerializer(schema, e.typ, i, Var(i));
    serializer.SetOutputVariable(Args, true);
    serializer.SetIsQualified(e.qualified);
    if e.maxOccurs > 1 || e.compositorMax > 1 {
      serializer.SetLocalVariableName(VarAt(i));
      serializer.SetElementName(e.name, e.ns);
      serializer.SetOptional(false);
      var block := serializer.GenerateSerializationCode();
      marshal := ForEach(i, block.ops);
      var deserializer := new ElementArgumentSerializer(schema, e.typ, i, Var(i));
      deserializer.SetOptional(IsOptional(e));
      read := deserializer.DemarshalArray();
    } else {
      serializer.SetElementName(e.name, e.ns);
      serializer.SetOptional(IsOptional(e));
      serializer.SetUsePointer(UsesPointer(schema, c, e, false));
      serializer.SetNillable(e.nillable);
      marshal := serializer.GenerateSerializationCode();
      read := serializer.DemarshalVariable();
    }
  }

  /** The single element of a SOAP array. */
  method GenerateArray(schema: Schema, c: nat) returns (marshal: Marshal, read: seq<Assign>)
    requires c < |schema| && |schema[c].elements| == 1 && schema[c].arrayOf.Some?
    ensures marshal == ElementMarshal(schema, c, 0) && [ForAllChildren(read)] == ElementsRead(schema, c)
  {
    hide ItemOps;
    var e, item := schema[c].elements[0], schema[c].arrayOf.value;
    var serializer := new ElementArgumentSerializer(schema, item, 0, VarAt(0));
    serializer.SetElementName("item", e.ns);
    serializer.SetOutputVariable(Args, true);
    serializer.SetIsQualified(e.qualified);
    serializer.SetNillable(e.nillable);
    serializer.SetOptional(false);
    var block := serializer.GenerateSerializationCode();
    marshal := ForEach(0, block.ops);
    var deserializer := new ElementArgumentSerializer(schema, item, 0, Var(0));
    deserializer.SetOptional(IsOptional(e));
    read := deserializer.DemarshalArray();
  }

  method GenerateAttribute(schema: Schema, c: nat, i: nat) returns (marshal: Marshal, read: seq<Assign>)
    requires c < |schema| && i < |schema[c].attributes| && schema[c].attributes[i].name != ""
    ensures [marshal] == AttributeMarshal(schema, c, i)
    ensures read == ReadMember(|schema[c].elements| + i, !schema[c].attributes[i].use.Required?)
  {
    hide ItemOps;
    var a, f := schema[c].attributes[i], |schema[c].elements| + i;
    var serializer := new ElementArgumentSerializer(schema, Simple(a.typ), f, Var(f));
    serializer.SetElementName(a.name, a.ns);
    serializer.SetOutputVariable(Attribs, true);
    serializer.SetIsQualified(a.qualified);
    serializer.SetNillable(false);
    serializer.SetOptional(a.use.Optional? || a.use.Prohibited?);
    marshal := serializer.GenerateSerializationCode();
    read := serializer.DemarshalVariable();
  }

  method GenerateElements(schema: Schema, c: nat) returns (marshal: seq<Marshal>, demarshal: seq<Demarshal>)
    requires c < |schema| && (schema[c].arrayOf.Some? ==> |schema[c].elements| == 1)
    ensures marshal == ElementMarshals(schema, c, |schema[c].elements|) && demarshal == ElementsRead(schema, c)
  {
    hide ElementMarshal, ElementRead;
    var t := schema[c];
    marshal, demarshal := [], [];
    if t.arrayOf.Some? {
      var m, read := GenerateArray(schema, c);
      marshal, demarshal := [m], [ForAllChildren(read)];
      assert ElementMarshals(schema, c, 1) == ElementMarshals(schema, c, 0) + [m];
    } else if t.elements != [] {
      var tests := [];
      for i := 0 to |t.elements|
        invariant marshal == ElementMarshals(schema, c, i) && tests == ElementTests(schema, c, i)
      {
        var m, read := GenerateElement(schema, c, i);
        marshal := marshal + [m];
        tests := tests + [NameTest(t.elements[i].name, read)];
      }
      demarshal := [ForChildren(tests)];
    }
  }

  method GenerateAttributes(schema: Schema, c: nat) returns (marshal: seq<Marshal>, tests: seq<NameTest>)
    requires c < |schema|
    ensures marshal == AttributeMarshals(schema, c, |schema[c].attributes|) && tests == AttributeTests(schema, c, |schema[c].attributes|)
  {
    hide AttributeMarshal;
    var t := schema[c];
    marshal, tests := [], [];
    for i := 0 to |t.attributes|
      invariant marshal == AttributeMarshals(schema, c, i) && tests == AttributeTests(schema, c, i)
    {
      if t.attributes[i].name == "" {
        NamelessAttribute(schema, c, i);
        assert marshal + [] == marshal && tests + [] == tests;
        continue;
      }
      var m, read := GenerateAttribute(schema, c, i);
      marshal := marshal + [m];
      tests := tests + [NameTest(t.attributes[i].name, read)];
    }
  }

  lemma NamelessAttribute(schema: Schema, c: nat, i: nat)
    requires c < |schema| && i < |schema[c].attributes| && schema[c].attributes[i].name == ""
    ensures AttributeMarshal(schema, c, i) == []
  {
  }

  /** createComplexTypeSerializer. */
  method CreateComplexTypeSerializer(schema: Schema, c: nat) returns (marshal: seq<Marshal>, demarshal: seq<Demarshal>)
    requires c < |schema| && (schema[c].arrayOf.Some? ==> |schema[c].elements| == 1)
    ensures marshal == MarshalCode(schema, c) && demarshal == DemarshalCode(schema, c)
  {
    hide ElementMarshals, AttributeMarshals, ElementsRead, AttributeTests;
    var t := schema[c];
    marshal, demarshal := [InitEmpty], [];
    if t.arrayOf.None? {
      match t.base {
        case Extends(b) =>
          marshal, demarshal := [InitFromBase(b)], [CallBase(b)];
        case Wraps(_) =>
          marshal, demarshal := [InitFromValue], [ReadValue];
        case NoBase =>
      }
    }
    assert marshal == [InitCode(t)] && demarshal == BaseRead(t);
    ghost var first: seq<Marshal> := if t.elements != [] && t.elements[0].qualified then [SetMainQualified] else [];
    if t.elements != [] && t.elements[0].qualified {
      marshal := marshal + [SetMainQualified];
    }
    assert marshal == [InitCode(t)] + first;
    var m, d := GenerateElements(schema, c);
    marshal, demarshal := marshal + m, demarshal + d;
    if t.attributes != [] {
      var am, tests := GenerateAttributes(schema, c);
      marshal := marshal + am;
      marshal := marshal + [JoinAttribs];
      demarshal := demarshal + [ForAttributes(tests)];
      assert marshal == [InitCode(t)] + first + m + (am + [JoinAttribs]);
    } else {
      assert marshal + [] == marshal && demarshal + [] == demarshal;
    }
  }
}
