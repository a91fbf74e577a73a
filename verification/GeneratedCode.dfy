/**
 The C++ classes that the generator emits for complex types, as data, and what running their serialize()
 and deserialize() functions does. A statement the C++ compiler would refuse has no effect here.
 */
module GeneratedCode {
  import opened SimpleTypes
  import SoapValue
  import opened Wrappers

  /** A schema type: a simple type, or a complex type by its position. */
  datatype TypeRef = Simple(simple: SimpleType) | Complex(index: nat)

  // ----- the emitted statements -----

  /** A member variable, or the current entry of a list variable. */
  datatype Local = Var(field: nat) | VarAt(field: nat)

  datatype Output = Args | Attribs

  /** What is done with one KDSoapValue on its way into the output list; a list cannot be assigned a value. */
  datatype Op =
    | Serialize(local: Local, arrow: bool, name: string)
    | SetNamespaceUri(ns: string)
    | SetQualified
    | SetNillable
    | Append(output: Output)
    | AssignTo(output: Output)

  datatype Marshal =
    | InitFromBase(index: nat)
    | InitFromValue
    | InitEmpty
    | SetMainQualified
    | Do(ops: seq<Op>)
    | IfNotNil(field: nat, ops: seq<Op>)
    | IfPointer(field: nat, ops: seq<Op>)
    | ForEach(field: nat, ops: seq<Op>)
    | JoinAttribs

  /** What is done with one child value or attribute while reading. */
  datatype Assign =
    | MemberDeserialize(field: nat)
    | NewIfNull(field: nat)
    | PointerDeserialize(field: nat)
    | AppendBuiltin(field: nat)
    | NewTemp(typ: TypeRef)
    | TempDeserialize
    | AppendTemp(field: nat, asPointer: bool)
    | ClearNil(field: nat)

  /** One `if (_name == ...) { ... }` of an else-if chain. */
  datatype NameTest = NameTest(name: string, body: seq<Assign>)

  datatype Demarshal =
    | CallBase(index: nat)
    | ReadValue
    | ForChildren(tests: seq<NameTest>)
    | ForAllChildren(body: seq<Assign>)
    | ForAttributes(tests: seq<NameTest>)

  // ----- classes and objects -----

  datatype Storage = ByValue | ByPointer | InList(pointers: bool)

  /** A member variable: `startsNil` is the initial value of its _nil flag, `startsNew` an initializer `new T`. */
  datatype MemberVar = MemberVar(storage: Storage, typ: TypeRef, startsNil: bool, startsNew: bool)

  /** `value` is the type of the member mValue, for types that extend a simple type. */
  datatype Class = Class(base: Option<nat>, value: Option<SimpleType>, members: seq<MemberVar>, serialize: seq<Marshal>, deserialize: seq<Demarshal>)

  datatype Item = Leaf(data: Data) | Nested(obj: Object)

  /** A member variable's contents. A member without a _nil flag is never nil. */
  datatype Slot =
    | Member(isNil: bool, item: Item)
    | Pointer(target: Option<Object>)
    | List(isNil: bool, items: seq<Item>)

  datatype Object = Object(base: Option<Object>, value: Data, fields: seq<Slot>)

  const NOTHING := Object(None, Plain(""), [])

  /** `new C`. A member held by value, or made with `new`, has to be of an earlier class; otherwise construction never ends. */
  function Fresh(classes: seq<Class>, c: nat): Object
    decreases c, 1
  {
    if c >= |classes| then NOTHING
    else
      var cls := classes[c];
      Object(if cls.base.Some? && cls.base.value < c then Some(Fresh(classes, cls.base.value)) else None,
             if cls.value.Some? then Initial(cls.value.value) else Plain(""),
             seq(|cls.members|, i requires 0 <= i < |cls.members| => FreshSlot(classes, c, cls.members[i])))
  }

  function FreshSlot(classes: seq<Class>, c: nat, m: MemberVar): Slot
    decreases c, 0
  {
    match m.storage
    case ByValue =>
      Member(m.startsNil,
             match m.typ
             case Simple(t) => Leaf(Initial(t))
             case Complex(k) => Nested(if k < c then Fresh(classes, k) else NOTHING))
    case ByPointer => Pointer(if m.startsNew && m.typ.Complex? && m.typ.index < c then Some(Fresh(classes, m.typ.index)) else None)
    case InList(_) => List(m.startsNil, [])
  }

  /** A default-constructed local variable. */
  function FreshItem(classes: seq<Class>, typ: TypeRef): Item {
    match typ
    case Simple(t) => Leaf(Initial(t))
    case Complex(k) => Nested(Fresh(classes, k))
  }

  // ----- running serialize() -----

  datatype Marshalling = Marshalling(main: SoapValue.Value, attribs: seq<SoapValue.Attribute>, temp: Option<SoapValue.Value>)

  /** The variable an emitted expression denotes, if its access operator fits. */
  function Target(members: seq<MemberVar>, obj: Object, local: Local, arrow: bool, at: Option<Item>): (r: Option<Item>)
    requires at.Some? && at.value.Nested? ==> at.value.obj < obj
    ensures r.Some? && r.value.Nested? ==> r.value.obj < obj
  {
    if local.field >= |obj.fields| || local.field >= |members| then None
    else
      match local
      case Var(f) =>
        (match obj.fields[f]
         case Member(_, item) => if arrow then None else Some(item)
         case Pointer(Some(o)) => if arrow then Some(Nested(o)) else None
         case _ => None)
      case VarAt(f) => if members[f].storage == InList(arrow) then at else None
  }

  /** `C::serialize(name)`. */
  function RunSerialize(classes: seq<Class>, c: nat, obj: Object, name: string): SoapValue.Value
    decreases obj, 2, 0
  {
    if c >= |classes| then SoapValue.NewValue(name, None)
    else RunMarshal(classes, c, classes[c].serialize, obj, name, Marshalling(SoapValue.NewValue(name, None), [], None)).main
  }

  function RunMarshal(classes: seq<Class>, c: nat, code: seq<Marshal>, obj: Object, name: string, st: Marshalling): Marshalling
    requires c < |classes|
    decreases obj, 1, |code|, 1
  {
    if code == [] then st
    else
      var n := |code| - 1;
      RunStatement(classes, c, code[n], obj, name, RunMarshal(classes, c, code[..n], obj, name, st), n)
  }

  function RunStatement(classes: seq<Class>, c: nat, stmt: Marshal, obj: Object, name: string, st: Marshalling, ghost pos: nat): Marshalling
    requires c < |classes|
    decreases obj, 1, pos + 1, 0
  {
    match stmt
    case InitFromBase(b) =>
      if obj.base.Some? then st.(main := RunSerialize(classes, b, obj.base.value, name)) else st
    case InitFromValue =>
      var t := classes[c].value;
      if t.Some? && HasType(t.value, obj.value)
      then st.(main := SoapValue.NewValue(name, Some(SimpleTypes.Serialize(t.value, obj.value)))) else st
    case InitEmpty => st.(main := SoapValue.NewValue(name, None))
    case SetMainQualified => st.(main := st.main.(qualified := true))
    case Do(ops) => RunOps(classes, c, ops, obj, None, st)
    case IfNotNil(f, ops) =>
      if f < |obj.fields| && obj.fields[f].Member? && !obj.fields[f].isNil then RunOps(classes, c, ops, obj, None, st) else st
    case IfPointer(f, ops) =>
      if f < |obj.fields| && obj.fields[f].Pointer? && obj.fields[f].target.Some? then RunOps(classes, c, ops, obj, None, st) else st
    case ForEach(f, ops) =>
      if f < |obj.fields| && obj.fields[f].List? then RunEach(classes, c, ops, obj.fields[f].items, obj, st) else st
    case JoinAttribs => st.(main := st.main.(attrs := st.main.attrs + st.attribs))
  }

  ghost predicate Inside(items: seq<Item>, obj: Object) {
    forall i :: 0 <= i < |items| && items[i].Nested? ==> items[i].obj < obj
  }

  /** The loop over a list variable. */
  function RunEach(classes: seq<Class>, c: nat, ops: seq<Op>, items: seq<Item>, obj: Object, st: Marshalling): Marshalling
    requires c < |classes| && Inside(items, obj)
    decreases obj, 0, 1, |items|
  {
    if items == [] then st
    else
      var n := |items| - 1;
      RunOps(classes, c, ops, obj, Some(items[n]), RunEach(classes, c, ops, items[..n], obj, st))
  }

  function RunOps(classes: seq<Class>, c: nat, ops: seq<Op>, obj: Object, at: Option<Item>, st: Marshalling): Marshalling
    requires c < |classes|
    requires at.Some? && at.value.Nested? ==> at.value.obj < obj
    decreases obj, 0, 0, |ops|
  {
    if ops == [] then st
    else
      var n := |ops| - 1;
      RunOp(classes, c, ops[n], obj, at, RunOps(classes, c, ops[..n], obj, at, st), n)
  }

  function RunOp(classes: seq<Class>, c: nat, op: Op, obj: Object, at: Option<Item>, st: Marshalling, ghost pos: nat): Marshalling
    requires c < |classes|
    requires at.Some? && at.value.Nested? ==> at.value.obj < obj
    decreases obj, 0, 0, pos
  {
    match op
    case Serialize(local, arrow, name) =>
      var target := Target(classes[c].members, obj, local, arrow, at);
      st.(temp :=
        if target == None then None
        else
          match (classes[c].members[local.field].typ, target.value)
          case (Simple(t), Leaf(d)) => if HasType(t, d) then Some(SoapValue.NewValue(name, Some(SimpleTypes.Serialize(t, d)))) else None
          case (Complex(k), Nested(o)) => Some(RunSerialize(classes, k, o, name))
          case _ => None)
    case AssignTo(_) => st
    case Append(output) =>
      if st.temp.None? then st
      else if output.Args? then st.(main := st.main.(children := st.main.children + [st.temp.value]))
      else st.(attribs := st.attribs + [AsAttribute(st.temp.value)])
    case SetNamespaceUri(ns) => if st.temp.None? then st else st.(temp := Some(st.temp.value.(ns := ns)))
    case SetQualified => if st.temp.None? then st else st.(temp := Some(st.temp.value.(qualified := true)))
    case SetNillable => if st.temp.None? then st else st.(temp := Some(st.temp.value.(nillable := true)))
  }

  function AsAttribute(v: SoapValue.Value): SoapValue.Attribute {
    SoapValue.Attribute(v.name, v.ns, v.text.GetOr(""), v.qualified)
  }

  // ----- running deserialize() -----

  /** What deserialize() can see of a KDSoapValue. */
  datatype View = View(name: string, text: Option<string>, children: seq<View>, attrs: seq<View>)

  function ViewOf(v: SoapValue.Value): View
    decreases v, 1
  {
    View(v.name, SoapValue.CanonText(v.text), Views(v.children), AttrViews(v.attrs))
  }

  function Views(vs: seq<SoapValue.Value>): (r: seq<View>)
    ensures |r| == |vs|
    decreases vs, 0
  {
    if vs == [] then [] else [ViewOf(vs[0])] + Views(vs[1..])
  }

  function AttrViews(attrs: seq<SoapValue.Attribute>): (r: seq<View>)
    ensures |r| == |attrs|
    ensures forall i :: 0 <= i < |attrs| ==> r[i] == View(attrs[i].name, Sent(attrs[i].text), [], [])
  {
    seq(|attrs|, i requires 0 <= i < |attrs| => View(attrs[i].name, Sent(attrs[i].text), [], []))
  }

  function BaseDepth(obj: Object): nat {
    if obj.base.None? then 0 else 1 + BaseDepth(obj.base.value)
  }

  /** The object being filled, and the temporary of the branch being run. */
  datatype Reading = Reading(obj: Object, temp: Option<(TypeRef, Item)>)

  /** `C::deserialize(v)` on `obj`. */
  function RunDeserialize(classes: seq<Class>, c: nat, v: View, obj: Object): (r: Object)
    ensures BaseDepth(r) == BaseDepth(obj)
    decreases v, 0, BaseDepth(obj), 1, 0
  {
    if c >= |classes| then obj else RunDemarshal(classes, c, classes[c].deserialize, v, obj)
  }

  function RunDemarshal(classes: seq<Class>, c: nat, code: seq<Demarshal>, v: View, obj: Object): (r: Object)
    requires c < |classes|
    ensures BaseDepth(r) == BaseDepth(obj)
    decreases v, 0, BaseDepth(obj), 0, |code|
  {
    if code == [] then obj
    else
      var n := |code| - 1;
      var before := RunDemarshal(classes, c, code[..n], v, obj);
      match code[n]
      case CallBase(b) =>
        if before.base.Some? then before.(base := Some(RunDeserialize(classes, b, v, before.base.value))) else before
      case ReadValue =>
        if classes[c].value.Some? then before.(value := SimpleTypes.Deserialize(classes[c].value.value, v.text, before.value)) else before
      case ForChildren(tests) => RunLoop(classes, c, tests, v.children, before)
      case ForAllChildren(body) => RunAll(classes, c, body, v.children, before)
      case ForAttributes(tests) => RunLoop(classes, c, tests, v.attrs, before)
  }

  /** The first branch of an else-if chain that fits. */
  function Branch(tests: seq<NameTest>, name: string): seq<Assign> {
    if tests == [] then [] else if tests[0].name == name then tests[0].body else Branch(tests[1..], name)
  }

  function RunLoop(classes: seq<Class>, c: nat, tests: seq<NameTest>, vs: seq<View>, obj: Object): (r: Object)
    requires c < |classes|
    ensures BaseDepth(r) == BaseDepth(obj)
    decreases vs, 2, 0, 0, 0
  {
    if vs == [] then obj
    else RunLoop(classes, c, tests, vs[1..], RunAssigns(classes, c, Branch(tests, vs[0].name), vs[0], Reading(obj, None)).obj)
  }

  function RunAll(classes: seq<Class>, c: nat, body: seq<Assign>, vs: seq<View>, obj: Object): (r: Object)
    requires c < |classes|
    ensures BaseDepth(r) == BaseDepth(obj)
    decreases vs, 2, 0, 0, 0
  {
    if vs == [] then obj
    else RunAll(classes, c, body, vs[1..], RunAssigns(classes, c, body, vs[0], Reading(obj, None)).obj)
  }

  function RunAssigns(classes: seq<Class>, c: nat, body: seq<Assign>, v: View, st: Reading): (r: Reading)
    requires c < |classes|
    ensures BaseDepth(r.obj) == BaseDepth(st.obj) && |r.obj.fields| == |st.obj.fields|
    decreases v, 1, 0, 0, |body|
  {
    if body == [] then st
    else
      var n := |body| - 1;
      RunAssign(classes, c, body[n], v, RunAssigns(classes, c, body[..n], v, st), n)
  }

  /** Reading `v` into a variable of that type. */
  function ReadInto(classes: seq<Class>, typ: TypeRef, v: View, item: Item): Item
    decreases v, 0, BaseDepth(if item.Nested? then item.obj else NOTHING), 2, 0
  {
    match (typ, item)
    case (Simple(t), Leaf(d)) => Leaf(SimpleTypes.Deserialize(t, v.text, d))
    case (Complex(k), Nested(o)) => Nested(RunDeserialize(classes, k, v, o))
    case _ => item
  }

  function SetField(obj: Object, f: nat, slot: Slot): (r: Object)
    requires f < |obj.fields|
    ensures BaseDepth(r) == BaseDepth(obj) && |r.fields| == |obj.fields|
  {
    obj.(fields := obj.fields[f := slot])
  }

  function RunAssign(classes: seq<Class>, c: nat, a: Assign, v: View, st: Reading, ghost pos: nat): (r: Reading)
    requires c < |classes|
    ensures BaseDepth(r.obj) == BaseDepth(st.obj) && |r.obj.fields| == |st.obj.fields|
    decreases v, 1, 0, 0, pos
  {
    match a
    case NewTemp(typ) => st.(temp := Some((typ, FreshItem(classes, typ))))
    case TempDeserialize =>
      if st.temp.None? then st else st.(temp := Some((st.temp.value.0, ReadInto(classes, st.temp.value.0, v, st.temp.value.1))))
    case _ =>
      if a.field >= |st.obj.fields| || a.field >= |classes[c].members| then st
      else st.(obj := SetField(st.obj, a.field,
                               Assigned(classes, classes[c].members[a.field], a, v, st.obj.fields[a.field], st.temp)))
  }

  /** The new contents of the variable a statement assigns to. */
  function Assigned(classes: seq<Class>, m: MemberVar, a: Assign, v: View, slot: Slot, temp: Option<(TypeRef, Item)>): Slot
    decreases v, 0, BaseDepth(match slot case Member(_, Nested(o)) => o case Pointer(Some(o)) => o case _ => NOTHING), 3, 0
  {
    match (a, slot)
    case (MemberDeserialize(_), Member(isNil, item)) => Member(isNil, ReadInto(classes, m.typ, v, item))
    case (NewIfNull(_), Pointer(None)) => if m.typ.Complex? then Pointer(Some(Fresh(classes, m.typ.index))) else slot
    case (PointerDeserialize(_), Pointer(Some(o))) =>
      if m.typ.Complex? then Pointer(Some(RunDeserialize(classes, m.typ.index, v, o))) else slot
    case (AppendBuiltin(_), List(isNil, items)) =>
      if m.typ.Simple? then List(isNil, items + [ReadInto(classes, m.typ, v, FreshItem(classes, m.typ))]) else slot
    case (AppendTemp(_, asPointer), List(isNil, items)) =>
      if m.storage == InList(asPointer) && temp.Some? then List(isNil, items + [temp.value.1]) else slot
    case (ClearNil(_), Member(_, item)) => Member(false, item)
    case (ClearNil(_), List(_, items)) => List(false, items)
    case _ => slot
  }
}
