/** What the generated serialize() functions produce, stated on the schema alone. */
module GeneratorMeaning {
  import opened GeneratedCode
  import opened Generator
  import opened SimpleTypes
  import opened Wrappers
  import SoapValue

  // ----- well-formed schemas -----

  predicate Known(schema: Schema, typ: TypeRef) {
    typ.Complex? ==> typ.index < |schema|
  }

  function OwnElementNames(t: ComplexType): set<string> {
    set e | e in t.elements :: e.name
  }

  function OwnAttributeNames(t: ComplexType): set<string> {
    set a | a in t.attributes :: a.name
  }

  /** The element names of a type and of everything it extends. */
  function ElementNames(schema: Schema, c: nat): set<string> {
    if c >= |schema| then {}
    else
      var base := schema[c].base;
      OwnElementNames(schema[c]) + if base.Extends? && base.index < c then ElementNames(schema, base.index) else {}
  }

  function AttributeNames(schema: Schema, c: nat): set<string> {
    if c >= |schema| then {}
    else
      var base := schema[c].base;
      OwnAttributeNames(schema[c]) + if base.Extends? && base.index < c then AttributeNames(schema, base.index) else {}
  }

  /** A member held by value, or created with `new`, is of an earlier type: construction ends. */
  predicate Constructible(schema: Schema, c: nat, e: Element)
    requires c < |schema|
  {
    Known(schema, e.typ) &&
    (schema[c].arrayOf.Some? || IsRepeated(e) || (UsesPointer(schema, c, e, false) && IsOptional(e)) || (e.typ.Complex? ==> e.typ.index < c))
  }

  /** A type the generator handles: distinct names along the chain of bases, and arrays that nothing extends. */
  predicate WellFormedType(schema: Schema, c: nat)
    requires c < |schema|
  {
    var t := schema[c];
    && (forall i :: 0 <= i < |t.elements| ==> Constructible(schema, c, t.elements[i]))
    && (forall i, j :: 0 <= i < j < |t.elements| ==> t.elements[i].name != t.elements[j].name)
    && (forall i, j :: 0 <= i < j < |t.attributes| ==> t.attributes[i].name != t.attributes[j].name)
    && (forall i :: 0 <= i < |t.attributes| ==>
          t.attributes[i].name != "" && (t.attributes[i].qualified ==> !SoapValue.Reserved(t.attributes[i].ns)))
    && (t.base.Extends? ==>
          && t.base.index < c && schema[t.base.index].arrayOf.None?
          && OwnElementNames(t) !! ElementNames(schema, t.base.index)
          && OwnAttributeNames(t) !! AttributeNames(schema, t.base.index))
    && (t.arrayOf.Some? ==> t.base == NoBase && |t.elements| == 1 && Known(schema, t.arrayOf.value))
  }

  predicate WellFormed(schema: Schema) {
    forall c :: 0 <= c < |schema| ==> WellFormedType(schema, c)
  }

  // ----- the objects of a class -----

  predicate ItemShape(schema: Schema, typ: TypeRef, item: Item)
    decreases item, 0
  {
    match (typ, item)
    case (Simple(t), Leaf(d)) => HasType(t, d)
    case (Complex(k), Nested(o)) => HasShape(schema, k, o)
    case _ => false
  }

  /** A variable declared by `m`; `optional` says whether it can be unset. */
  predicate SlotShape(schema: Schema, m: MemberVar, optional: bool, slot: Slot)
    decreases slot, 0
  {
    match (m.storage, slot)
    case (ByValue, Member(isNil, item)) => (isNil ==> optional) && ItemShape(schema, m.typ, item)
    case (ByPointer, Pointer(target)) => if target.Some? then m.typ.Complex? && HasShape(schema, m.typ.index, target.value) else optional
    case (InList(_), List(isNil, items)) =>
      (isNil ==> optional) && forall i :: 0 <= i < |items| ==> ItemShape(schema, m.typ, items[i])
    case _ => false
  }

  /** Whether the variable of the i-th element or attribute may be unset. */
  predicate MayBeUnset(t: ComplexType, i: nat)
    requires i < |t.elements| + |t.attributes|
  {
    if i < |t.elements| then IsOptional(t.elements[i]) else !t.attributes[i - |t.elements|].use.Required?
  }

  predicate HasShape(schema: Schema, c: nat, obj: Object): (r: bool)
    ensures r ==> c < |schema| && |obj.fields| == |schema[c].elements| + |schema[c].attributes|
    decreases obj, 1
  {
    && c < |schema|
    && (if schema[c].base.Extends? then obj.base.Some? && HasShape(schema, schema[c].base.index, obj.base.value) else obj.base.None?)
    && (if schema[c].base.Wraps? then HasType(schema[c].base.simple, obj.value) else obj.value == Plain(""))
    && |obj.fields| == |schema[c].elements| + |schema[c].attributes|
    && forall i :: 0 <= i < |obj.fields| ==> SlotShape(schema, Members(schema, c)[i], MayBeUnset(schema[c], i), obj.fields[i])
  }

  // ----- the value of an object -----

  /** A value as the element or attribute it is written for. */
  function Dressed(v: SoapValue.Value, ns: string, qualified: bool, nillable: bool): SoapValue.Value {
    v.(ns := ns, qualified := v.qualified || qualified, nillable := v.nillable || nillable)
  }

  function ItemValue(schema: Schema, typ: TypeRef, item: Item, name: string): SoapValue.Value
    requires ItemShape(schema, typ, item)
    decreases item, 0
  {
    match (typ, item)
    case (Simple(t), Leaf(d)) => SoapValue.NewValue(name, Some(SimpleTypes.Serialize(t, d)))
    case (Complex(k), Nested(o)) => Written(schema, k, o, name)
  }

  function ItemValues(schema: Schema, typ: TypeRef, items: seq<Item>, name: string, ns: string, qualified: bool, nillable: bool): (r: seq<SoapValue.Value>)
    requires forall i :: 0 <= i < |items| ==> ItemShape(schema, typ, items[i])
    ensures |r| == |items|
    decreases items, 1
  {
    if items == [] then []
    else ItemValues(schema, typ, items[..|items| - 1], name, ns, qualified, nillable)
         + [Dressed(ItemValue(schema, typ, items[|items| - 1], name), ns, qualified, nillable)]
  }

  /** The values written for one variable: one per list entry, none for an unset optional. */
  function Block(schema: Schema, m: MemberVar, optional: bool, slot: Slot, name: string, ns: string, qualified: bool, nillable: bool): seq<SoapValue.Value>
    requires SlotShape(schema, m, optional, slot)
    decreases slot, 1
  {
    match slot
    case Member(isNil, item) => if isNil then [] else [Dressed(ItemValue(schema, m.typ, item, name), ns, qualified, nillable)]
    case Pointer(target) =>
      if target.None? then [] else [Dressed(Written(schema, m.typ.index, target.value, name), ns, qualified, nillable)]
    case List(_, items) => ItemValues(schema, m.typ, items, name, ns, qualified, nillable)
  }

  function ElementBlock(schema: Schema, c: nat, obj: Object, i: nat): seq<SoapValue.Value>
    requires HasShape(schema, c, obj) && i < |schema[c].elements|
    decreases obj, 0
  {
    var t := schema[c];
    var e := t.elements[i];
    Block(schema, Members(schema, c)[i], IsOptional(e), obj.fields[i],
          if t.arrayOf.Some? then "item" else e.name, e.ns, e.qualified, e.nillable && (t.arrayOf.Some? || !IsRepeated(e)))
  }

  function ElementBlocks(schema: Schema, c: nat, obj: Object, n: nat): seq<SoapValue.Value>
    requires HasShape(schema, c, obj) && n <= |schema[c].elements|
    decreases obj, 1, n
  {
    if n == 0 then [] else ElementBlocks(schema, c, obj, n - 1) + ElementBlock(schema, c, obj, n - 1)
  }

  function AttributeBlock(schema: Schema, c: nat, obj: Object, i: nat): seq<SoapValue.Attribute>
    requires HasShape(schema, c, obj) && i < |schema[c].attributes|
  {
    var a := schema[c].attributes[i];
    var slot := obj.fields[|schema[c].elements| + i];
    assert SlotShape(schema, Members(schema, c)[|schema[c].elements| + i], MayBeUnset(schema[c], |schema[c].elements| + i), slot);
    if slot.isNil then [] else [SoapValue.Attribute(a.name, a.ns, SimpleTypes.Serialize(a.typ, slot.item.data), a.qualified)]
  }

  function AttributeBlocks(schema: Schema, c: nat, obj: Object, n: nat): seq<SoapValue.Attribute>
    requires HasShape(schema, c, obj) && n <= |schema[c].attributes|
    decreases n
  {
    if n == 0 then [] else AttributeBlocks(schema, c, obj, n - 1) + AttributeBlock(schema, c, obj, n - 1)
  }

  /** The children of an object's value: those of its base part first. */
  function Kids(schema: Schema, c: nat, obj: Object): seq<SoapValue.Value>
    requires HasShape(schema, c, obj)
    decreases obj, 2
  {
    (if schema[c].base.Extends? then Kids(schema, schema[c].base.index, obj.base.value) else [])
    + ElementBlocks(schema, c, obj, |schema[c].elements|)
  }

  function Attributes(schema: Schema, c: nat, obj: Object): seq<SoapValue.Attribute>
    requires HasShape(schema, c, obj)
    decreases obj, 2
  {
    (if schema[c].base.Extends? then Attributes(schema, schema[c].base.index, obj.base.value) else [])
    + AttributeBlocks(schema, c, obj, |schema[c].attributes|)
  }

  function TextOf(schema: Schema, c: nat, obj: Object): Option<string>
    requires HasShape(schema, c, obj)
    decreases obj, 2
  {
    match schema[c].base
    case Extends(b) => TextOf(schema, b, obj.base.value)
    case Wraps(t) => Some(SimpleTypes.Serialize(t, obj.value))
    case NoBase => None
  }

  predicate MainQualified(schema: Schema, c: nat, obj: Object)
    requires HasShape(schema, c, obj)
    decreases obj, 2
  {
    (schema[c].elements != [] && schema[c].elements[0].qualified)
    || (schema[c].base.Extends? && MainQualified(schema, schema[c].base.index, obj.base.value))
  }

  /** The KDSoapValue of an object, called `name`. */
  function Written(schema: Schema, c: nat, obj: Object, name: string): SoapValue.Value
    requires HasShape(schema, c, obj)
    decreases obj, 3
  {
    SoapValue.NewValue(name, TextOf(schema, c, obj)).(
      children := Kids(schema, c, obj), attrs := Attributes(schema, c, obj), qualified := MainQualified(schema, c, obj))
  }

  // ----- running the generated serialize() gives that value -----

  lemma {:induction false} RunMarshalAppend(classes: seq<Class>, c: nat, a: seq<Marshal>, b: seq<Marshal>, obj: Object, name: string, st: Marshalling)
    requires c < |classes|
    ensures RunMarshal(classes, c, a + b, obj, name, st) == RunMarshal(classes, c, b, obj, name, RunMarshal(classes, c, a, obj, name, st))
    decreases |b|
  {
    hide RunStatement;
    if b == [] {
      assert a + b == a;
    } else {
      var n := |b| - 1;
      assert (a + b)[..|a + b| - 1] == a + b[..n] && (a + b)[|a + b| - 1] == b[n];
      RunMarshalAppend(classes, c, a, b[..n], obj, name, st);
      SamePosition(classes, c, b[n], obj, name, RunMarshal(classes, c, a + b[..n], obj, name, st), |a + b| - 1, n);
    }
  }

  /** Where a statement stands does not matter. */
  lemma SamePosition(classes: seq<Class>, c: nat, stmt: Marshal, obj: Object, name: string, st: Marshalling, p: nat, q: nat)
    requires c < |classes|
    ensures RunStatement(classes, c, stmt, obj, name, st, p) == RunStatement(classes, c, stmt, obj, name, st, q)
  {
  }

  lemma RunOneStatement(classes: seq<Class>, c: nat, stmt: Marshal, obj: Object, name: string, st: Marshalling)
    requires c < |classes|
    ensures RunMarshal(classes, c, [stmt], obj, name, st) == RunStatement(classes, c, stmt, obj, name, st, 0)
  {
    hide RunStatement;
    assert [stmt][..0] == [];
  }

  /** The value an item's Serialize statement leaves in the temporary. */
  function Temp(classes: seq<Class>, c: nat, local: Local, arrow: bool, name: string, obj: Object, at: Option<Item>): Option<SoapValue.Value>
    requires c < |classes|
    requires at.Some? && at.value.Nested? ==> at.value.obj < obj
  {
    RunOp(classes, c, Op.Serialize(local, arrow, name), obj, at, Marshalling(SoapValue.NewValue("", None), [], None), 0).temp
  }

  function Appended(st: Marshalling, v: SoapValue.Value, output: Output): Marshalling {
    if output.Args? then st.(main := st.main.(children := st.main.children + [v]), temp := Some(v))
    else st.(attribs := st.attribs + [AsAttribute(v)], temp := Some(v))
  }

  lemma RunOpsSnoc(classes: seq<Class>, c: nat, ops: seq<Op>, op: Op, obj: Object, at: Option<Item>, st: Marshalling)
    requires c < |classes|
    requires at.Some? && at.value.Nested? ==> at.value.obj < obj
    ensures RunOps(classes, c, ops + [op], obj, at, st) == RunOp(classes, c, op, obj, at, RunOps(classes, c, ops, obj, at, st), |ops|)
  {
    hide RunOp;
    assert (ops + [op])[..|ops|] == ops;
  }

  /** The statements of one item append its value, dressed, to the output. */
  lemma RunItemOps(classes: seq<Class>, c: nat, local: Local, arrow: bool, name: string, ns: string, qualified: bool, nillable: bool,
                   output: Output, obj: Object, at: Option<Item>, st: Marshalling)
    requires c < |classes|
    requires at.Some? && at.value.Nested? ==> at.value.obj < obj
    requires Temp(classes, c, local, arrow, name, obj, at).Some?
    ensures RunOps(classes, c, ItemOps(local, arrow, name, ns, qualified, nillable, output), obj, at, st)
         == Appended(st, Dressed(Temp(classes, c, local, arrow, name, obj, at).value, ns, qualified, nillable), output)
  {
    hide RunOps, RunOp, Temp;
    var v := Temp(classes, c, local, arrow, name, obj, at).value;
    var none: seq<Op> := [];
    RunNoOps(classes, c, obj, at, st);
    RunOpsSnoc(classes, c, none, Op.Serialize(local, arrow, name), obj, at, st);
    var ops := none + [Op.Serialize(local, arrow, name)];
    RunSerializeOp(classes, c, local, arrow, name, obj, at, st, 0);
    RunOpsSnoc(classes, c, ops, SetNamespaceUri(ns), obj, at, st);
    RunSetter(classes, c, SetNamespaceUri(ns), obj, at, st.(temp := Some(v)), |ops|);
    ops, v := ops + [SetNamespaceUri(ns)], v.(ns := ns);
    if qualified {
      RunOpsSnoc(classes, c, ops, SetQualified, obj, at, st);
      RunSetter(classes, c, SetQualified, obj, at, st.(temp := Some(v)), |ops|);
      ops, v := ops + [SetQualified], v.(qualified := true);
    }
    if nillable {
      RunOpsSnoc(classes, c, ops, SetNillable, obj, at, st);
      RunSetter(classes, c, SetNillable, obj, at, st.(temp := Some(v)), |ops|);
      ops, v := ops + [SetNillable], v.(nillable := true);
    }
    assert RunOps(classes, c, ops, obj, at, st) == st.(temp := Some(v));
    RunOpsSnoc(classes, c, ops, Append(output), obj, at, st);
    RunSetter(classes, c, Append(output), obj, at, st.(temp := Some(v)), |ops|);
    assert ops + [Append(output)] == ItemOps(local, arrow, name, ns, qualified, nillable, output);
  }

  lemma RunNoOps(classes: seq<Class>, c: nat, obj: Object, at: Option<Item>, st: Marshalling)
    requires c < |classes|
    requires at.Some? && at.value.Nested? ==> at.value.obj < obj
    ensures RunOps(classes, c, [], obj, at, st) == st
  {
  }

  lemma RunSerializeOp(classes: seq<Class>, c: nat, local: Local, arrow: bool, name: string, obj: Object, at: Option<Item>, st: Marshalling, p: nat)
    requires c < |classes|
    requires at.Some? && at.value.Nested? ==> at.value.obj < obj
    ensures RunOp(classes, c, Op.Serialize(local, arrow, name), obj, at, st, p) == st.(temp := Temp(classes, c, local, arrow, name, obj, at))
  {
    hide Target, HasType, SimpleTypes.Serialize, RunSerialize;
  }

  lemma RunSetter(classes: seq<Class>, c: nat, op: Op, obj: Object, at: Option<Item>, st: Marshalling, p: nat)
    requires c < |classes| && !op.Serialize? && st.temp.Some?
    requires at.Some? && at.value.Nested? ==> at.value.obj < obj
    ensures RunOp(classes, c, op, obj, at, st, p) ==
            match op
            case AssignTo(_) => st
            case Append(output) => Appended(st, st.temp.value, output)
            case SetNamespaceUri(ns) => st.(temp := Some(st.temp.value.(ns := ns)))
            case SetQualified => st.(temp := Some(st.temp.value.(qualified := true)))
            case SetNillable => st.(temp := Some(st.temp.value.(nillable := true)))
            case Serialize(_, _, _) => st
  {
  }

  lemma {:induction false} ItemMeaning(schema: Schema, c: nat, obj: Object, local: Local, arrow: bool, name: string, at: Option<Item>, item: Item)
    requires WellFormed(schema) && c < |schema|
    requires at.Some? && at.value.Nested? ==> at.value.obj < obj
    requires Target(Members(schema, c), obj, local, arrow, at) == Some(item)
    requires local.field < |Members(schema, c)| && ItemShape(schema, Members(schema, c)[local.field].typ, item)
    ensures Temp(Compile(schema), c, local, arrow, name, obj, at)
         == Some(ItemValue(schema, Members(schema, c)[local.field].typ, item, name))
    decreases if item.Nested? then item.obj else obj, if item.Nested? then 21 else 1
  {
    hide Target, RunSerialize, Members, Written, HasShape, HasType, SimpleTypes.Serialize;
    if item.Nested? {
      MarshalMeaning(schema, Members(schema, c)[local.field].typ.index, item.obj, name);
    }
  }

  /** One item's statements, with its value known. */
  lemma {:induction false} ItemWritten(schema: Schema, c: nat, obj: Object, local: Local, arrow: bool, name: string, ns: string, qualified: bool,
                                       nillable: bool, output: Output, at: Option<Item>, item: Item, st: Marshalling)
    requires WellFormed(schema) && c < |schema|
    requires at.Some? && at.value.Nested? ==> at.value.obj < obj
    requires Target(Members(schema, c), obj, local, arrow, at) == Some(item)
    requires local.field < |Members(schema, c)| && ItemShape(schema, Members(schema, c)[local.field].typ, item)
    ensures RunOps(Compile(schema), c, ItemOps(local, arrow, name, ns, qualified, nillable, output), obj, at, st)
         == Appended(st, Dressed(ItemValue(schema, Members(schema, c)[local.field].typ, item, name), ns, qualified, nillable), output)
    decreases if item.Nested? then item.obj else obj, if item.Nested? then 22 else 2
  {
    hide Target, Members, ItemValue, ItemShape, RunOps, ItemOps, Temp, Compile;
    ItemMeaning(schema, c, obj, local, arrow, name, at, item);
    RunItemOps(Compile(schema), c, local, arrow, name, ns, qualified, nillable, output, obj, at, st);
  }

  lemma {:induction false} EachMeaning(schema: Schema, c: nat, obj: Object, f: nat, arrow: bool, name: string, ns: string, qualified: bool,
                                       nillable: bool, items: seq<Item>, st: Marshalling)
    requires WellFormed(schema) && c < |schema| && f < |Members(schema, c)| && f < |obj.fields| && Inside(items, obj)
    requires Members(schema, c)[f].storage == InList(arrow)
    requires forall i :: 0 <= i < |items| ==> ItemShape(schema, Members(schema, c)[f].typ, items[i])
    ensures var r := RunEach(Compile(schema), c, ItemOps(VarAt(f), arrow, name, ns, qualified, nillable, Args), items, obj, st);
            && r.main == st.main.(children := st.main.children + ItemValues(schema, Members(schema, c)[f].typ, items, name, ns, qualified, nillable))
            && r.attribs == st.attribs
    decreases obj, 3, |items|
  {
    hide Members, ItemValue, ItemShape, RunOps, ItemOps, Compile, Dressed;
    if items == [] {
      assert st.main.children + [] == st.main.children;
    } else {
      var n := |items| - 1;
      EachMeaning(schema, c, obj, f, arrow, name, ns, qualified, nillable, items[..n], st);
      var before := RunEach(Compile(schema), c, ItemOps(VarAt(f), arrow, name, ns, qualified, nillable, Args), items[..n], obj, st);
      ItemWritten(schema, c, obj, VarAt(f), arrow, name, ns, qualified, nillable, Args, Some(items[n]), items[n], before);
      var values := ItemValues(schema, Members(schema, c)[f].typ, items[..n], name, ns, qualified, nillable);
      var v := Dressed(ItemValue(schema, Members(schema, c)[f].typ, items[n], name), ns, qualified, nillable);
      assert st.main.children + values + [v] == st.main.children + (values + [v]);
    }
  }

  lemma SlotHasShape(schema: Schema, c: nat, obj: Object, i: nat)
    requires HasShape(schema, c, obj) && i < |obj.fields|
    ensures |Members(schema, c)| == |obj.fields| == |schema[c].elements| + |schema[c].attributes|
    ensures SlotShape(schema, Members(schema, c)[i], MayBeUnset(schema[c], i), obj.fields[i])
  {
  }

  /** What an element's declaration says of the statement emitted for it. */
  lemma ElementStatement(schema: Schema, c: nat, i: nat)
    requires c < |schema| && i < |schema[c].elements| && WellFormed(schema)
    ensures var t := schema[c];
            var e, m := t.elements[i], Members(schema, c)[i];
            ElementMarshal(schema, c, i) ==
              match m.storage
              case InList(pointers) =>
                ForEach(i, ItemOps(VarAt(i), pointers, if t.arrayOf.Some? then "item" else e.name, e.ns, e.qualified,
                                   e.nillable && (t.arrayOf.Some? || !IsRepeated(e)), Args))
              case ByPointer =>
                var ops := ItemOps(Var(i), true, e.name, e.ns, e.qualified, e.nillable, Args);
                if IsOptional(e) then IfPointer(i, ops) else Do(ops)
              case ByValue =>
                var ops := ItemOps(Var(i), false, e.name, e.ns, e.qualified, e.nillable, Args);
                if IsOptional(e) then IfNotNil(i, ops) else Do(ops)
    ensures !Members(schema, c)[i].storage.InList? ==> schema[c].arrayOf.None? && !IsRepeated(schema[c].elements[i])
  {
    hide ItemOps, WellFormed;
  }

  lemma {:induction false} ElementList(schema: Schema, c: nat, obj: Object, name: string, i: nat, st: Marshalling, p: nat)
    requires WellFormed(schema) && HasShape(schema, c, obj) && i < |schema[c].elements| && obj.fields[i].List?
    ensures var r := RunStatement(Compile(schema), c, ElementMarshal(schema, c, i), obj, name, st, p);
            && r.main == st.main.(children := st.main.children + ElementBlock(schema, c, obj, i)) && r.attribs == st.attribs
    decreases obj, 4, 0
  {
    hide HasShape, ItemOps, RunEach, Compile, WellFormed, ItemValues, ItemShape, ElementMarshal, Members;
    var t, m, items := schema[c], Members(schema, c)[i], obj.fields[i].items;
    var e := t.elements[i];
    SlotHasShape(schema, c, obj, i);
    ElementStatement(schema, c, i);
    EachMeaning(schema, c, obj, i, m.storage.pointers, if t.arrayOf.Some? then "item" else e.name, e.ns, e.qualified,
                e.nillable && (t.arrayOf.Some? || !IsRepeated(e)), items, st);
  }

  lemma {:induction false} ElementByValue(schema: Schema, c: nat, obj: Object, name: string, i: nat, st: Marshalling, p: nat)
    requires WellFormed(schema) && HasShape(schema, c, obj) && i < |schema[c].elements| && obj.fields[i].Member?
    ensures var r := RunStatement(Compile(schema), c, ElementMarshal(schema, c, i), obj, name, st, p);
            && r.main == st.main.(children := st.main.children + ElementBlock(schema, c, obj, i)) && r.attribs == st.attribs
    decreases obj, 4, 0
  {
    hide HasShape, ItemOps, RunOps, Compile, WellFormed, ItemValue, ItemShape, Dressed, ElementMarshal, Members;
    var e, slot := schema[c].elements[i], obj.fields[i];
    SlotHasShape(schema, c, obj, i);
    ElementStatement(schema, c, i);
    if slot.isNil {
      assert st.main.children + [] == st.main.children;
    } else {
      ItemWritten(schema, c, obj, Var(i), false, e.name, e.ns, e.qualified, e.nillable, Args, None, slot.item, st);
    }
  }

  lemma {:induction false} ElementByPointer(schema: Schema, c: nat, obj: Object, name: string, i: nat, st: Marshalling, p: nat)
    requires WellFormed(schema) && HasShape(schema, c, obj) && i < |schema[c].elements| && obj.fields[i].Pointer?
    ensures var r := RunStatement(Compile(schema), c, ElementMarshal(schema, c, i), obj, name, st, p);
            && r.main == st.main.(children := st.main.children + ElementBlock(schema, c, obj, i)) && r.attribs == st.attribs
    decreases obj, 4, 0
  {
    hide HasShape, ItemOps, RunOps, Compile, WellFormed, Written, Dressed, ElementMarshal, Members;
    var e, target := schema[c].elements[i], obj.fields[i].target;
    SlotHasShape(schema, c, obj, i);
    ElementStatement(schema, c, i);
    if target.None? {
      assert st.main.children + [] == st.main.children;
    } else {
      ItemWritten(schema, c, obj, Var(i), true, e.name, e.ns, e.qualified, e.nillable, Args, None, Nested(target.value), st);
    }
  }

  /** The statement of one element appends that element's values. */
  lemma {:induction false} ElementMeaning(schema: Schema, c: nat, obj: Object, name: string, i: nat, st: Marshalling, p: nat)
    requires WellFormed(schema) && HasShape(schema, c, obj) && i < |schema[c].elements|
    ensures var r := RunStatement(Compile(schema), c, ElementMarshal(schema, c, i), obj, name, st, p);
            && r.main == st.main.(children := st.main.children + ElementBlock(schema, c, obj, i)) && r.attribs == st.attribs
    decreases obj, 4, 1
  {
    hide *;
    match obj.fields[i]
    case List(_, _) => ElementList(schema, c, obj, name, i, st, p);
    case Member(_, _) => ElementByValue(schema, c, obj, name, i, st, p);
    case Pointer(_) => ElementByPointer(schema, c, obj, name, i, st, p);
  }

  lemma {:induction false} ElementsMeaning(schema: Schema, c: nat, obj: Object, name: string, n: nat, st: Marshalling)
    requires WellFormed(schema) && HasShape(schema, c, obj) && n <= |schema[c].elements|
    ensures var r := RunMarshal(Compile(schema), c, ElementMarshals(schema, c, n), obj, name, st);
            && r.main == st.main.(children := st.main.children + ElementBlocks(schema, c, obj, n)) && r.attribs == st.attribs
    decreases obj, 5, n
  {
    hide HasShape, WellFormed, RunStatement, ElementMarshal, ElementBlock;
    if n == 0 {
      assert st.main.children + [] == st.main.children;
    } else {
      ElementsMeaning(schema, c, obj, name, n - 1, st);
      var code, stmt := ElementMarshals(schema, c, n - 1), ElementMarshal(schema, c, n - 1);
      var before := RunMarshal(Compile(schema), c, code, obj, name, st);
      RunMarshalAppend(Compile(schema), c, code, [stmt], obj, name, st);
      RunOneStatement(Compile(schema), c, stmt, obj, name, before);
      ElementMeaning(schema, c, obj, name, n - 1, before, 0);
      assert st.main.children + ElementBlocks(schema, c, obj, n - 1) + ElementBlock(schema, c, obj, n - 1)
          == st.main.children + ElementBlocks(schema, c, obj, n);
    }
  }

  lemma AttributeMeaning(schema: Schema, c: nat, obj: Object, name: string, i: nat, st: Marshalling)
    requires WellFormed(schema) && HasShape(schema, c, obj) && i < |schema[c].attributes|
    ensures var r := RunMarshal(Compile(schema), c, AttributeMarshal(schema, c, i), obj, name, st);
            && r.attribs == st.attribs + AttributeBlock(schema, c, obj, i) && r.main == st.main
    decreases obj, 4
  {
    hide HasShape, ItemOps, RunOps, Compile, RunMarshal, Dressed, Members;
    var f := |schema[c].elements| + i;
    var a, slot := schema[c].attributes[i], obj.fields[f];
    SlotHasShape(schema, c, obj, f);
    assert Members(schema, c)[f] == AttributeMember(a);
    assert WellFormedType(schema, c);
    RunOneStatement(Compile(schema), c, AttributeMarshal(schema, c, i)[0], obj, name, st);
    assert AttributeMarshal(schema, c, i) == [AttributeMarshal(schema, c, i)[0]];
    if slot.isNil {
      assert st.attribs + [] == st.attribs;
    } else {
      ItemWritten(schema, c, obj, Var(f), false, a.name, a.ns, a.qualified, false, Attribs, None, slot.item, st);
      DressedAttribute(a, slot.item.data);
    }
  }

  lemma DressedAttribute(a: AttributeDecl, d: Data)
    requires HasType(a.typ, d)
    ensures var text := SimpleTypes.Serialize(a.typ, d);
            AsAttribute(Dressed(SoapValue.NewValue(a.name, Some(text)), a.ns, a.qualified, false)) == SoapValue.Attribute(a.name, a.ns, text, a.qualified)
  {
  }

  lemma {:induction false} AttributesMeaning(schema: Schema, c: nat, obj: Object, name: string, n: nat, st: Marshalling)
    requires WellFormed(schema) && HasShape(schema, c, obj) && n <= |schema[c].attributes|
    ensures var r := RunMarshal(Compile(schema), c, AttributeMarshals(schema, c, n), obj, name, st);
            && r.attribs == st.attribs + AttributeBlocks(schema, c, obj, n) && r.main == st.main
    decreases obj, 5, n
  {
    hide HasShape, WellFormed, RunStatement, AttributeMarshal, AttributeBlock;
    if n == 0 {
      assert st.attribs + [] == st.attribs;
    } else {
      AttributesMeaning(schema, c, obj, name, n - 1, st);
      var code := AttributeMarshals(schema, c, n - 1);
      var before := RunMarshal(Compile(schema), c, code, obj, name, st);
      RunMarshalAppend(Compile(schema), c, code, AttributeMarshal(schema, c, n - 1), obj, name, st);
      AttributeMeaning(schema, c, obj, name, n - 1, before);
      assert st.attribs + AttributeBlocks(schema, c, obj, n - 1) + AttributeBlock(schema, c, obj, n - 1)
          == st.attribs + AttributeBlocks(schema, c, obj, n);
    }
  }

  /** The value an object starts from: that of its base part, or the one it wraps. */
  lemma {:induction false} InitMeaning(schema: Schema, c: nat, obj: Object, name: string, st: Marshalling, p: nat)
    requires WellFormed(schema) && HasShape(schema, c, obj)
    ensures var base := schema[c].base;
            var r := RunStatement(Compile(schema), c, InitCode(schema[c]), obj, name, st, p);
            && r == st.(main := if base.Extends? then Written(schema, base.index, obj.base.value, name)
                                else SoapValue.NewValue(name, TextOf(schema, c, obj)))
    decreases obj, 7
  {
    assert WellFormedType(schema, c);
    if schema[c].base.Extends? {
      MarshalMeaning(schema, schema[c].base.index, obj.base.value, name);
    }
  }

  /** For every well-formed schema and object: the emitted serialize() produces exactly the object's value. */
  lemma {:induction false} MarshalMeaning(schema: Schema, c: nat, obj: Object, name: string)
    requires WellFormed(schema) && HasShape(schema, c, obj)
    ensures RunSerialize(Compile(schema), c, obj, name) == Written(schema, c, obj, name)
    decreases obj, 20
  {
    hide HasShape, WellFormed, RunStatement, RunMarshal, InitCode, ElementMarshals, AttributeMarshals, ElementBlocks, AttributeBlocks;
    var classes, t := Compile(schema), schema[c];
    var start := Marshalling(SoapValue.NewValue(name, None), [], None);
    var init, quali := [InitCode(t)], if t.elements != [] && t.elements[0].qualified then [SetMainQualified] else [];
    var elements := ElementMarshals(schema, c, |t.elements|);
    var attributes := if t.attributes == [] then [] else AttributeMarshals(schema, c, |t.attributes|) + [JoinAttribs];
    assert classes[c].serialize == init + quali + elements + attributes;
    RunMarshalAppend(classes, c, init + quali + elements, attributes, obj, name, start);
    RunMarshalAppend(classes, c, init + quali, elements, obj, name, start);
    RunMarshalAppend(classes, c, init, quali, obj, name, start);
    RunOneStatement(classes, c, InitCode(t), obj, name, start);
    InitMeaning(schema, c, obj, name, start, 0);
    var st0 := RunMarshal(classes, c, init, obj, name, start);
    var st1 := RunMarshal(classes, c, quali, obj, name, st0);
    QualifiedMeaning(classes, c, quali, obj, name, st0);
    ElementsMeaning(schema, c, obj, name, |t.elements|, st1);
    var st2 := RunMarshal(classes, c, elements, obj, name, st1);
    JoinMeaning(schema, c, obj, name, st2);
  }

  lemma QualifiedMeaning(classes: seq<Class>, c: nat, quali: seq<Marshal>, obj: Object, name: string, st: Marshalling)
    requires c < |classes| && (quali == [] || quali == [SetMainQualified])
    ensures RunMarshal(classes, c, quali, obj, name, st)
         == if quali == [] then st else st.(main := st.main.(qualified := true))
  {
    if quali != [] {
      RunOneStatement(classes, c, SetMainQualified, obj, name, st);
    }
  }

  lemma JoinMeaning(schema: Schema, c: nat, obj: Object, name: string, st: Marshalling)
    requires WellFormed(schema) && HasShape(schema, c, obj) && st.attribs == []
    ensures var t := schema[c];
            var code := if t.attributes == [] then [] else AttributeMarshals(schema, c, |t.attributes|) + [JoinAttribs];
            RunMarshal(Compile(schema), c, code, obj, name, st).main
              == st.main.(attrs := st.main.attrs + AttributeBlocks(schema, c, obj, |t.attributes|))
    decreases obj, 6
  {
    hide HasShape, WellFormed, AttributeMarshals, Compile;
    var t := schema[c];
    if t.attributes == [] {
      assert st.main.attrs + [] == st.main.attrs;
    } else {
      var code := AttributeMarshals(schema, c, |t.attributes|);
      AttributesMeaning(schema, c, obj, name, |t.attributes|, st);
      var before := RunMarshal(Compile(schema), c, code, obj, name, st);
      RunMarshalAppend(Compile(schema), c, code, [JoinAttribs], obj, name, st);
      RunOneStatement(Compile(schema), c, JoinAttribs, obj, name, before);
      assert [] + AttributeBlocks(schema, c, obj, |t.attributes|) == AttributeBlocks(schema, c, obj, |t.attributes|);
    }
  }
}
