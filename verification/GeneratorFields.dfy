/**
 What a schema's declarations mean for the generated classes, on the fields of the declarations: when a variable is a
 list, a pointer or optional, and which children and attributes serialize() writes for it.
 */
module GeneratorFields {
  import opened GeneratedCode
  import opened Generator
  import opened GeneratorMeaning
  import opened SimpleTypes
  import opened Wrappers
  import SoapValue

  /** A document may do without the element: it is one of a choice, or it or its group may occur no times. */
  predicate CanBeAbsent(e: Element) {
    e.inChoice || e.minOccurs == 0 || e.compositorMin == 0
  }

  predicate CanRepeat(e: Element) {
    e.maxOccurs > 1 || e.compositorMax > 1
  }

  predicate Unset(slot: Slot) {
    match slot
    case Member(isNil, _) => isNil
    case Pointer(target) => target.None?
    case List(_, items) => items == []
  }

  /** The variable with nothing set in it. */
  function Cleared(slot: Slot): Slot {
    match slot
    case Member(_, item) => Member(true, item)
    case Pointer(_) => Pointer(None)
    case List(isNil, _) => List(isNil, [])
  }

  /** How many values a variable holds. */
  function Held(slot: Slot): nat {
    match slot
    case Member(isNil, _) => if isNil then 0 else 1
    case Pointer(target) => if target.None? then 0 else 1
    case List(_, items) => |items|
  }

  // ----- variables -----

  /**
   The member variable of an element: a list exactly when the element or its group can repeat; otherwise a pointer exactly
   when its type has derived types, or is the class itself and the element can be absent. A new object has it unset
   exactly when the element can be absent, and an empty list in any case.
   */
  lemma VariableOfElement(schema: Schema, c: nat, i: nat)
    requires WellFormed(schema) && c < |schema| && schema[c].arrayOf.None? && i < |schema[c].elements|
    ensures var e := schema[c].elements[i];
            var m := Compile(schema)[c].members[i];
            var polymorphic := e.typ.Complex? && e.typ.index < |schema| && schema[e.typ.index].polymorphic;
            && m.typ == e.typ
            && (CanRepeat(e) ==> m.storage == InList(polymorphic))
            && (!CanRepeat(e) ==>
                  m.storage == if polymorphic || (e.typ == Complex(c) && CanBeAbsent(e)) then ByPointer else ByValue)
    ensures var e := schema[c].elements[i];
            var slot := Fresh(Compile(schema), c).fields[i];
            if CanRepeat(e) then slot == List(CanBeAbsent(e), []) else (Unset(slot) <==> CanBeAbsent(e))
  {
    hide SlotShape, MarshalCode, DemarshalCode, WellFormedType;
    ElementIsConstructible(schema, c, i);
  }

  lemma ElementIsConstructible(schema: Schema, c: nat, i: nat)
    requires WellFormed(schema) && c < |schema| && i < |schema[c].elements|
    ensures Constructible(schema, c, schema[c].elements[i])
  {
    assert WellFormedType(schema, c);
  }

  lemma VariableOfAttribute(schema: Schema, c: nat, i: nat)
    requires c < |schema| && i < |schema[c].attributes|
    ensures var a, f := schema[c].attributes[i], |schema[c].elements| + i;
            && Compile(schema)[c].members[f].typ == Simple(a.typ) && Compile(schema)[c].members[f].storage == ByValue
            && Fresh(Compile(schema), c).fields[f] == Member(a.use != Required, Leaf(Initial(a.typ)))
  {
  }

  /** An object may have a variable unset exactly when it is a list, or its element can be absent. */
  lemma UnsetIsAllowed(schema: Schema, c: nat, obj: Object, i: nat)
    requires HasShape(schema, c, obj) && schema[c].arrayOf.None? && i < |schema[c].elements|
    ensures var e := schema[c].elements[i];
            HasShape(schema, c, obj.(fields := obj.fields[i := Cleared(obj.fields[i])])) <==> CanRepeat(e) || CanBeAbsent(e)
  {
    SlotHasShape(schema, c, obj, i);
    var changed := obj.(fields := obj.fields[i := Cleared(obj.fields[i])]);
    var e := schema[c].elements[i];
    if CanRepeat(e) || CanBeAbsent(e) {
      forall k | 0 <= k < |changed.fields|
        ensures SlotShape(schema, Members(schema, c)[k], MayBeUnset(schema[c], k), changed.fields[k])
      {
        SlotHasShape(schema, c, obj, k);
      }
    } else if HasShape(schema, c, changed) {
      SlotHasShape(schema, c, changed, i);
    }
  }

  // ----- children -----

  /** The values called `name`, in order. */
  function Called(vs: seq<SoapValue.Value>, name: string): seq<SoapValue.Value> {
    if vs == [] then []
    else
      var n := |vs| - 1;
      Called(vs[..n], name) + if vs[n].name == name then [vs[n]] else []
  }

  lemma CalledSnoc(vs: seq<SoapValue.Value>, v: SoapValue.Value, name: string)
    ensures Called(vs + [v], name) == Called(vs, name) + if v.name == name then [v] else []
  {
    assert (vs + [v])[..|vs|] == vs;
  }

  lemma {:induction false} CalledAppend(a: seq<SoapValue.Value>, b: seq<SoapValue.Value>, name: string)
    ensures Called(a + b, name) == Called(a, name) + Called(b, name)
    decreases |b|
  {
    if b == [] {
      assert a + b == a;
    } else {
      hide Called;
      var front, v := b[..|b| - 1], b[|b| - 1];
      assert a + b == (a + front) + [v] && b == front + [v];
      CalledSnoc(a + front, v, name);
      CalledSnoc(front, v, name);
      CalledAppend(a, front, name);
    }
  }

  lemma {:induction false} AllCalled(vs: seq<SoapValue.Value>, name: string)
    requires forall v :: v in vs ==> v.name == name
    ensures Called(vs, name) == vs
    decreases |vs|
  {
    if vs != [] {
      hide Called;
      var front, v := vs[..|vs| - 1], vs[|vs| - 1];
      assert vs == front + [v] && v in vs;
      CalledSnoc(front, v, name);
      AllCalled(front, name);
    }
  }

  lemma {:induction false} NoneCalled(vs: seq<SoapValue.Value>, name: string)
    requires forall v :: v in vs ==> v.name != name
    ensures Called(vs, name) == []
    decreases |vs|
  {
    if vs != [] {
      hide Called;
      var front, v := vs[..|vs| - 1], vs[|vs| - 1];
      assert vs == front + [v] && v in vs;
      CalledSnoc(front, v, name);
      NoneCalled(front, name);
    }
  }

  /** What a child says about the element it is written for; the text is that of a simple value. */
  predicate IsChildOf(e: Element, item: Item, v: SoapValue.Value) {
    && v.name == e.name && v.ns == e.ns
    && (e.qualified ==> v.qualified)
    && v.nillable == (e.nillable && !CanRepeat(e))
    && (e.typ.Simple? && item.Leaf? && HasType(e.typ.simple, item.data) ==>
          v.text == Some(SimpleTypes.Serialize(e.typ.simple, item.data)) && v.qualified == e.qualified)
  }

  /** The items a variable holds. */
  function ItemsOf(slot: Slot): (items: seq<Item>)
    ensures |items| == Held(slot)
  {
    match slot
    case Member(isNil, item) => if isNil then [] else [item]
    case Pointer(target) => if target.None? then [] else [Nested(target.value)]
    case List(_, items) => items
  }

  lemma {:induction false} ItemValuesAre(schema: Schema, e: Element, items: seq<Item>, nillable: bool)
    requires forall i :: 0 <= i < |items| ==> ItemShape(schema, e.typ, items[i])
    requires nillable == (e.nillable && !CanRepeat(e))
    ensures var vs := ItemValues(schema, e.typ, items, e.name, e.ns, e.qualified, nillable);
            |vs| == |items| && forall i :: 0 <= i < |vs| ==> IsChildOf(e, items[i], vs[i])
    decreases |items|
  {
    hide IsChildOf;
    if items != [] {
      var n := |items| - 1;
      ItemValuesAre(schema, e, items[..n], nillable);
      ItemValueIs(schema, e, items[n], nillable);
    }
  }

  lemma ItemValueIs(schema: Schema, e: Element, item: Item, nillable: bool)
    requires ItemShape(schema, e.typ, item) && nillable == (e.nillable && !CanRepeat(e))
    ensures IsChildOf(e, item, Dressed(ItemValue(schema, e.typ, item, e.name), e.ns, e.qualified, nillable))
  {
    hide HasShape, Kids, Attributes, MainQualified, TextOf;
  }

  lemma NestedValue(schema: Schema, typ: TypeRef, o: Object, name: string)
    requires typ.Complex? && HasShape(schema, typ.index, o)
    ensures ItemShape(schema, typ, Nested(o)) && ItemValue(schema, typ, Nested(o), name) == Written(schema, typ.index, o, name)
  {
  }

  lemma BlockIs(schema: Schema, c: nat, obj: Object, i: nat)
    requires WellFormed(schema) && HasShape(schema, c, obj) && schema[c].arrayOf.None? && i < |schema[c].elements|
    ensures var vs, items := ElementBlock(schema, c, obj, i), ItemsOf(obj.fields[i]);
            |vs| == |items| && forall k :: 0 <= k < |vs| ==> IsChildOf(schema[c].elements[i], items[k], vs[k])
  {
    hide HasShape, IsChildOf, ItemValue, WellFormed;
    SlotHasShape(schema, c, obj, i);
    var e, slot := schema[c].elements[i], obj.fields[i];
    VariableOfElement(schema, c, i);
    match slot
    case List(_, items) => ItemValuesAre(schema, e, items, false);
    case Member(isNil, item) =>
      if !isNil {
        ItemValueIs(schema, e, item, e.nillable);
      }
    case Pointer(target) =>
      if target.Some? {
        NestedValue(schema, e.typ, target.value, e.name);
        ItemValueIs(schema, e, Nested(target.value), e.nillable);
      }
  }

  /** Among the children of the first `n` elements, those of one element are its own. */
  lemma {:induction false} CalledInBlocks(schema: Schema, c: nat, obj: Object, n: nat, i: nat)
    requires WellFormed(schema) && HasShape(schema, c, obj) && schema[c].arrayOf.None?
    requires i < |schema[c].elements| && n <= |schema[c].elements|
    ensures Called(ElementBlocks(schema, c, obj, n), schema[c].elements[i].name) == if i < n then ElementBlock(schema, c, obj, i) else []
    decreases n
  {
    hide HasShape, WellFormed, ElementBlock, IsChildOf, Called;
    if n == 0 {
      NoneCalled([], schema[c].elements[i].name);
    } else {
      var name := schema[c].elements[i].name;
      CalledInBlocks(schema, c, obj, n - 1, i);
      CalledAppend(ElementBlocks(schema, c, obj, n - 1), ElementBlock(schema, c, obj, n - 1), name);
      BlockNames(schema, c, obj, n - 1);
      DistinctNames(schema, c, i, n - 1);
      if i == n - 1 {
        AllCalled(ElementBlock(schema, c, obj, i), name);
      } else {
        NoneCalled(ElementBlock(schema, c, obj, n - 1), name);
      }
    }
  }

  lemma DistinctNames(schema: Schema, c: nat, i: nat, j: nat)
    requires WellFormed(schema) && c < |schema| && i < |schema[c].elements| && j < |schema[c].elements|
    ensures schema[c].elements[i].name == schema[c].elements[j].name ==> i == j
  {
    assert WellFormedType(schema, c);
  }

  lemma BlockNames(schema: Schema, c: nat, obj: Object, i: nat)
    requires WellFormed(schema) && HasShape(schema, c, obj) && schema[c].arrayOf.None? && i < |schema[c].elements|
    ensures forall v :: v in ElementBlock(schema, c, obj, i) ==> v.name == schema[c].elements[i].name
  {
    hide HasShape, WellFormed, ElementBlock;
    BlockIs(schema, c, obj, i);
  }

  lemma {:induction false} BlocksNames(schema: Schema, c: nat, obj: Object, n: nat)
    requires WellFormed(schema) && HasShape(schema, c, obj) && schema[c].arrayOf.None? && n <= |schema[c].elements|
    ensures forall v :: v in ElementBlocks(schema, c, obj, n) ==> v.name in OwnElementNames(schema[c])
    decreases n
  {
    hide HasShape, WellFormed, ElementBlock;
    if n > 0 {
      BlocksNames(schema, c, obj, n - 1);
      BlockNames(schema, c, obj, n - 1);
      assert schema[c].elements[n - 1] in schema[c].elements;
    }
  }

  lemma {:induction false} KidsNames(schema: Schema, c: nat, obj: Object)
    requires WellFormed(schema) && HasShape(schema, c, obj) && schema[c].arrayOf.None?
    ensures forall v :: v in Kids(schema, c, obj) ==> v.name in ElementNames(schema, c)
    decreases c
  {
    hide ElementBlocks, OwnElementNames;
    assert WellFormedType(schema, c);
    BlocksNames(schema, c, obj, |schema[c].elements|);
    if schema[c].base.Extends? {
      KidsNames(schema, schema[c].base.index, obj.base.value);
    }
  }

  /**
   The children that the emitted serialize() writes under an element's name: one for each value its variable holds, in
   order, in the element's namespace, qualified and nillable as declared; none of a base class or of another element.
   */
  lemma ChildrenOfElement(schema: Schema, c: nat, obj: Object, name: string, i: nat)
    requires WellFormed(schema) && HasShape(schema, c, obj) && schema[c].arrayOf.None? && i < |schema[c].elements|
    ensures var e := schema[c].elements[i];
            var vs := Called(RunSerialize(Compile(schema), c, obj, name).children, e.name);
            && |vs| == Held(obj.fields[i])
            && forall k :: 0 <= k < |vs| ==> IsChildOf(e, ItemsOf(obj.fields[i])[k], vs[k])
  {
    hide HasShape, IsChildOf, ElementBlock, ElementBlocks, WellFormed, RunSerialize, Called, Held, ItemsOf;
    var e, n := schema[c].elements[i], |schema[c].elements|;
    MarshalMeaning(schema, c, obj, name);
    var own := ElementBlocks(schema, c, obj, n);
    var base := BaseKids(schema, c, obj);
    assert RunSerialize(Compile(schema), c, obj, name).children == base + own;
    CalledAppend(base, own, e.name);
    CalledInBlocks(schema, c, obj, n, i);
    NotInBase(schema, c, obj, i);
    NoneCalled(base, e.name);
    assert [] + ElementBlock(schema, c, obj, i) == ElementBlock(schema, c, obj, i);
    BlockIs(schema, c, obj, i);
  }

  function BaseKids(schema: Schema, c: nat, obj: Object): seq<SoapValue.Value>
    requires HasShape(schema, c, obj)
  {
    if schema[c].base.Extends? then Kids(schema, schema[c].base.index, obj.base.value) else []
  }

  lemma NotInBase(schema: Schema, c: nat, obj: Object, i: nat)
    requires WellFormed(schema) && HasShape(schema, c, obj) && i < |schema[c].elements|
    ensures forall v :: v in BaseKids(schema, c, obj) ==> v.name != schema[c].elements[i].name
  {
    hide Kids, ElementNames;
    assert WellFormedType(schema, c);
    assert schema[c].elements[i] in schema[c].elements;
    if schema[c].base.Extends? {
      KidsNames(schema, schema[c].base.index, obj.base.value);
    }
  }

  /** An element that can be absent and is not set writes nothing; so of a choice only what was chosen is written. */
  lemma AbsentIsNotWritten(schema: Schema, c: nat, obj: Object, name: string, i: nat)
    requires WellFormed(schema) && HasShape(schema, c, obj) && schema[c].arrayOf.None? && i < |schema[c].elements|
    requires var e := schema[c].elements[i]; e.inChoice || e.minOccurs == 0 || e.compositorMin == 0
    ensures var unset := obj.(fields := obj.fields[i := Cleared(obj.fields[i])]);
            && HasShape(schema, c, unset)
            && Called(RunSerialize(Compile(schema), c, unset, name).children, schema[c].elements[i].name) == []
  {
    hide HasShape, RunSerialize, Called, WellFormed;
    UnsetIsAllowed(schema, c, obj, i);
    SlotHasShape(schema, c, obj, i);
    ChildrenOfElement(schema, c, obj.(fields := obj.fields[i := Cleared(obj.fields[i])]), name, i);
  }

  /** An element that can neither be absent nor repeat is written once, whatever the object. */
  lemma RequiredIsWritten(schema: Schema, c: nat, obj: Object, name: string, i: nat)
    requires WellFormed(schema) && HasShape(schema, c, obj) && schema[c].arrayOf.None? && i < |schema[c].elements|
    requires var e := schema[c].elements[i]; !e.inChoice && e.minOccurs > 0 && e.compositorMin > 0 && e.maxOccurs <= 1 && e.compositorMax <= 1
    ensures |Called(RunSerialize(Compile(schema), c, obj, name).children, schema[c].elements[i].name)| == 1
  {
    hide HasShape, RunSerialize, Called, WellFormed;
    ChildrenOfElement(schema, c, obj, name, i);
    SlotHasShape(schema, c, obj, i);
    VariableOfElement(schema, c, i);
  }

  // ----- order, bases, arrays and attributes -----

  /** The names of the children, one for each value held, in the order of the elements. */
  function NamesWritten(t: ComplexType, obj: Object, n: nat): (names: seq<string>)
    requires n <= |t.elements| && |obj.fields| >= |t.elements|
    decreases n
  {
    if n == 0 then []
    else NamesWritten(t, obj, n - 1) + seq(Held(obj.fields[n - 1]), k => t.elements[n - 1].name)
  }

  function NamesOf(vs: seq<SoapValue.Value>): (names: seq<string>)
    ensures |names| == |vs| && forall i :: 0 <= i < |vs| ==> names[i] == vs[i].name
  {
    seq(|vs|, i requires 0 <= i < |vs| => vs[i].name)
  }

  lemma {:induction false} BlocksInOrder(schema: Schema, c: nat, obj: Object, n: nat)
    requires WellFormed(schema) && HasShape(schema, c, obj) && schema[c].arrayOf.None? && n <= |schema[c].elements|
    ensures NamesOf(ElementBlocks(schema, c, obj, n)) == NamesWritten(schema[c], obj, n)
    decreases n
  {
    hide HasShape, WellFormed, ElementBlock, Held, ItemsOf;
    if n > 0 {
      BlocksInOrder(schema, c, obj, n - 1);
      BlockIs(schema, c, obj, n - 1);
      BlockNames(schema, c, obj, n - 1);
      assert NamesOf(ElementBlocks(schema, c, obj, n)) == NamesOf(ElementBlocks(schema, c, obj, n - 1)) + NamesOf(ElementBlock(schema, c, obj, n - 1));
    }
  }

  /**
   The whole value of an object: what its base part writes comes first, children and attributes alike; then the children
   of its own elements in schema order. The text is that of the base part or of the simple value it wraps.
   */
  lemma ValueOfObject(schema: Schema, c: nat, obj: Object, name: string)
    requires WellFormed(schema) && HasShape(schema, c, obj) && schema[c].arrayOf.None?
    ensures var t, v := schema[c], RunSerialize(Compile(schema), c, obj, name);
            && v.name == name && v.ns == "" && !v.nillable
            && if t.base.Extends? then
                 var basePart := RunSerialize(Compile(schema), t.base.index, obj.base.value, name);
                 && basePart.children <= v.children && basePart.attrs <= v.attrs && v.text == basePart.text
                 && NamesOf(v.children[|basePart.children|..]) == NamesWritten(t, obj, |t.elements|)
                 && v.qualified == (basePart.qualified || (t.elements != [] && t.elements[0].qualified))
               else
                 && v.text == (if t.base.Wraps? then Some(SimpleTypes.Serialize(t.base.simple, obj.value)) else None)
                 && NamesOf(v.children) == NamesWritten(t, obj, |t.elements|)
                 && v.qualified == (t.elements != [] && t.elements[0].qualified)
  {
    hide HasShape, WellFormed, RunSerialize, ElementBlocks, AttributeBlocks, NamesWritten;
    MarshalMeaning(schema, c, obj, name);
    BlocksInOrder(schema, c, obj, |schema[c].elements|);
    ShapeOfBase(schema, c, obj);
    var own := ElementBlocks(schema, c, obj, |schema[c].elements|);
    if schema[c].base.Extends? {
      MarshalMeaning(schema, schema[c].base.index, obj.base.value, name);
      var base := Kids(schema, schema[c].base.index, obj.base.value);
      assert (base + own)[|base|..] == own;
    } else {
      assert [] + own == own;
    }
  }

  lemma ShapeOfBase(schema: Schema, c: nat, obj: Object)
    requires HasShape(schema, c, obj)
    ensures schema[c].base.Extends? ==> obj.base.Some? && HasShape(schema, schema[c].base.index, obj.base.value)
    ensures schema[c].base.Wraps? ==> HasType(schema[c].base.simple, obj.value)
  {
  }

  /** The attributes called `name`, in order. */
  function AttributesCalled(attrs: seq<SoapValue.Attribute>, name: string): seq<SoapValue.Attribute> {
    if attrs == [] then []
    else
      var n := |attrs| - 1;
      AttributesCalled(attrs[..n], name) + if attrs[n].name == name then [attrs[n]] else []
  }

  lemma AttributesCalledSnoc(attrs: seq<SoapValue.Attribute>, a: SoapValue.Attribute, name: string)
    ensures AttributesCalled(attrs + [a], name) == AttributesCalled(attrs, name) + if a.name == name then [a] else []
  {
    assert (attrs + [a])[..|attrs|] == attrs;
  }

  lemma {:induction false} AttributesCalledAppend(a: seq<SoapValue.Attribute>, b: seq<SoapValue.Attribute>, name: string)
    ensures AttributesCalled(a + b, name) == AttributesCalled(a, name) + AttributesCalled(b, name)
    decreases |b|
  {
    if b == [] {
      assert a + b == a;
    } else {
      hide AttributesCalled;
      var front, last := b[..|b| - 1], b[|b| - 1];
      assert a + b == (a + front) + [last] && b == front + [last];
      AttributesCalledSnoc(a + front, last, name);
      AttributesCalledSnoc(front, last, name);
      AttributesCalledAppend(a, front, name);
    }
  }

  lemma {:induction false} NoAttributesCalled(attrs: seq<SoapValue.Attribute>, name: string)
    requires forall a :: a in attrs ==> a.name != name
    ensures AttributesCalled(attrs, name) == []
    decreases |attrs|
  {
    if attrs != [] {
      hide AttributesCalled;
      var front, last := attrs[..|attrs| - 1], attrs[|attrs| - 1];
      assert attrs == front + [last] && last in attrs;
      AttributesCalledSnoc(front, last, name);
      NoAttributesCalled(front, name);
    }
  }

  /** What is written for one attribute declaration: nothing when it is unset, which a required one never is. */
  function OneAttribute(a: AttributeDecl, slot: Slot): seq<SoapValue.Attribute>
    requires slot.Member? && slot.item.Leaf? && HasType(a.typ, slot.item.data)
  {
    if slot.isNil then [] else [SoapValue.Attribute(a.name, a.ns, SimpleTypes.Serialize(a.typ, slot.item.data), a.qualified)]
  }

  lemma AttributeSlot(schema: Schema, c: nat, obj: Object, i: nat)
    requires HasShape(schema, c, obj) && i < |schema[c].attributes|
    ensures var a, slot := schema[c].attributes[i], obj.fields[|schema[c].elements| + i];
            slot.Member? && slot.item.Leaf? && HasType(a.typ, slot.item.data) && (slot.isNil ==> a.use != Required)
  {
    hide HasShape, ElementMember, HasType;
    SlotHasShape(schema, c, obj, |schema[c].elements| + i);
  }

  lemma AttributeBlockIs(schema: Schema, c: nat, obj: Object, i: nat)
    requires HasShape(schema, c, obj) && i < |schema[c].attributes|
    ensures var a, slot := schema[c].attributes[i], obj.fields[|schema[c].elements| + i];
            && slot.Member? && slot.item.Leaf? && HasType(a.typ, slot.item.data)
            && AttributeBlock(schema, c, obj, i) == OneAttribute(a, slot)
  {
    hide HasShape, ElementMember, HasType, SlotShape, Members, SimpleTypes.Serialize;
    AttributeSlot(schema, c, obj, i);
  }

  /** Among the attributes of the first `n` declarations, those of one declaration are its own. */
  lemma {:induction false} CalledInAttributeBlocks(schema: Schema, c: nat, obj: Object, n: nat, i: nat)
    requires WellFormed(schema) && HasShape(schema, c, obj) && i < |schema[c].attributes| && n <= |schema[c].attributes|
    ensures AttributesCalled(AttributeBlocks(schema, c, obj, n), schema[c].attributes[i].name)
         == if i < n then AttributeBlock(schema, c, obj, i) else []
    decreases n
  {
    hide HasShape, WellFormed, AttributeBlock, OneAttribute, AttributesCalled;
    if n == 0 {
      NoAttributesCalled([], schema[c].attributes[i].name);
    } else {
      var name, last := schema[c].attributes[i].name, AttributeBlock(schema, c, obj, n - 1);
      CalledInAttributeBlocks(schema, c, obj, n - 1, i);
      AttributesCalledAppend(AttributeBlocks(schema, c, obj, n - 1), last, name);
      AttributeName(schema, c, obj, n - 1, name);
      DistinctAttributes(schema, c, i, n - 1);
    }
  }

  lemma AttributeName(schema: Schema, c: nat, obj: Object, i: nat, name: string)
    requires HasShape(schema, c, obj) && i < |schema[c].attributes|
    ensures var block := AttributeBlock(schema, c, obj, i);
            AttributesCalled(block, name) == if name == schema[c].attributes[i].name then block else []
    ensures forall a :: a in AttributeBlock(schema, c, obj, i) ==> a.name == schema[c].attributes[i].name
  {
    hide HasShape, AttributeBlock, SimpleTypes.Serialize, HasType;
    AttributeBlockIs(schema, c, obj, i);
    var block := AttributeBlock(schema, c, obj, i);
    if block != [] {
      assert block[..0] == [];
    }
  }

  lemma DistinctAttributes(schema: Schema, c: nat, i: nat, j: nat)
    requires WellFormed(schema) && c < |schema| && i < |schema[c].attributes| && j < |schema[c].attributes|
    ensures schema[c].attributes[i].name == schema[c].attributes[j].name ==> i == j
  {
    assert WellFormedType(schema, c);
  }

  lemma {:induction false} AttributeBlocksNames(schema: Schema, c: nat, obj: Object, n: nat)
    requires WellFormed(schema) && HasShape(schema, c, obj) && n <= |schema[c].attributes|
    ensures forall a :: a in AttributeBlocks(schema, c, obj, n) ==> a.name in OwnAttributeNames(schema[c])
    decreases n
  {
    hide HasShape, WellFormed, AttributeBlock;
    if n > 0 {
      AttributeBlocksNames(schema, c, obj, n - 1);
      AttributeName(schema, c, obj, n - 1, "");
      assert schema[c].attributes[n - 1] in schema[c].attributes;
    }
  }

  lemma {:induction false} AttributesNames(schema: Schema, c: nat, obj: Object)
    requires WellFormed(schema) && HasShape(schema, c, obj)
    ensures forall a :: a in Attributes(schema, c, obj) ==> a.name in AttributeNames(schema, c)
    decreases c
  {
    hide AttributeBlocks, OwnAttributeNames;
    assert WellFormedType(schema, c);
    AttributeBlocksNames(schema, c, obj, |schema[c].attributes|);
    if schema[c].base.Extends? {
      AttributesNames(schema, schema[c].base.index, obj.base.value);
    }
  }

  function BaseAttributes(schema: Schema, c: nat, obj: Object): seq<SoapValue.Attribute>
    requires HasShape(schema, c, obj)
  {
    if schema[c].base.Extends? then Attributes(schema, schema[c].base.index, obj.base.value) else []
  }

  lemma NotInBaseAttributes(schema: Schema, c: nat, obj: Object, i: nat)
    requires WellFormed(schema) && HasShape(schema, c, obj) && i < |schema[c].attributes|
    ensures forall a :: a in BaseAttributes(schema, c, obj) ==> a.name != schema[c].attributes[i].name
  {
    hide Attributes, AttributeNames;
    assert WellFormedType(schema, c);
    assert schema[c].attributes[i] in schema[c].attributes;
    if schema[c].base.Extends? {
      AttributesNames(schema, schema[c].base.index, obj.base.value);
    }
  }

  /** The attribute that the emitted serialize() writes under a declared name. */
  lemma AttributeOfDeclaration(schema: Schema, c: nat, obj: Object, name: string, i: nat)
    requires WellFormed(schema) && HasShape(schema, c, obj) && i < |schema[c].attributes|
    ensures var a, slot := schema[c].attributes[i], obj.fields[|schema[c].elements| + i];
            && slot.Member? && slot.item.Leaf? && HasType(a.typ, slot.item.data) && (slot.isNil ==> a.use != Required)
            && AttributesCalled(RunSerialize(Compile(schema), c, obj, name).attrs, a.name) == OneAttribute(a, slot)
  {
    hide HasShape, AttributeBlock, AttributeBlocks, WellFormed, RunSerialize, AttributesCalled;
    MarshalMeaning(schema, c, obj, name);
    AttributeSlot(schema, c, obj, i);
    AttributeBlockIs(schema, c, obj, i);
    var a, own, base := schema[c].attributes[i].name, AttributeBlocks(schema, c, obj, |schema[c].attributes|), BaseAttributes(schema, c, obj);
    assert RunSerialize(Compile(schema), c, obj, name).attrs == base + own;
    AttributesCalledAppend(base, own, a);
    CalledInAttributeBlocks(schema, c, obj, |schema[c].attributes|, i);
    NotInBaseAttributes(schema, c, obj, i);
    NoAttributesCalled(base, a);
    assert [] + AttributeBlock(schema, c, obj, i) == AttributeBlock(schema, c, obj, i);
  }

  /** An entry of a SOAP array, as the child it is written as. */
  predicate IsArrayItem(e: Element, typ: TypeRef, item: Item, v: SoapValue.Value) {
    && v.name == "item" && v.ns == e.ns && v.nillable == e.nillable && (e.qualified ==> v.qualified)
    && (typ.Simple? && item.Leaf? && HasType(typ.simple, item.data) ==>
          v.text == Some(SimpleTypes.Serialize(typ.simple, item.data)) && v.qualified == e.qualified)
  }

  lemma ArrayItemIs(schema: Schema, typ: TypeRef, item: Item, e: Element)
    requires ItemShape(schema, typ, item)
    ensures IsArrayItem(e, typ, item, Dressed(ItemValue(schema, typ, item, "item"), e.ns, e.qualified, e.nillable))
  {
    hide HasShape, Kids, Attributes, MainQualified, TextOf;
  }

  lemma {:induction false} ArrayItems(schema: Schema, typ: TypeRef, items: seq<Item>, e: Element)
    requires forall i :: 0 <= i < |items| ==> ItemShape(schema, typ, items[i])
    ensures var vs := ItemValues(schema, typ, items, "item", e.ns, e.qualified, e.nillable);
            |vs| == |items| && forall k :: 0 <= k < |vs| ==> IsArrayItem(e, typ, items[k], vs[k])
    decreases |items|
  {
    hide IsArrayItem, ItemShape, ItemValue, Dressed;
    if items != [] {
      ArrayItems(schema, typ, items[..|items| - 1], e);
      ArrayItemIs(schema, typ, items[|items| - 1], e);
    }
  }

  lemma ArrayBlock(schema: Schema, c: nat, obj: Object)
    requires WellFormed(schema) && HasShape(schema, c, obj) && schema[c].arrayOf.Some?
    ensures |schema[c].elements| == 1 && schema[c].base.NoBase? && |obj.fields| > 0 && obj.fields[0].List?
    ensures var e, typ := schema[c].elements[0], schema[c].arrayOf.value;
            && (forall i :: 0 <= i < |obj.fields[0].items| ==> ItemShape(schema, typ, obj.fields[0].items[i]))
            && ElementBlock(schema, c, obj, 0) == ItemValues(schema, typ, obj.fields[0].items, "item", e.ns, e.qualified, e.nillable)
  {
    hide HasShape, ItemValues, ItemShape;
    assert WellFormedType(schema, c);
    SlotHasShape(schema, c, obj, 0);
  }

  /** A SOAP array writes its entries as children called "item", in order, and nothing else. */
  lemma ArrayWritesItems(schema: Schema, c: nat, obj: Object, name: string)
    requires WellFormed(schema) && HasShape(schema, c, obj) && schema[c].arrayOf.Some?
    ensures |schema[c].elements| == 1 && |obj.fields| > 0 && obj.fields[0].List?
    ensures var v := RunSerialize(Compile(schema), c, obj, name);
            && |v.children| == |obj.fields[0].items| && v.text == None
            && forall k :: 0 <= k < |v.children| ==>
                 IsArrayItem(schema[c].elements[0], schema[c].arrayOf.value, obj.fields[0].items[k], v.children[k])
  {
    hide HasShape, WellFormed, RunSerialize, IsArrayItem, ElementBlock, ItemShape, ItemValues;
    MarshalMeaning(schema, c, obj, name);
    ArrayBlock(schema, c, obj);
    assert ElementBlocks(schema, c, obj, 1) == ElementBlocks(schema, c, obj, 0) + ElementBlock(schema, c, obj, 0);
    assert [] + ([] + ElementBlock(schema, c, obj, 0)) == ElementBlock(schema, c, obj, 0);
    ArrayItems(schema, schema[c].arrayOf.value, obj.fields[0].items, schema[c].elements[0]);
  }
}
