/** The generated deserialize() functions undo the generated serialize() functions. */
module GeneratorRoundTrip {
  import opened GeneratedCode
  import opened Generator
  import opened GeneratorMeaning
  import opened SimpleTypes
  import opened Wrappers
  import SoapValue

  // ----- what comes back -----

  function ArrivedItem(schema: Schema, typ: TypeRef, item: Item): Item
    requires ItemShape(schema, typ, item)
    decreases item, 0
  {
    match (typ, item)
    case (Simple(t), Leaf(d)) => Leaf(SimpleTypes.Deserialize(t, Sent(SimpleTypes.Serialize(t, d)), Initial(t)))
    case (Complex(k), Nested(o)) => Nested(Arrived(schema, k, o))
  }

  function ArrivedItems(schema: Schema, typ: TypeRef, items: seq<Item>): (r: seq<Item>)
    requires forall i :: 0 <= i < |items| ==> ItemShape(schema, typ, items[i])
    ensures |r| == |items|
    decreases items, 1
  {
    if items == [] then []
    else ArrivedItems(schema, typ, items[..|items| - 1]) + [ArrivedItem(schema, typ, items[|items| - 1])]
  }

  /** A variable after the journey. An unset optional keeps its initial contents; an empty list counts as unset. */
  function ArrivedSlot(schema: Schema, c: nat, m: MemberVar, optional: bool, slot: Slot): Slot
    requires SlotShape(schema, m, optional, slot)
    decreases slot, 1
  {
    match slot
    case Member(isNil, item) => if isNil then FreshSlot(Compile(schema), c, m) else Member(false, ArrivedItem(schema, m.typ, item))
    case Pointer(target) => Pointer(if target.None? then None else Some(Arrived(schema, m.typ.index, target.value)))
    case List(_, items) => List(items == [] && optional, ArrivedItems(schema, m.typ, items))
  }

  function Arrived(schema: Schema, c: nat, obj: Object): (r: Object)
    requires HasShape(schema, c, obj)
    ensures |r.fields| == |obj.fields|
    decreases obj, 2
  {
    var base := schema[c].base;
    Object(if base.Extends? then Some(Arrived(schema, base.index, obj.base.value)) else None,
           if base.Wraps? then SimpleTypes.Deserialize(base.simple, Sent(SimpleTypes.Serialize(base.simple, obj.value)), Initial(base.simple))
           else Plain(""),
           seq(|obj.fields|, i requires 0 <= i < |obj.fields| =>
             ArrivedSlot(schema, c, Members(schema, c)[i], MayBeUnset(schema[c], i), obj.fields[i])))
  }

  // ----- the interpreter -----

  lemma {:induction false} RunDemarshalAppend(classes: seq<Class>, c: nat, a: seq<Demarshal>, b: seq<Demarshal>, v: View, obj: Object)
    requires c < |classes|
    ensures RunDemarshal(classes, c, a + b, v, obj) == RunDemarshal(classes, c, b, v, RunDemarshal(classes, c, a, v, obj))
    decreases |b|
  {
    if b == [] {
      assert a + b == a;
    } else {
      var n := |b| - 1;
      assert (a + b)[..|a + b| - 1] == a + b[..n] && (a + b)[|a + b| - 1] == b[n];
      RunDemarshalAppend(classes, c, a, b[..n], v, obj);
    }
  }

  lemma {:induction false} RunLoopAppend(classes: seq<Class>, c: nat, tests: seq<NameTest>, a: seq<View>, b: seq<View>, obj: Object)
    requires c < |classes|
    ensures RunLoop(classes, c, tests, a + b, obj) == RunLoop(classes, c, tests, b, RunLoop(classes, c, tests, a, obj))
    decreases |a|
  {
    hide RunAssigns, Branch;
    if a == [] {
      assert a + b == b;
    } else {
      assert (a + b)[0] == a[0] && (a + b)[1..] == a[1..] + b;
      RunLoopAppend(classes, c, tests, a[1..], b, RunAssigns(classes, c, Branch(tests, a[0].name), a[0], Reading(obj, None)).obj);
    }
  }

  lemma {:induction false} RunAllAppend(classes: seq<Class>, c: nat, body: seq<Assign>, a: seq<View>, b: seq<View>, obj: Object)
    requires c < |classes|
    ensures RunAll(classes, c, body, a + b, obj) == RunAll(classes, c, body, b, RunAll(classes, c, body, a, obj))
    decreases |a|
  {
    hide RunAssigns;
    if a == [] {
      assert a + b == b;
    } else {
      assert (a + b)[0] == a[0] && (a + b)[1..] == a[1..] + b;
      RunAllAppend(classes, c, body, a[1..], b, RunAssigns(classes, c, body, a[0], Reading(obj, None)).obj);
    }
  }

  lemma RunAllOne(classes: seq<Class>, c: nat, body: seq<Assign>, v: View, obj: Object)
    requires c < |classes|
    ensures RunAll(classes, c, body, [v], obj) == RunAssigns(classes, c, body, v, Reading(obj, None)).obj
  {
    hide RunAssigns;
    assert [v][1..] == [];
  }

  /** Where every name takes the same branch, the loop runs that branch for all. */
  lemma {:induction false} LoopRunsBranch(classes: seq<Class>, c: nat, tests: seq<NameTest>, body: seq<Assign>, vs: seq<View>, obj: Object)
    requires c < |classes|
    requires forall i :: 0 <= i < |vs| ==> Branch(tests, vs[i].name) == body
    ensures RunLoop(classes, c, tests, vs, obj) == RunAll(classes, c, body, vs, obj)
    decreases |vs|
  {
    hide RunAssigns, Branch;
    if vs != [] {
      LoopRunsBranch(classes, c, tests, body, vs[1..], RunAssigns(classes, c, body, vs[0], Reading(obj, None)).obj);
    }
  }

  lemma {:induction false} EmptyBranch(classes: seq<Class>, c: nat, vs: seq<View>, obj: Object)
    requires c < |classes|
    ensures RunAll(classes, c, [], vs, obj) == obj
    decreases |vs|
  {
    if vs != [] {
      EmptyBranch(classes, c, vs[1..], obj);
    }
  }

  function Names(vs: seq<View>): set<string> {
    set v | v in vs :: v.name
  }

  function Tested(tests: seq<NameTest>): set<string> {
    set t | t in tests :: t.name
  }

  lemma {:induction false} BranchOf(tests: seq<NameTest>, name: string)
    ensures name !in Tested(tests) ==> Branch(tests, name) == []
    ensures forall last ::
              Branch(tests + [last], name) == if name in Tested(tests) then Branch(tests, name) else if last.name == name then last.body else []
  {
    if tests == [] {
      forall last ensures Branch(tests + [last], name) == if last.name == name then last.body else [] {
        assert tests + [last] == [last] && [last][1..] == [];
      }
    } else {
      BranchOf(tests[1..], name);
      assert tests == [tests[0]] + tests[1..];
      assert name in Tested(tests) <==> tests[0].name == name || name in Tested(tests[1..]);
      forall last ensures Branch(tests + [last], name)
         == if name in Tested(tests) then Branch(tests, name) else if last.name == name then last.body else [] {
        assert (tests + [last])[1..] == tests[1..] + [last];
      }
    }
  }

  /** Values with names the loop does not test for change nothing. */
  lemma ForeignNames(classes: seq<Class>, c: nat, tests: seq<NameTest>, vs: seq<View>, obj: Object)
    requires c < |classes| && Names(vs) !! Tested(tests)
    ensures RunLoop(classes, c, tests, vs, obj) == obj
  {
    hide RunLoop, RunAll, Branch;
    forall i | 0 <= i < |vs| ensures Branch(tests, vs[i].name) == [] {
      assert vs[i].name in Names(vs);
      BranchOf(tests, vs[i].name);
    }
    LoopRunsBranch(classes, c, tests, [], vs, obj);
    EmptyBranch(classes, c, vs, obj);
  }

  lemma {:induction false} ElementBranch(schema: Schema, c: nat, n: nat, i: nat)
    requires WellFormed(schema) && c < |schema| && i < n <= |schema[c].elements|
    ensures Branch(ElementTests(schema, c, n), schema[c].elements[i].name) == ElementRead(schema, c, i)
    decreases n
  {
    hide ElementRead;
    ElementsTested(schema, c, n - 1);
    BranchOf(ElementTests(schema, c, n - 1), schema[c].elements[i].name);
    assert WellFormedType(schema, c);
    if i < n - 1 {
      ElementBranch(schema, c, n - 1, i);
    }
  }

  lemma {:induction false} ElementsTested(schema: Schema, c: nat, n: nat)
    requires c < |schema| && n <= |schema[c].elements|
    ensures Tested(ElementTests(schema, c, n)) == set i | 0 <= i < n :: schema[c].elements[i].name
  {
    hide ElementRead;
    if n > 0 {
      ElementsTested(schema, c, n - 1);
      var last := NameTest(schema[c].elements[n - 1].name, ElementRead(schema, c, n - 1));
      assert ElementTests(schema, c, n) == ElementTests(schema, c, n - 1) + [last];
      TestedSnoc(ElementTests(schema, c, n - 1), last);
      assert (set i | 0 <= i < n :: schema[c].elements[i].name)
          == (set i | 0 <= i < n - 1 :: schema[c].elements[i].name) + {schema[c].elements[n - 1].name};
    }
  }

  lemma TestedSnoc(tests: seq<NameTest>, last: NameTest)
    ensures Tested(tests + [last]) == Tested(tests) + {last.name}
  {
    assert last in tests + [last];
    assert forall t :: t in tests ==> t in tests + [last];
  }

  lemma {:induction false} AttributeBranch(schema: Schema, c: nat, n: nat, i: nat)
    requires WellFormed(schema) && c < |schema| && i < n <= |schema[c].attributes|
    ensures Branch(AttributeTests(schema, c, n), schema[c].attributes[i].name)
         == ReadMember(|schema[c].elements| + i, !schema[c].attributes[i].use.Required?)
    decreases n
  {
    hide ReadMember;
    AttributesTested(schema, c, n - 1);
    BranchOf(AttributeTests(schema, c, n - 1), schema[c].attributes[i].name);
    assert WellFormedType(schema, c);
    if i < n - 1 {
      AttributeBranch(schema, c, n - 1, i);
    }
  }

  lemma {:induction false} AttributesTested(schema: Schema, c: nat, n: nat)
    requires WellFormed(schema) && c < |schema| && n <= |schema[c].attributes|
    ensures Tested(AttributeTests(schema, c, n)) == set i | 0 <= i < n :: schema[c].attributes[i].name
  {
    hide ReadMember;
    assert WellFormedType(schema, c);
    if n > 0 {
      AttributesTested(schema, c, n - 1);
      var a := schema[c].attributes[n - 1];
      var last := NameTest(a.name, ReadMember(|schema[c].elements| + n - 1, !a.use.Required?));
      assert AttributeTests(schema, c, n) == AttributeTests(schema, c, n - 1) + [last];
      TestedSnoc(AttributeTests(schema, c, n - 1), last);
      assert (set i | 0 <= i < n :: schema[c].attributes[i].name)
          == (set i | 0 <= i < n - 1 :: schema[c].attributes[i].name) + {a.name};
    }
  }

  // ----- one value -----

  lemma {:induction false} ViewsAppend(a: seq<SoapValue.Value>, b: seq<SoapValue.Value>)
    ensures Views(a + b) == Views(a) + Views(b)
  {
    if a == [] {
      assert a + b == b;
    } else {
      assert (a + b)[1..] == a[1..] + b;
      ViewsAppend(a[1..], b);
    }
  }

  lemma ViewsOne(v: SoapValue.Value)
    ensures Views([v]) == [ViewOf(v)]
  {
    assert [v][1..] == [];
  }

  lemma DressedView(v: SoapValue.Value, ns: string, qualified: bool, nillable: bool)
    ensures ViewOf(Dressed(v, ns, qualified, nillable)) == ViewOf(v)
  {
  }

  /** The emitted statements for one single-valued member. */
  lemma RunReadMember(classes: seq<Class>, c: nat, f: nat, optional: bool, v: View, obj: Object)
    requires c < |classes| && f < |classes[c].members| && f < |obj.fields| && obj.fields[f].Member?
    ensures RunAssigns(classes, c, ReadMember(f, optional), v, Reading(obj, None)).obj
         == SetField(obj, f, Member(obj.fields[f].isNil && !optional, ReadInto(classes, classes[c].members[f].typ, v, obj.fields[f].item)))
  {
    hide ReadInto;
    RunAssignsOne(classes, c, MemberDeserialize(f), v, Reading(obj, None));
    if optional {
      RunAssignsSnoc(classes, c, [MemberDeserialize(f)], ClearNil(f), v, Reading(obj, None));
    } else {
      assert ReadMember(f, optional) == [MemberDeserialize(f)];
    }
  }

  lemma RunAssignsSnoc(classes: seq<Class>, c: nat, body: seq<Assign>, a: Assign, v: View, st: Reading)
    requires c < |classes|
    ensures RunAssigns(classes, c, body + [a], v, st) == RunAssign(classes, c, a, v, RunAssigns(classes, c, body, v, st), |body|)
  {
    hide RunAssign;
    assert (body + [a])[..|body|] == body;
  }

  lemma RunAssignsOne(classes: seq<Class>, c: nat, a: Assign, v: View, st: Reading)
    requires c < |classes|
    ensures RunAssigns(classes, c, [a], v, st) == RunAssign(classes, c, a, v, st, 0)
  {
    hide RunAssign;
    assert [a][..0] == [];
  }

  lemma RunReadPointer(classes: seq<Class>, c: nat, f: nat, v: View, obj: Object)
    requires c < |classes| && f < |classes[c].members| && f < |obj.fields| && obj.fields[f].Pointer? && classes[c].members[f].typ.Complex?
    ensures var k := classes[c].members[f].typ.index;
            var target := if obj.fields[f].target.None? then Fresh(classes, k) else obj.fields[f].target.value;
            RunAssigns(classes, c, ReadPointer(f), v, Reading(obj, None)).obj
              == SetField(obj, f, Pointer(Some(RunDeserialize(classes, k, v, target))))
  {
    hide RunDeserialize, Fresh;
    RunAssignsOne(classes, c, NewIfNull(f), v, Reading(obj, None));
    RunAssignsSnoc(classes, c, [NewIfNull(f)], PointerDeserialize(f), v, Reading(obj, None));
    assert [NewIfNull(f)] + [PointerDeserialize(f)] == ReadPointer(f);
  }

  lemma RunTempItem(classes: seq<Class>, c: nat, f: nat, v: View, st: Reading)
    requires c < |classes| && f < |classes[c].members| && f < |st.obj.fields| && st.obj.fields[f].List? && classes[c].members[f].storage.InList?
    ensures var m, slot := classes[c].members[f], st.obj.fields[f];
            RunAssigns(classes, c, [NewTemp(m.typ), TempDeserialize, AppendTemp(f, m.storage.pointers)], v, st).obj
              == SetField(st.obj, f, List(slot.isNil, slot.items + [ReadInto(classes, m.typ, v, FreshItem(classes, m.typ))]))
  {
    hide ReadInto, FreshItem, RunAssigns;
    var m := classes[c].members[f];
    RunAssignsOne(classes, c, NewTemp(m.typ), v, st);
    RunAssignsSnoc(classes, c, [NewTemp(m.typ)], TempDeserialize, v, st);
    var body := [NewTemp(m.typ)] + [TempDeserialize];
    RunAssignsSnoc(classes, c, body, AppendTemp(f, m.storage.pointers), v, st);
    assert body + [AppendTemp(f, m.storage.pointers)] == [NewTemp(m.typ), TempDeserialize, AppendTemp(f, m.storage.pointers)];
  }

  lemma RunReadListItem(classes: seq<Class>, c: nat, f: nat, optional: bool, v: View, obj: Object)
    requires c < |classes| && f < |classes[c].members| && f < |obj.fields| && obj.fields[f].List? && classes[c].members[f].storage.InList?
    ensures var m, slot := classes[c].members[f], obj.fields[f];
            RunAssigns(classes, c, ReadListItem(f, m.typ, m.storage.pointers, optional), v, Reading(obj, None)).obj
              == SetField(obj, f, List(slot.isNil && !optional, slot.items + [ReadInto(classes, m.typ, v, FreshItem(classes, m.typ))]))
  {
    hide ReadInto, FreshItem, RunAssigns;
    var m, st := classes[c].members[f], Reading(obj, None);
    var body: seq<Assign>;
    if m.typ.Simple? && m.typ.simple.Builtin? {
      body := [AppendBuiltin(f)];
      RunAssignsOne(classes, c, AppendBuiltin(f), v, st);
    } else {
      body := [NewTemp(m.typ), TempDeserialize, AppendTemp(f, m.storage.pointers)];
      RunTempItem(classes, c, f, v, st);
    }
    assert RunAssigns(classes, c, body, v, st).obj == SetField(obj, f, List(obj.fields[f].isNil, obj.fields[f].items + [ReadInto(classes, m.typ, v, FreshItem(classes, m.typ))]));
    RunClearNil(classes, c, body, f, v, st);
    assert ReadListItem(f, m.typ, m.storage.pointers, optional) == if optional then body + [ClearNil(f)] else body;
  }

  lemma RunClearNil(classes: seq<Class>, c: nat, body: seq<Assign>, f: nat, v: View, st: Reading)
    requires c < |classes| && f < |classes[c].members| && f < |st.obj.fields|
    requires RunAssigns(classes, c, body, v, st).obj.fields[f].List?
    ensures var before := RunAssigns(classes, c, body, v, st).obj;
            RunAssigns(classes, c, body + [ClearNil(f)], v, st).obj == SetField(before, f, List(false, before.fields[f].items))
  {
    hide RunAssigns;
    RunAssignsSnoc(classes, c, body, ClearNil(f), v, st);
  }

  // ----- names on the wire -----

  lemma {:induction false} ItemNames(schema: Schema, typ: TypeRef, items: seq<Item>, name: string, ns: string, qualified: bool, nillable: bool)
    requires forall i :: 0 <= i < |items| ==> ItemShape(schema, typ, items[i])
    ensures forall v :: v in Views(ItemValues(schema, typ, items, name, ns, qualified, nillable)) ==> v.name == name
  {
    hide ItemShape;
    if items != [] {
      var n := |items| - 1;
      ItemNames(schema, typ, items[..n], name, ns, qualified, nillable);
      var v := Dressed(ItemValue(schema, typ, items[n], name), ns, qualified, nillable);
      ViewsAppend(ItemValues(schema, typ, items[..n], name, ns, qualified, nillable), [v]);
      ViewsOne(v);
      ItemName(schema, typ, items[n], name);
    }
  }

  lemma ItemName(schema: Schema, typ: TypeRef, item: Item, name: string)
    requires ItemShape(schema, typ, item)
    ensures ItemValue(schema, typ, item, name).name == name
  {
  }

  lemma BlockNames(schema: Schema, c: nat, obj: Object, i: nat)
    requires HasShape(schema, c, obj) && i < |schema[c].elements|
    ensures forall v :: v in Views(ElementBlock(schema, c, obj, i)) ==>
              v.name == if schema[c].arrayOf.Some? then "item" else schema[c].elements[i].name
  {
    hide HasShape, ItemShape, ItemValue;
    var t, slot := schema[c], obj.fields[i];
    var e, m := t.elements[i], Members(schema, c)[i];
    var name := if t.arrayOf.Some? then "item" else e.name;
    SlotHasShape(schema, c, obj, i);
    match slot
    case List(_, items) => ItemNames(schema, m.typ, items, name, e.ns, e.qualified, e.nillable && (t.arrayOf.Some? || !IsRepeated(e)));
    case Member(isNil, item) =>
      ItemName(schema, m.typ, item, name);
      ViewsOne(Dressed(ItemValue(schema, m.typ, item, name), e.ns, e.qualified, e.nillable && (t.arrayOf.Some? || !IsRepeated(e))));
    case Pointer(target) =>
      if target.Some? {
        ViewsOne(Dressed(Written(schema, m.typ.index, target.value, name), e.ns, e.qualified, e.nillable && (t.arrayOf.Some? || !IsRepeated(e))));
      }
  }

  lemma {:induction false} BlocksNames(schema: Schema, c: nat, obj: Object, n: nat)
    requires HasShape(schema, c, obj) && n <= |schema[c].elements| && schema[c].arrayOf.None?
    ensures Names(Views(ElementBlocks(schema, c, obj, n))) <= OwnElementNames(schema[c])
  {
    hide HasShape, ElementBlock;
    if n > 0 {
      BlocksNames(schema, c, obj, n - 1);
      BlockNames(schema, c, obj, n - 1);
      ViewsAppend(ElementBlocks(schema, c, obj, n - 1), ElementBlock(schema, c, obj, n - 1));
      NamesAppend(Views(ElementBlocks(schema, c, obj, n - 1)), Views(ElementBlock(schema, c, obj, n - 1)));
      assert schema[c].elements[n - 1] in schema[c].elements;
    }
  }

  lemma NamesAppend(a: seq<View>, b: seq<View>)
    ensures Names(a + b) == Names(a) + Names(b)
  {
    assert forall v :: v in a + b <==> v in a || v in b;
  }

  lemma {:induction false} KidsNames(schema: Schema, c: nat, obj: Object)
    requires WellFormed(schema) && HasShape(schema, c, obj) && schema[c].arrayOf.None?
    ensures Names(Views(Kids(schema, c, obj))) <= ElementNames(schema, c)
    decreases obj
  {
    hide ElementBlocks;
    var base, own := schema[c].base, ElementBlocks(schema, c, obj, |schema[c].elements|);
    BlocksNames(schema, c, obj, |schema[c].elements|);
    assert WellFormedType(schema, c);
    if base.Extends? {
      KidsNames(schema, base.index, obj.base.value);
      ViewsAppend(Kids(schema, base.index, obj.base.value), own);
      NamesAppend(Views(Kids(schema, base.index, obj.base.value)), Views(own));
    } else {
      assert [] + own == own;
    }
  }

  lemma AttrViewsAppend(a: seq<SoapValue.Attribute>, b: seq<SoapValue.Attribute>)
    ensures AttrViews(a + b) == AttrViews(a) + AttrViews(b)
  {
  }

  lemma {:induction false} AttributeBlocksNames(schema: Schema, c: nat, obj: Object, n: nat)
    requires HasShape(schema, c, obj) && n <= |schema[c].attributes|
    ensures Names(AttrViews(AttributeBlocks(schema, c, obj, n))) <= OwnAttributeNames(schema[c])
  {
    hide HasShape;
    if n > 0 {
      AttributeBlocksNames(schema, c, obj, n - 1);
      AttrViewsAppend(AttributeBlocks(schema, c, obj, n - 1), AttributeBlock(schema, c, obj, n - 1));
      NamesAppend(AttrViews(AttributeBlocks(schema, c, obj, n - 1)), AttrViews(AttributeBlock(schema, c, obj, n - 1)));
      assert schema[c].attributes[n - 1] in schema[c].attributes;
    }
  }

  lemma {:induction false} AttributesNames(schema: Schema, c: nat, obj: Object)
    requires WellFormed(schema) && HasShape(schema, c, obj)
    ensures Names(AttrViews(Attributes(schema, c, obj))) <= AttributeNames(schema, c)
    decreases obj
  {
    hide AttributeBlocks;
    var base, own := schema[c].base, AttributeBlocks(schema, c, obj, |schema[c].attributes|);
    AttributeBlocksNames(schema, c, obj, |schema[c].attributes|);
    assert WellFormedType(schema, c);
    if base.Extends? {
      AttributesNames(schema, base.index, obj.base.value);
      AttrViewsAppend(Attributes(schema, base.index, obj.base.value), own);
      NamesAppend(AttrViews(Attributes(schema, base.index, obj.base.value)), AttrViews(own));
    } else {
      assert [] + own == own;
    }
  }

  // ----- reading one variable back -----

  lemma LeafReads(schema: Schema, t: SimpleType, d: Data, name: string, ns: string, qualified: bool, nillable: bool)
    requires HasType(t, d)
    ensures ReadInto(Compile(schema), Simple(t), ViewOf(Dressed(ItemValue(schema, Simple(t), Leaf(d), name), ns, qualified, nillable)),
                     FreshItem(Compile(schema), Simple(t)))
         == ArrivedItem(schema, Simple(t), Leaf(d))
  {
    hide SimpleTypes.Serialize, SimpleTypes.Deserialize, HasType, Compile;
  }

  lemma {:induction false} NestedReads(schema: Schema, k: nat, o: Object, name: string, ns: string, qualified: bool, nillable: bool)
    requires WellFormed(schema) && HasShape(schema, k, o)
    ensures RunDeserialize(Compile(schema), k, ViewOf(Dressed(Written(schema, k, o, name), ns, qualified, nillable)), Fresh(Compile(schema), k))
         == Arrived(schema, k, o)
    decreases o, 21
  {
    hide RunDeserialize, Fresh, Arrived, Kids, Attributes, TextOf, HasShape, WellFormed, Compile, Names;
    var w := Written(schema, k, o, name);
    DressedView(w, ns, qualified, nillable);
    var v := ViewOf(w);
    assert v.children == Views(Kids(schema, k, o)) + [] && v.attrs == AttrViews(Attributes(schema, k, o)) + [];
    NoNames();
    assert Holds(schema, k, o, v, [], []);
    ReadsBack(schema, k, o, v, [], []);
  }

  lemma NoNames()
    ensures Names([]) == {}
  {
  }

  lemma {:induction false} ItemReads(schema: Schema, typ: TypeRef, item: Item, name: string, ns: string, qualified: bool, nillable: bool, parent: Object)
    requires WellFormed(schema) && ItemShape(schema, typ, item) && (item.Nested? ==> item.obj < parent)
    ensures ReadInto(Compile(schema), typ, ViewOf(Dressed(ItemValue(schema, typ, item, name), ns, qualified, nillable)), FreshItem(Compile(schema), typ))
         == ArrivedItem(schema, typ, item)
    decreases parent, 1
  {
    hide RunDeserialize, Fresh, Arrived, Compile, Written, Dressed, ViewOf, WellFormed;
    match item
    case Leaf(d) => LeafReads(schema, typ.simple, d, name, ns, qualified, nillable);
    case Nested(o) => NestedReads(schema, typ.index, o, name, ns, qualified, nillable);
  }

  lemma {:induction false} ItemsRead(schema: Schema, c: nat, f: nat, optional: bool, items: seq<Item>,
                                     name: string, ns: string, qualified: bool, nillable: bool, obj: Object, parent: Object)
    requires WellFormed(schema) && c < |schema| && f < |Members(schema, c)| && f < |obj.fields| && Inside(items, parent)
    requires Members(schema, c)[f].storage.InList? && obj.fields[f] == List(optional, [])
    requires forall i :: 0 <= i < |items| ==> ItemShape(schema, Members(schema, c)[f].typ, items[i])
    ensures var m := Members(schema, c)[f];
            RunAll(Compile(schema), c, ReadListItem(f, m.typ, m.storage.pointers, optional),
                   Views(ItemValues(schema, m.typ, items, name, ns, qualified, nillable)), obj)
              == SetField(obj, f, List(items == [] && optional, ArrivedItems(schema, m.typ, items)))
    decreases parent, 2, |items|
  {
    hide RunAssigns, ItemValue, ItemShape, ReadInto, ReadListItem, WellFormed, Members, FreshItem, ArrivedItem;
    var m, classes := Members(schema, c)[f], Compile(schema);
    var body := ReadListItem(f, m.typ, m.storage.pointers, optional);
    if items == [] {
      assert obj.fields[f := List(optional, [])] == obj.fields;
    } else {
      var n := |items| - 1;
      var values, item := ItemValues(schema, m.typ, items[..n], name, ns, qualified, nillable), ItemValue(schema, m.typ, items[n], name);
      var v := Dressed(item, ns, qualified, nillable);
      ItemsRead(schema, c, f, optional, items[..n], name, ns, qualified, nillable, obj, parent);
      ViewsAppend(values, [v]);
      ViewsOne(v);
      RunAllAppend(classes, c, body, Views(values), [ViewOf(v)], obj);
      var before := RunAll(classes, c, body, Views(values), obj);
      RunAllOne(classes, c, body, ViewOf(v), before);
      RunReadListItem(classes, c, f, optional, ViewOf(v), before);
      ItemReads(schema, m.typ, items[n], name, ns, qualified, nillable, parent);
    }
  }

  /** The branch, or the whole loop body of an array, that reads the values of one element. */
  function ElementBody(schema: Schema, c: nat, i: nat): seq<Assign>
    requires c < |schema| && i < |schema[c].elements|
  {
    var item := schema[c].arrayOf;
    if item.Some? then ReadListItem(i, item.value, IsPolymorphic(schema, item.value), IsOptional(schema[c].elements[i]))
    else ElementRead(schema, c, i)
  }

  function UnsetSlot(schema: Schema, c: nat, i: nat): Slot
    requires c < |schema| && i < |Members(schema, c)|
  {
    FreshSlot(Compile(schema), c, Members(schema, c)[i])
  }

  function ArrivedField(schema: Schema, c: nat, src: Object, i: nat): Slot
    requires HasShape(schema, c, src) && i < |src.fields|
  {
    ArrivedSlot(schema, c, Members(schema, c)[i], MayBeUnset(schema[c], i), src.fields[i])
  }

  /** How the declaration of an element fixes its branch and its initial contents. */
  lemma ElementDeclared(schema: Schema, c: nat, i: nat)
    requires WellFormed(schema) && c < |schema| && i < |schema[c].elements|
    ensures var e, m := schema[c].elements[i], Members(schema, c)[i];
            && Known(schema, m.typ)
            && (m.storage.InList? ==>
                  && ElementBody(schema, c, i) == ReadListItem(i, m.typ, m.storage.pointers, IsOptional(e))
                  && UnsetSlot(schema, c, i) == List(IsOptional(e), []))
            && (m.storage.ByValue? ==>
                  && ElementBody(schema, c, i) == ReadMember(i, IsOptional(e))
                  && UnsetSlot(schema, c, i) == Member(IsOptional(e), FreshItem(Compile(schema), m.typ)))
            && (m.storage.ByPointer? && m.typ.Complex? ==>
                  && ElementBody(schema, c, i) == ReadPointer(i)
                  && UnsetSlot(schema, c, i) == Pointer(if IsOptional(e) then None else Some(Fresh(Compile(schema), m.typ.index))))
  {
    hide Fresh, ReadListItem, ReadMember, ReadPointer, WellFormed, Compile;
    assert WellFormedType(schema, c) by { TypeIsWellFormed(schema, c); }
    assert Constructible(schema, c, schema[c].elements[i]);
  }

  lemma TypeIsWellFormed(schema: Schema, c: nat)
    requires WellFormed(schema) && c < |schema|
    ensures WellFormedType(schema, c)
  {
  }

  lemma {:induction false} ListBlockReads(schema: Schema, c: nat, src: Object, i: nat, obj: Object)
    requires WellFormed(schema) && HasShape(schema, c, src) && i < |schema[c].elements| && src.fields[i].List?
    requires |obj.fields| == |src.fields| && obj.fields[i] == UnsetSlot(schema, c, i)
    ensures RunAll(Compile(schema), c, ElementBody(schema, c, i), Views(ElementBlock(schema, c, src, i)), obj)
         == SetField(obj, i, ArrivedField(schema, c, src, i))
    decreases src, 4
  {
    hide HasShape, ItemShape, RunAll, ReadListItem, WellFormed, Members, UnsetSlot, ElementBody, Compile, ItemValues, ArrivedItems;
    var e, items := schema[c].elements[i], src.fields[i].items;
    SlotHasShape(schema, c, src, i);
    ElementDeclared(schema, c, i);
    ItemsRead(schema, c, i, IsOptional(e), items, if schema[c].arrayOf.Some? then "item" else e.name, e.ns, e.qualified,
              e.nillable && (schema[c].arrayOf.Some? || !IsRepeated(e)), obj, src);
  }

  lemma {:induction false} MemberBlockReads(schema: Schema, c: nat, src: Object, i: nat, obj: Object)
    requires WellFormed(schema) && HasShape(schema, c, src) && i < |schema[c].elements| && src.fields[i].Member?
    requires |obj.fields| == |src.fields| && obj.fields[i] == UnsetSlot(schema, c, i)
    ensures RunAll(Compile(schema), c, ElementBody(schema, c, i), Views(ElementBlock(schema, c, src, i)), obj)
         == SetField(obj, i, ArrivedField(schema, c, src, i))
    decreases src, 4
  {
    hide HasShape, ItemShape, ReadMember, WellFormed, Members, ElementBody, ItemValue, ArrivedItem, ReadInto, FreshItem, Dressed, RunAssigns, FreshSlot;
    var t, m, classes, item := schema[c], Members(schema, c)[i], Compile(schema), src.fields[i].item;
    var e := t.elements[i];
    SlotHasShape(schema, c, src, i);
    ElementDeclared(schema, c, i);
    if src.fields[i].isNil {
      assert obj.fields[i := obj.fields[i]] == obj.fields;
    } else {
      var name, nillable := if t.arrayOf.Some? then "item" else e.name, e.nillable && (t.arrayOf.Some? || !IsRepeated(e));
      var v := Dressed(ItemValue(schema, m.typ, item, name), e.ns, e.qualified, nillable);
      ViewsOne(v);
      RunAllOne(classes, c, ElementBody(schema, c, i), ViewOf(v), obj);
      RunReadMember(classes, c, i, IsOptional(e), ViewOf(v), obj);
      ItemReads(schema, m.typ, item, name, e.ns, e.qualified, nillable, src);
    }
  }

  lemma {:induction false} PointerBlockReads(schema: Schema, c: nat, src: Object, i: nat, obj: Object)
    requires WellFormed(schema) && HasShape(schema, c, src) && i < |schema[c].elements| && src.fields[i].Pointer?
    requires |obj.fields| == |src.fields| && obj.fields[i] == UnsetSlot(schema, c, i)
    ensures RunAll(Compile(schema), c, ElementBody(schema, c, i), Views(ElementBlock(schema, c, src, i)), obj)
         == SetField(obj, i, ArrivedField(schema, c, src, i))
    decreases src, 4
  {
    hide HasShape, ReadPointer, WellFormed, Members, ElementBody, Written, Arrived, RunDeserialize, Fresh, Dressed, RunAssigns, UnsetSlot;
    var t, m, classes, target := schema[c], Members(schema, c)[i], Compile(schema), src.fields[i].target;
    var e := t.elements[i];
    SlotHasShape(schema, c, src, i);
    ElementDeclared(schema, c, i);
    if target.None? {
      assert IsOptional(e) && obj.fields[i := obj.fields[i]] == obj.fields;
    } else {
      var name, nillable := if t.arrayOf.Some? then "item" else e.name, e.nillable && (t.arrayOf.Some? || !IsRepeated(e));
      var v := Dressed(Written(schema, m.typ.index, target.value, name), e.ns, e.qualified, nillable);
      ViewsOne(v);
      RunAllOne(classes, c, ElementBody(schema, c, i), ViewOf(v), obj);
      RunReadPointer(classes, c, i, ViewOf(v), obj);
      NestedReads(schema, m.typ.index, target.value, name, e.ns, e.qualified, nillable);
    }
  }

  lemma {:induction false} BlockReads(schema: Schema, c: nat, src: Object, i: nat, obj: Object)
    requires WellFormed(schema) && HasShape(schema, c, src) && i < |schema[c].elements|
    requires |obj.fields| == |src.fields| && obj.fields[i] == UnsetSlot(schema, c, i)
    ensures RunAll(Compile(schema), c, ElementBody(schema, c, i), Views(ElementBlock(schema, c, src, i)), obj)
         == SetField(obj, i, ArrivedField(schema, c, src, i))
    decreases src, 5
  {
    hide *;
    match src.fields[i]
    case List(_, _) => ListBlockReads(schema, c, src, i, obj);
    case Member(_, _) => MemberBlockReads(schema, c, src, i, obj);
    case Pointer(_) => PointerBlockReads(schema, c, src, i, obj);
  }

  // ----- reading all variables back -----

  /** `obj` with the variables from `lo` up to `hi` filled in. */
  function Filled(schema: Schema, c: nat, src: Object, obj: Object, lo: nat, hi: nat): (r: Object)
    requires HasShape(schema, c, src) && |obj.fields| == |src.fields|
    ensures |r.fields| == |obj.fields|
  {
    obj.(fields := seq(|obj.fields|, i requires 0 <= i < |obj.fields| =>
      if lo <= i < hi then ArrivedField(schema, c, src, i) else obj.fields[i]))
  }

  lemma FilledStep(schema: Schema, c: nat, src: Object, obj: Object, lo: nat, hi: nat)
    requires HasShape(schema, c, src) && |obj.fields| == |src.fields| && lo <= hi < |src.fields|
    ensures SetField(Filled(schema, c, src, obj, lo, hi), hi, ArrivedField(schema, c, src, hi)) == Filled(schema, c, src, obj, lo, hi + 1)
    ensures Filled(schema, c, src, obj, lo, lo) == obj
  {
    hide HasShape, ArrivedField;
    assert Filled(schema, c, src, obj, lo, lo).fields == obj.fields;
    assert SetField(Filled(schema, c, src, obj, lo, hi), hi, ArrivedField(schema, c, src, hi)).fields
        == Filled(schema, c, src, obj, lo, hi + 1).fields;
  }

  lemma FilledNone(schema: Schema, c: nat, src: Object, obj: Object, lo: nat)
    requires HasShape(schema, c, src) && |obj.fields| == |src.fields|
    ensures Filled(schema, c, src, obj, lo, lo) == obj
  {
    hide HasShape, ArrivedField;
    assert Filled(schema, c, src, obj, lo, lo).fields == obj.fields;
  }

  lemma {:induction false} BlocksRead(schema: Schema, c: nat, src: Object, n: nat, obj: Object)
    requires WellFormed(schema) && HasShape(schema, c, src) && n <= |schema[c].elements| && schema[c].arrayOf.None?
    requires |obj.fields| == |src.fields| && forall i :: 0 <= i < n ==> obj.fields[i] == UnsetSlot(schema, c, i)
    ensures RunLoop(Compile(schema), c, ElementTests(schema, c, |schema[c].elements|), Views(ElementBlocks(schema, c, src, n)), obj)
         == Filled(schema, c, src, obj, 0, n)
    decreases src, 6, n
  {
    hide HasShape, RunLoop, RunAll, ElementTests, ElementRead, ElementBlock, UnsetSlot, WellFormed, Compile, ArrivedField, Filled, Views, Branch,
         SetField;
    var classes, tests := Compile(schema), ElementTests(schema, c, |schema[c].elements|);
    if n == 0 {
      FilledNone(schema, c, src, obj, 0);
      EmptyLoop(classes, c, tests, obj);
    } else {
      BlocksRead(schema, c, src, n - 1, obj);
      var blocks, block := ElementBlocks(schema, c, src, n - 1), ElementBlock(schema, c, src, n - 1);
      ViewsAppend(blocks, block);
      RunLoopAppend(classes, c, tests, Views(blocks), Views(block), obj);
      var before := Filled(schema, c, src, obj, 0, n - 1);
      FilledFields(schema, c, src, obj, 0, n - 1);
      BlockNames(schema, c, src, n - 1);
      ElementBranch(schema, c, |schema[c].elements|, n - 1);
      LoopRunsBranch(classes, c, tests, ElementBody(schema, c, n - 1), Views(block), before);
      BlockReads(schema, c, src, n - 1, before);
      FilledStep(schema, c, src, obj, 0, n - 1);
    }
  }

  lemma EmptyLoop(classes: seq<Class>, c: nat, tests: seq<NameTest>, obj: Object)
    requires c < |classes|
    ensures RunLoop(classes, c, tests, [], obj) == obj
  {
  }

  lemma AttributeBlockReads(schema: Schema, c: nat, src: Object, i: nat, obj: Object)
    requires WellFormed(schema) && HasShape(schema, c, src) && i < |schema[c].attributes|
    requires |obj.fields| == |src.fields| && obj.fields[|schema[c].elements| + i] == UnsetSlot(schema, c, |schema[c].elements| + i)
    ensures var f := |schema[c].elements| + i;
            RunAll(Compile(schema), c, ReadMember(f, !schema[c].attributes[i].use.Required?), AttrViews(AttributeBlock(schema, c, src, i)), obj)
              == SetField(obj, f, ArrivedField(schema, c, src, f))
  {
    hide HasShape, ReadMember, Members, WellFormed, SimpleTypes.Serialize, SimpleTypes.Deserialize, HasType, RunAssigns, Initial;
    var classes, a, f := Compile(schema), schema[c].attributes[i], |schema[c].elements| + i;
    SlotHasShape(schema, c, src, f);
    var slot := src.fields[f];
    assert Members(schema, c)[f] == AttributeMember(a);
    if slot.isNil {
      assert obj.fields[f := obj.fields[f]] == obj.fields;
    } else {
      var v := View(a.name, Sent(SimpleTypes.Serialize(a.typ, slot.item.data)), [], []);
      assert AttrViews(AttributeBlock(schema, c, src, i)) == [v];
      RunAllOne(classes, c, ReadMember(f, !a.use.Required?), v, obj);
      RunReadMember(classes, c, f, !a.use.Required?, v, obj);
      assert classes[c].members[f] == AttributeMember(a) && obj.fields[f] == Member(!a.use.Required?, Leaf(Initial(a.typ)));
      assert ArrivedField(schema, c, src, f) == Member(false, ArrivedItem(schema, Simple(a.typ), slot.item));
    }
  }

  lemma {:induction false} AttributeBlocksRead(schema: Schema, c: nat, src: Object, n: nat, obj: Object)
    requires WellFormed(schema) && HasShape(schema, c, src) && n <= |schema[c].attributes|
    requires |obj.fields| == |src.fields|
    requires forall f :: |schema[c].elements| <= f < |schema[c].elements| + n ==> obj.fields[f] == UnsetSlot(schema, c, f)
    ensures var k := |schema[c].elements|;
            RunLoop(Compile(schema), c, AttributeTests(schema, c, |schema[c].attributes|), AttrViews(AttributeBlocks(schema, c, src, n)), obj)
              == Filled(schema, c, src, obj, k, k + n)
    decreases n
  {
    hide HasShape, RunLoop, RunAll, AttributeTests, ReadMember, AttributeBlock, UnsetSlot, WellFormed, Compile, ArrivedField;
    var classes, tests, k := Compile(schema), AttributeTests(schema, c, |schema[c].attributes|), |schema[c].elements|;
    if n == 0 {
      FilledNone(schema, c, src, obj, k);
      EmptyLoop(classes, c, tests, obj);
    } else {
      AttributeBlocksRead(schema, c, src, n - 1, obj);
      var blocks, block := AttributeBlocks(schema, c, src, n - 1), AttributeBlock(schema, c, src, n - 1);
      AttrViewsAppend(blocks, block);
      RunLoopAppend(classes, c, tests, AttrViews(blocks), AttrViews(block), obj);
      var before, a := Filled(schema, c, src, obj, k, k + n - 1), schema[c].attributes[n - 1];
      AttributeBlockName(schema, c, src, n - 1);
      AttributeBranch(schema, c, |schema[c].attributes|, n - 1);
      LoopRunsBranch(classes, c, tests, ReadMember(k + n - 1, !a.use.Required?), AttrViews(block), before);
      AttributeBlockReads(schema, c, src, n - 1, before);
      FilledStep(schema, c, src, obj, k, k + n - 1);
    }
  }

  lemma AttributeBlockName(schema: Schema, c: nat, src: Object, i: nat)
    requires HasShape(schema, c, src) && i < |schema[c].attributes|
    ensures forall v :: v in AttrViews(AttributeBlock(schema, c, src, i)) ==> v.name == schema[c].attributes[i].name
  {
    hide HasShape;
  }

  /** What a value holds besides the object: values and attributes of types that extend its class. */
  predicate Holds(schema: Schema, c: nat, obj: Object, v: View, post: seq<View>, postAttrs: seq<View>)
    requires HasShape(schema, c, obj)
  {
    && v.children == Views(Kids(schema, c, obj)) + post && v.attrs == AttrViews(Attributes(schema, c, obj)) + postAttrs
    && v.text == SoapValue.CanonText(TextOf(schema, c, obj))
    && Names(post) !! ElementNames(schema, c) && Names(postAttrs) !! AttributeNames(schema, c)
    && (schema[c].arrayOf.Some? ==> post == [])
  }

  function BaseKids(schema: Schema, c: nat, obj: Object): seq<View>
    requires HasShape(schema, c, obj)
  {
    if schema[c].base.Extends? then Views(Kids(schema, schema[c].base.index, obj.base.value)) else []
  }

  function OwnKids(schema: Schema, c: nat, obj: Object): seq<View>
    requires HasShape(schema, c, obj)
  {
    Views(ElementBlocks(schema, c, obj, |schema[c].elements|))
  }

  function BaseAttributes(schema: Schema, c: nat, obj: Object): seq<View>
    requires HasShape(schema, c, obj)
  {
    if schema[c].base.Extends? then AttrViews(Attributes(schema, schema[c].base.index, obj.base.value)) else []
  }

  function OwnAttributes(schema: Schema, c: nat, obj: Object): seq<View>
    requires HasShape(schema, c, obj)
  {
    AttrViews(AttributeBlocks(schema, c, obj, |schema[c].attributes|))
  }

  lemma SplitViews(schema: Schema, c: nat, obj: Object)
    requires HasShape(schema, c, obj)
    ensures Views(Kids(schema, c, obj)) == BaseKids(schema, c, obj) + OwnKids(schema, c, obj)
    ensures AttrViews(Attributes(schema, c, obj)) == BaseAttributes(schema, c, obj) + OwnAttributes(schema, c, obj)
  {
    hide HasShape, ElementBlocks, AttributeBlocks;
    var base := schema[c].base;
    var own, ownAttrs := ElementBlocks(schema, c, obj, |schema[c].elements|), AttributeBlocks(schema, c, obj, |schema[c].attributes|);
    if base.Extends? {
      BaseHasShape(schema, c, obj);
      ViewsAppend(Kids(schema, base.index, obj.base.value), own);
      AttrViewsAppend(Attributes(schema, base.index, obj.base.value), ownAttrs);
    } else {
      assert [] + own == own && [] + ownAttrs == ownAttrs;
    }
  }

  lemma BaseHasShape(schema: Schema, c: nat, obj: Object)
    requires HasShape(schema, c, obj) && schema[c].base.Extends?
    ensures obj.base.Some? && HasShape(schema, schema[c].base.index, obj.base.value)
  {
  }

  lemma OwnIsForeignToBase(schema: Schema, c: nat, obj: Object)
    requires WellFormed(schema) && HasShape(schema, c, obj) && schema[c].base.Extends?
    ensures var b := schema[c].base.index;
            && Names(OwnKids(schema, c, obj)) !! ElementNames(schema, b) && ElementNames(schema, b) <= ElementNames(schema, c)
            && Names(OwnAttributes(schema, c, obj)) !! AttributeNames(schema, b) && AttributeNames(schema, b) <= AttributeNames(schema, c)
            && schema[c].arrayOf.None? && b < |schema| && schema[b].arrayOf.None?
  {
    hide HasShape, Names, ElementBlocks, AttributeBlocks, WellFormed;
    TypeIsWellFormed(schema, c);
    BlocksNames(schema, c, obj, |schema[c].elements|);
    AttributeBlocksNames(schema, c, obj, |schema[c].attributes|);
  }

  /** What the base class sees of the value: this class's part is foreign to it. */
  lemma BaseHolds(schema: Schema, c: nat, obj: Object, v: View, post: seq<View>, postAttrs: seq<View>)
    requires WellFormed(schema) && HasShape(schema, c, obj) && schema[c].base.Extends? && Holds(schema, c, obj, v, post, postAttrs)
    ensures obj.base.Some? && HasShape(schema, schema[c].base.index, obj.base.value)
    ensures Holds(schema, schema[c].base.index, obj.base.value, v, OwnKids(schema, c, obj) + post, OwnAttributes(schema, c, obj) + postAttrs)
  {
    hide HasShape, Kids, Attributes, ElementBlocks, AttributeBlocks, Names, WellFormed, ElementNames, AttributeNames, Views, OwnKids, OwnAttributes;
    var b := schema[c].base.index;
    var own, ownAttrs := OwnKids(schema, c, obj), OwnAttributes(schema, c, obj);
    BaseHasShape(schema, c, obj);
    SplitViews(schema, c, obj);
    OwnIsForeignToBase(schema, c, obj);
    NamesAppend(own, post);
    NamesAppend(ownAttrs, postAttrs);
    var base, baseAttrs := BaseKids(schema, c, obj), BaseAttributes(schema, c, obj);
    assert base + own + post == base + (own + post);
    assert baseAttrs + ownAttrs + postAttrs == baseAttrs + (ownAttrs + postAttrs);
    TextOfBase(schema, c, obj);
  }

  lemma TextOfBase(schema: Schema, c: nat, obj: Object)
    requires HasShape(schema, c, obj) && schema[c].base.Extends?
    ensures TextOf(schema, c, obj) == TextOf(schema, schema[c].base.index, obj.base.value)
  {
  }

  /** The object after the base part, or the wrapped value, has been read. */
  function BaseFilled(schema: Schema, c: nat, src: Object, obj: Object): Object
    requires HasShape(schema, c, src)
  {
    var base := schema[c].base;
    obj.(base := if base.Extends? then Some(Arrived(schema, base.index, src.base.value)) else obj.base,
         value := if base.Wraps? then SimpleTypes.Deserialize(base.simple, Sent(SimpleTypes.Serialize(base.simple, src.value)), Initial(base.simple))
                  else obj.value)
  }

  lemma {:induction false} BaseReads(schema: Schema, c: nat, src: Object, v: View, post: seq<View>, postAttrs: seq<View>)
    requires WellFormed(schema) && HasShape(schema, c, src) && Holds(schema, c, src, v, post, postAttrs)
    ensures var blank := Fresh(Compile(schema), c);
            RunDemarshal(Compile(schema), c, BaseRead(schema[c]), v, blank) == BaseFilled(schema, c, src, blank)
    decreases src, 8
  {
    hide HasShape, RunDeserialize, Arrived, Kids, Attributes, FreshSlot, SimpleTypes.Serialize, SimpleTypes.Deserialize, HasType, Names, ElementNames;
    var classes, blank, t := Compile(schema), Fresh(Compile(schema), c), schema[c];
    assert WellFormedType(schema, c);
    match t.base
    case Extends(b) =>
      BaseHolds(schema, c, src, v, post, postAttrs);
      ReadsBack(schema, b, src.base.value, v, OwnKids(schema, c, src) + post, OwnAttributes(schema, c, src) + postAttrs);
      assert BaseRead(t)[..0] == [];
    case Wraps(st) =>
      assert BaseRead(t)[..0] == [];
      assert blank.value == Initial(st);
      WrapsText(schema, c, src);
    case NoBase =>
  }

  lemma WrapsText(schema: Schema, c: nat, obj: Object)
    requires HasShape(schema, c, obj) && schema[c].base.Wraps?
    ensures HasType(schema[c].base.simple, obj.value)
    ensures SoapValue.CanonText(TextOf(schema, c, obj)) == Sent(SimpleTypes.Serialize(schema[c].base.simple, obj.value))
  {
  }

  lemma {:induction false} ElementsReadBack(schema: Schema, c: nat, src: Object, v: View, post: seq<View>, postAttrs: seq<View>, obj: Object)
    requires WellFormed(schema) && HasShape(schema, c, src) && Holds(schema, c, src, v, post, postAttrs)
    requires |obj.fields| == |src.fields| && forall i :: 0 <= i < |schema[c].elements| ==> obj.fields[i] == UnsetSlot(schema, c, i)
    ensures RunDemarshal(Compile(schema), c, ElementsRead(schema, c), v, obj) == Filled(schema, c, src, obj, 0, |schema[c].elements|)
    decreases src, 8
  {
    hide HasShape, RunLoop, RunAll, Kids, Attributes, UnsetSlot, ElementTests, Names, ElementNames, Views, AttrViews, ArrivedField, ElementBlocks;
    var classes, t := Compile(schema), schema[c];
    SplitViews(schema, c, src);
    assert WellFormedType(schema, c);
    if t.elements == [] {
      FilledNone(schema, c, src, obj, 0);
    } else if t.arrayOf.Some? {
      ArrayReadBack(schema, c, src, v, post, postAttrs, obj);
    } else {
      ElementLoop(schema, c, src, v, post, postAttrs, obj);
      RunDemarshalOne(classes, c, ForChildren(ElementTests(schema, c, |t.elements|)), v, obj);
    }
  }

  lemma {:induction false} ArrayReadBack(schema: Schema, c: nat, src: Object, v: View, post: seq<View>, postAttrs: seq<View>, obj: Object)
    requires WellFormed(schema) && HasShape(schema, c, src) && Holds(schema, c, src, v, post, postAttrs) && schema[c].arrayOf.Some?
    requires |obj.fields| == |src.fields| && forall i :: 0 <= i < |schema[c].elements| ==> obj.fields[i] == UnsetSlot(schema, c, i)
    ensures RunDemarshal(Compile(schema), c, ElementsRead(schema, c), v, obj) == Filled(schema, c, src, obj, 0, |schema[c].elements|)
    decreases src, 7
  {
    hide HasShape, RunAll, RunLoop, Kids, Attributes, UnsetSlot, Names, ElementNames, AttributeNames, Views, AttrViews, ArrivedField, ElementBlock,
         RunDemarshal, Filled, SetField, ReadListItem, WellFormed, Compile;
    SplitViews(schema, c, src);
    OnlyBlock(schema, c, src);
    assert v.children == Views(ElementBlock(schema, c, src, 0));
    BlockReads(schema, c, src, 0, obj);
    FilledStep(schema, c, src, obj, 0, 0);
    RunDemarshalOne(Compile(schema), c, ElementsRead(schema, c)[0], v, obj);
    assert ElementsRead(schema, c) == [ForAllChildren(ElementBody(schema, c, 0))];
  }

  lemma RunDemarshalOne(classes: seq<Class>, c: nat, stmt: Demarshal, v: View, obj: Object)
    requires c < |classes|
    ensures RunDemarshal(classes, c, [stmt], v, obj) ==
            match stmt
            case CallBase(b) => if obj.base.Some? then obj.(base := Some(RunDeserialize(classes, b, v, obj.base.value))) else obj
            case ReadValue =>
              if classes[c].value.Some? then obj.(value := SimpleTypes.Deserialize(classes[c].value.value, v.text, obj.value)) else obj
            case ForChildren(tests) => RunLoop(classes, c, tests, v.children, obj)
            case ForAllChildren(body) => RunAll(classes, c, body, v.children, obj)
            case ForAttributes(tests) => RunLoop(classes, c, tests, v.attrs, obj)
  {
    hide RunLoop, RunAll, RunDeserialize;
    assert [stmt][..0] == [];
  }

  lemma OnlyBlock(schema: Schema, c: nat, src: Object)
    requires WellFormed(schema) && HasShape(schema, c, src) && schema[c].arrayOf.Some?
    ensures |schema[c].elements| == 1 && BaseKids(schema, c, src) == [] && OwnKids(schema, c, src) == Views(ElementBlock(schema, c, src, 0))
  {
    hide HasShape, ElementBlock;
    assert WellFormedType(schema, c);
    var none: seq<SoapValue.Value> := [];
    assert ElementBlocks(schema, c, src, 1) == none + ElementBlock(schema, c, src, 0);
    assert none + ElementBlock(schema, c, src, 0) == ElementBlock(schema, c, src, 0);
  }

  /** The loop over the children passes over those of the bases and of extensions. */
  lemma {:induction false} ElementLoop(schema: Schema, c: nat, src: Object, v: View, post: seq<View>, postAttrs: seq<View>, obj: Object)
    requires WellFormed(schema) && HasShape(schema, c, src) && Holds(schema, c, src, v, post, postAttrs) && schema[c].arrayOf.None?
    requires |obj.fields| == |src.fields| && forall i :: 0 <= i < |schema[c].elements| ==> obj.fields[i] == UnsetSlot(schema, c, i)
    ensures RunLoop(Compile(schema), c, ElementTests(schema, c, |schema[c].elements|), v.children, obj)
         == Filled(schema, c, src, obj, 0, |schema[c].elements|)
    decreases src, 7
  {
    hide HasShape, RunLoop, Kids, Attributes, UnsetSlot, ElementTests, Names, Views, AttrViews, ArrivedField, ElementBlocks, Filled;
    var classes, n, base := Compile(schema), |schema[c].elements|, BaseKids(schema, c, src);
    var tests, own := ElementTests(schema, c, n), OwnKids(schema, c, src);
    SplitViews(schema, c, src);
    RunLoopAppend(classes, c, tests, base + own, post, obj);
    RunLoopAppend(classes, c, tests, base, own, obj);
    TestedNames(schema, c);
    BaseKidsNames(schema, c, src);
    ForeignNames(classes, c, tests, base, obj);
    BlocksRead(schema, c, src, n, obj);
    ForeignNames(classes, c, tests, post, Filled(schema, c, src, obj, 0, n));
  }

  lemma TestedNames(schema: Schema, c: nat)
    requires WellFormed(schema) && c < |schema|
    ensures Tested(ElementTests(schema, c, |schema[c].elements|)) == OwnElementNames(schema[c]) <= ElementNames(schema, c)
    ensures Tested(AttributeTests(schema, c, |schema[c].attributes|)) == OwnAttributeNames(schema[c]) <= AttributeNames(schema, c)
  {
    ElementsTested(schema, c, |schema[c].elements|);
    AttributesTested(schema, c, |schema[c].attributes|);
  }

  lemma BaseKidsNames(schema: Schema, c: nat, src: Object)
    requires WellFormed(schema) && HasShape(schema, c, src)
    ensures Names(BaseKids(schema, c, src)) !! OwnElementNames(schema[c])
    ensures Names(BaseAttributes(schema, c, src)) !! OwnAttributeNames(schema[c])
  {
    hide Kids, Attributes;
    assert WellFormedType(schema, c);
    if schema[c].base.Extends? {
      KidsNames(schema, schema[c].base.index, src.base.value);
      AttributesNames(schema, schema[c].base.index, src.base.value);
    }
  }

  lemma {:induction false} AttributesReadBack(schema: Schema, c: nat, src: Object, v: View, post: seq<View>, postAttrs: seq<View>, obj: Object)
    requires WellFormed(schema) && HasShape(schema, c, src) && Holds(schema, c, src, v, post, postAttrs)
    requires |obj.fields| == |src.fields| && forall i :: |schema[c].elements| <= i < |obj.fields| ==> obj.fields[i] == UnsetSlot(schema, c, i)
    ensures var code := if schema[c].attributes == [] then [] else [ForAttributes(AttributeTests(schema, c, |schema[c].attributes|))];
            RunDemarshal(Compile(schema), c, code, v, obj) == Filled(schema, c, src, obj, |schema[c].elements|, |src.fields|)
  {
    hide HasShape, RunLoop, Kids, Attributes, UnsetSlot, AttributeTests, Names, Views, AttrViews, ArrivedField, AttributeBlocks, Filled;
    var classes, n, base := Compile(schema), |schema[c].attributes|, BaseAttributes(schema, c, src);
    var tests, own := AttributeTests(schema, c, n), OwnAttributes(schema, c, src);
    if n == 0 {
      FilledNone(schema, c, src, obj, |schema[c].elements|);
    } else {
      RunDemarshalOne(classes, c, ForAttributes(tests), v, obj);
      SplitViews(schema, c, src);
      RunLoopAppend(classes, c, tests, base + own, postAttrs, obj);
      RunLoopAppend(classes, c, tests, base, own, obj);
      TestedNames(schema, c);
      BaseKidsNames(schema, c, src);
      ForeignNames(classes, c, tests, base, obj);
      AttributeBlocksRead(schema, c, src, n, obj);
      ForeignNames(classes, c, tests, postAttrs, Filled(schema, c, src, obj, |schema[c].elements|, |src.fields|));
    }
  }

  lemma FreshFields(schema: Schema, c: nat)
    requires WellFormed(schema) && c < |schema|
    ensures var blank := Fresh(Compile(schema), c);
            && |blank.fields| == |Members(schema, c)|
            && (forall i :: 0 <= i < |blank.fields| ==> blank.fields[i] == UnsetSlot(schema, c, i))
            && (!schema[c].base.Extends? ==> blank.base == None) && (!schema[c].base.Wraps? ==> blank.value == Plain(""))
  {
    hide FreshSlot;
    assert WellFormedType(schema, c);
  }

  /** A class's deserialize() on a blank object restores the class's part from any value that holds it. */
  lemma {:induction false} ReadsBack(schema: Schema, c: nat, obj: Object, v: View, post: seq<View>, postAttrs: seq<View>)
    requires WellFormed(schema) && HasShape(schema, c, obj) && Holds(schema, c, obj, v, post, postAttrs)
    ensures RunDeserialize(Compile(schema), c, v, Fresh(Compile(schema), c)) == Arrived(schema, c, obj)
    decreases obj, 20
  {
    hide HasShape, Holds, BaseRead, ElementsRead, AttributeTests, Fresh, UnsetSlot, Filled, BaseFilled, Arrived, RunDemarshal, WellFormed, Members;
    var classes, t, blank := Compile(schema), schema[c], Fresh(Compile(schema), c);
    var attributes := if t.attributes == [] then [] else [ForAttributes(AttributeTests(schema, c, |t.attributes|))];
    assert classes[c].deserialize == BaseRead(t) + ElementsRead(schema, c) + attributes;
    FreshFields(schema, c);
    SlotsOf(schema, c, obj);
    RunDemarshalAppend(classes, c, BaseRead(t) + ElementsRead(schema, c), attributes, v, blank);
    RunDemarshalAppend(classes, c, BaseRead(t), ElementsRead(schema, c), v, blank);
    BaseReads(schema, c, obj, v, post, postAttrs);
    var o1 := BaseFilled(schema, c, obj, blank);
    assert o1.fields == blank.fields by { BaseFilledFields(schema, c, obj, blank); }
    ElementsReadBack(schema, c, obj, v, post, postAttrs, o1);
    var o2 := Filled(schema, c, obj, o1, 0, |t.elements|);
    FilledFields(schema, c, obj, o1, 0, |t.elements|);
    AttributesReadBack(schema, c, obj, v, post, postAttrs, o2);
    AllFilled(schema, c, obj, blank);
  }

  lemma SlotsOf(schema: Schema, c: nat, obj: Object)
    requires HasShape(schema, c, obj)
    ensures |obj.fields| == |Members(schema, c)|
  {
    hide HasShape;
  }

  lemma BaseFilledFields(schema: Schema, c: nat, src: Object, obj: Object)
    requires HasShape(schema, c, src)
    ensures BaseFilled(schema, c, src, obj).fields == obj.fields
  {
  }

  lemma FilledFields(schema: Schema, c: nat, src: Object, obj: Object, lo: nat, hi: nat)
    requires HasShape(schema, c, src) && |obj.fields| == |src.fields|
    ensures forall i :: hi <= i < |obj.fields| ==> Filled(schema, c, src, obj, lo, hi).fields[i] == obj.fields[i]
  {
    hide HasShape, ArrivedField;
  }

  lemma AllFilled(schema: Schema, c: nat, src: Object, blank: Object)
    requires WellFormed(schema) && HasShape(schema, c, src) && |blank.fields| == |src.fields|
    requires (!schema[c].base.Extends? ==> blank.base == None) && (!schema[c].base.Wraps? ==> blank.value == Plain(""))
    ensures var n := |schema[c].elements|;
            Filled(schema, c, src, Filled(schema, c, src, BaseFilled(schema, c, src, blank), 0, n), n, |src.fields|) == Arrived(schema, c, src)
  {
    hide HasShape, ArrivedSlot, Members;
    var n := |schema[c].elements|;
    var all := Filled(schema, c, src, Filled(schema, c, src, BaseFilled(schema, c, src, blank), 0, n), n, |src.fields|);
    assert all.fields == Arrived(schema, c, src).fields;
  }

  // ----- the round trip, and through XML -----

  /** For every well-formed schema and every object: deserialize() of what serialize() wrote, on a new object. */
  lemma GeneratedRoundTrip(schema: Schema, c: nat, obj: Object, name: string)
    requires WellFormed(schema) && HasShape(schema, c, obj)
    ensures RunDeserialize(Compile(schema), c, ViewOf(RunSerialize(Compile(schema), c, obj, name)), Fresh(Compile(schema), c))
         == Arrived(schema, c, obj)
  {
    hide RunDeserialize, RunSerialize, Fresh, Arrived, Written, HasShape, WellFormed, Compile;
    MarshalMeaning(schema, c, obj, name);
    NestedReads(schema, c, obj, name, "", false, false);
    Undressed(Written(schema, c, obj, name));
  }

  lemma Undressed(v: SoapValue.Value)
    ensures ViewOf(Dressed(v, "", false, false)) == ViewOf(v)
  {
    DressedView(v, "", false, false);
  }

  /** No attribute anywhere is in a namespace that the reader drops. */
  predicate NothingReserved(v: SoapValue.Value)
    decreases v, 1
  {
    (forall i :: 0 <= i < |v.attrs| ==> v.attrs[i].qualified ==> !SoapValue.Reserved(v.attrs[i].ns)) && NothingReservedIn(v.children)
  }

  predicate NothingReservedIn(vs: seq<SoapValue.Value>)
    decreases vs, 0
  {
    vs == [] || (NothingReserved(vs[0]) && NothingReservedIn(vs[1..]))
  }

  lemma {:induction false} CanonAttrViews(attrs: seq<SoapValue.Attribute>)
    requires forall i :: 0 <= i < |attrs| ==> attrs[i].qualified ==> !SoapValue.Reserved(attrs[i].ns)
    ensures AttrViews(SoapValue.CanonAttrs(attrs)) == AttrViews(attrs)
  {
    if attrs != [] {
      var n := |attrs| - 1;
      CanonAttrViews(attrs[..n]);
      var last := [SoapValue.Attribute(attrs[n].name, "", attrs[n].text, false)];
      EmptyIsNotReserved();
      AttrViewsAppend(SoapValue.CanonAttrs(attrs[..n]), last);
      assert AttrViews(last) == AttrViews([attrs[n]]);
      AttrViewsAppend(attrs[..n], [attrs[n]]);
      assert attrs == attrs[..n] + [attrs[n]];
    }
  }

  lemma EmptyIsNotReserved()
    ensures !SoapValue.Reserved("")
  {
  }

  /** Printing and parsing a value changes nothing that a deserializer looks at. */
  lemma {:induction false} CanonView(v: SoapValue.Value, ns: string, messageNs: string, env: seq<SoapValue.NsDecl>)
    requires NothingReserved(v)
    ensures ViewOf(SoapValue.CanonAs(v, ns, v.name, messageNs, env)) == ViewOf(v)
    decreases v, 1
  {
    hide SoapValue.CanonAttrs, SoapValue.CanonType, SoapValue.Reserved;
    CanonViews(v.children, messageNs, env + v.decls);
    CanonAttrViews(v.attrs);
  }

  lemma {:induction false} CanonViews(vs: seq<SoapValue.Value>, messageNs: string, env: seq<SoapValue.NsDecl>)
    requires NothingReservedIn(vs)
    ensures Views(SoapValue.CanonAll(vs, messageNs, false, env)) == Views(vs)
    decreases vs, 0
  {
    hide SoapValue.CanonAs, SoapValue.WrittenNs;
    if vs != [] {
      CanonView(vs[0], SoapValue.WrittenNs(vs[0], messageNs, false), messageNs, env);
      CanonViews(vs[1..], messageNs, env);
      var first, rest := SoapValue.Canon(vs[0], messageNs, false, env), SoapValue.CanonAll(vs[1..], messageNs, false, env);
      assert ([first] + rest)[1..] == rest;
    }
  }

  lemma {:induction false} NothingReservedAppend(a: seq<SoapValue.Value>, b: seq<SoapValue.Value>)
    ensures NothingReservedIn(a + b) <==> NothingReservedIn(a) && NothingReservedIn(b)
  {
    hide NothingReserved;
    if a == [] {
      assert a + b == b;
    } else {
      assert (a + b)[1..] == a[1..] + b;
      NothingReservedAppend(a[1..], b);
    }
  }

  lemma DressedNotReserved(v: SoapValue.Value, ns: string, qualified: bool, nillable: bool)
    requires NothingReserved(v)
    ensures NothingReservedIn([Dressed(v, ns, qualified, nillable)])
  {
    var d := Dressed(v, ns, qualified, nillable);
    assert d.attrs == v.attrs && d.children == v.children;
    assert NothingReserved(d);
    assert [d][1..] == [];
  }

  lemma {:induction false} ItemNotReserved(schema: Schema, typ: TypeRef, item: Item, name: string, ns: string, qualified: bool, nillable: bool)
    requires WellFormed(schema) && ItemShape(schema, typ, item)
    ensures NothingReservedIn([Dressed(ItemValue(schema, typ, item, name), ns, qualified, nillable)])
    decreases item, 0
  {
    hide WellFormed, Written, HasShape, HasType, Dressed;
    if item.Nested? {
      WrittenNotReserved(schema, typ.index, item.obj, name);
    }
    DressedNotReserved(ItemValue(schema, typ, item, name), ns, qualified, nillable);
  }

  lemma {:induction false} ItemsNotReserved(schema: Schema, typ: TypeRef, items: seq<Item>, name: string, ns: string, qualified: bool, nillable: bool)
    requires WellFormed(schema) && forall i :: 0 <= i < |items| ==> ItemShape(schema, typ, items[i])
    ensures NothingReservedIn(ItemValues(schema, typ, items, name, ns, qualified, nillable))
    decreases items, 1
  {
    hide WellFormed, ItemShape, ItemValue, Dressed, NothingReserved;
    if items != [] {
      var n := |items| - 1;
      ItemsNotReserved(schema, typ, items[..n], name, ns, qualified, nillable);
      ItemNotReserved(schema, typ, items[n], name, ns, qualified, nillable);
      NothingReservedAppend(ItemValues(schema, typ, items[..n], name, ns, qualified, nillable),
                            [Dressed(ItemValue(schema, typ, items[n], name), ns, qualified, nillable)]);
    }
  }

  lemma {:induction false} BlockNotReserved(schema: Schema, m: MemberVar, optional: bool, slot: Slot,
                                            name: string, ns: string, qualified: bool, nillable: bool)
    requires WellFormed(schema) && SlotShape(schema, m, optional, slot)
    ensures NothingReservedIn(Block(schema, m, optional, slot, name, ns, qualified, nillable))
    decreases slot, 1
  {
    hide WellFormed, ItemShape, ItemValue, Dressed, NothingReserved, HasShape, Written;
    match slot
    case List(_, items) => ItemsNotReserved(schema, m.typ, items, name, ns, qualified, nillable);
    case Member(isNil, item) => ItemNotReserved(schema, m.typ, item, name, ns, qualified, nillable);
    case Pointer(target) =>
      if target.Some? {
        WrittenNotReserved(schema, m.typ.index, target.value, name);
        DressedNotReserved(Written(schema, m.typ.index, target.value, name), ns, qualified, nillable);
      }
  }

  lemma {:induction false} BlocksNotReserved(schema: Schema, c: nat, obj: Object, n: nat)
    requires WellFormed(schema) && HasShape(schema, c, obj) && n <= |schema[c].elements|
    ensures NothingReservedIn(ElementBlocks(schema, c, obj, n))
    decreases obj, 1, n
  {
    hide WellFormed, Block, HasShape, NothingReserved;
    if n > 0 {
      var t, e := schema[c], schema[c].elements[n - 1];
      BlocksNotReserved(schema, c, obj, n - 1);
      SlotHasShape(schema, c, obj, n - 1);
      BlockNotReserved(schema, Members(schema, c)[n - 1], IsOptional(e), obj.fields[n - 1],
                       if t.arrayOf.Some? then "item" else e.name, e.ns, e.qualified, e.nillable && (t.arrayOf.Some? || !IsRepeated(e)));
      NothingReservedAppend(ElementBlocks(schema, c, obj, n - 1), ElementBlock(schema, c, obj, n - 1));
    }
  }

  lemma {:induction false} KidsNotReserved(schema: Schema, c: nat, obj: Object)
    requires WellFormed(schema) && HasShape(schema, c, obj)
    ensures NothingReservedIn(Kids(schema, c, obj))
    decreases obj, 2
  {
    hide WellFormed, ElementBlocks, NothingReserved, HasShape;
    BlocksNotReserved(schema, c, obj, |schema[c].elements|);
    var own := ElementBlocks(schema, c, obj, |schema[c].elements|);
    if schema[c].base.Extends? {
      BaseHasShape(schema, c, obj);
      KidsNotReserved(schema, schema[c].base.index, obj.base.value);
      NothingReservedAppend(Kids(schema, schema[c].base.index, obj.base.value), own);
    } else {
      assert [] + own == own;
    }
  }

  predicate PlainAttributes(attrs: seq<SoapValue.Attribute>) {
    forall i :: 0 <= i < |attrs| ==> attrs[i].qualified ==> !SoapValue.Reserved(attrs[i].ns)
  }

  lemma {:induction false} AttributeBlocksPlain(schema: Schema, c: nat, obj: Object, n: nat)
    requires WellFormed(schema) && HasShape(schema, c, obj) && n <= |schema[c].attributes|
    ensures PlainAttributes(AttributeBlocks(schema, c, obj, n))
  {
    hide WellFormed, HasShape, SoapValue.Reserved;
    if n > 0 {
      AttributeBlocksPlain(schema, c, obj, n - 1);
      TypeIsWellFormed(schema, c);
    }
  }

  lemma {:induction false} AttributesPlain(schema: Schema, c: nat, obj: Object)
    requires WellFormed(schema) && HasShape(schema, c, obj)
    ensures PlainAttributes(Attributes(schema, c, obj))
    decreases obj
  {
    hide WellFormed, HasShape, AttributeBlocks, SoapValue.Reserved;
    AttributeBlocksPlain(schema, c, obj, |schema[c].attributes|);
    if schema[c].base.Extends? {
      BaseHasShape(schema, c, obj);
      AttributesPlain(schema, schema[c].base.index, obj.base.value);
    }
  }

  lemma {:induction false} WrittenNotReserved(schema: Schema, c: nat, obj: Object, name: string)
    requires WellFormed(schema) && HasShape(schema, c, obj)
    ensures NothingReserved(Written(schema, c, obj, name))
    decreases obj, 3
  {
    hide WellFormed, Kids, Attributes, SoapValue.Reserved, TextOf, MainQualified;
    KidsNotReserved(schema, c, obj);
    AttributesPlain(schema, c, obj);
  }

  /** The same with the value printed as XML, anywhere in a document, and parsed again. */
  lemma RoundTripThroughXml(schema: Schema, c: nat, obj: Object, name: string, ns: string, messageNs: string,
                            env: seq<SoapValue.NsDecl>, tokens: seq<SoapValue.Token>, i: nat)
    requires WellFormed(schema) && HasShape(schema, c, obj)
    requires SoapValue.TokensAt(tokens, i, SoapValue.PrintAs(RunSerialize(Compile(schema), c, obj, name), ns, name, messageNs))
    ensures i < |tokens| && tokens[i].Start?
    ensures RunDeserialize(Compile(schema), c, ViewOf(SoapValue.Parse(tokens, i, env).0), Fresh(Compile(schema), c)) == Arrived(schema, c, obj)
  {
    hide RunDeserialize, RunSerialize, Fresh, Arrived, HasShape, WellFormed, Compile, ViewOf, SoapValue.Parse, SoapValue.CanonAs,
         NothingReserved, Kids, Attributes, TextOf, MainQualified, SoapValue.OpenTag;
    var v := RunSerialize(Compile(schema), c, obj, name);
    MarshalMeaning(schema, c, obj, name);
    WrittenNotReserved(schema, c, obj, name);
    SoapValue.ParsePrinted(v, ns, name, messageNs, env, tokens, i);
    CanonView(v, ns, messageNs, env);
    GeneratedRoundTrip(schema, c, obj, name);
    assert tokens[i] == SoapValue.PrintAs(v, ns, name, messageNs)[0];
  }

  // ----- when nothing changes -----

  /** Every simple value that is set survives as a text. */
  predicate SturdyItem(schema: Schema, typ: TypeRef, item: Item)
    requires ItemShape(schema, typ, item)
    decreases item, 0
  {
    match (typ, item)
    case (Simple(t), Leaf(d)) => Survives(t, d)
    case (Complex(k), Nested(o)) => Sturdy(schema, k, o)
  }

  predicate SturdySlot(schema: Schema, m: MemberVar, optional: bool, slot: Slot)
    requires SlotShape(schema, m, optional, slot)
    decreases slot, 0
  {
    match slot
    case Member(isNil, item) => isNil || SturdyItem(schema, m.typ, item)
    case Pointer(target) => target.None? || Sturdy(schema, m.typ.index, target.value)
    case List(_, items) => forall i :: 0 <= i < |items| ==> SturdyItem(schema, m.typ, items[i])
  }

  predicate Sturdy(schema: Schema, c: nat, obj: Object)
    requires HasShape(schema, c, obj)
    decreases obj, 1
  {
    && (schema[c].base.Extends? ==> Sturdy(schema, schema[c].base.index, obj.base.value))
    && (schema[c].base.Wraps? ==> Survives(schema[c].base.simple, obj.value))
    && forall i :: 0 <= i < |obj.fields| ==> SturdySlot(schema, Members(schema, c)[i], MayBeUnset(schema[c], i), obj.fields[i])
  }

  predicate HonestItem(schema: Schema, typ: TypeRef, item: Item)
    requires ItemShape(schema, typ, item)
    decreases item, 0
  {
    match (typ, item)
    case (Simple(_), Leaf(_)) => true
    case (Complex(k), Nested(o)) => Honest(schema, k, o)
  }

  /** An unset member has its initial contents, and an optional list is set exactly when it has entries. */
  predicate HonestSlot(schema: Schema, c: nat, m: MemberVar, optional: bool, slot: Slot)
    requires SlotShape(schema, m, optional, slot)
    decreases slot, 0
  {
    match slot
    case Member(isNil, item) => if isNil then slot == FreshSlot(Compile(schema), c, m) else HonestItem(schema, m.typ, item)
    case Pointer(target) => target.None? || Honest(schema, m.typ.index, target.value)
    case List(isNil, items) =>
      (optional ==> (isNil <==> items == [])) && forall i :: 0 <= i < |items| ==> HonestItem(schema, m.typ, items[i])
  }

  /** The nil flags of an object and of everything in it say what they are meant to say. */
  predicate Honest(schema: Schema, c: nat, obj: Object)
    requires HasShape(schema, c, obj)
    decreases obj, 1
  {
    && (schema[c].base.Extends? ==> Honest(schema, schema[c].base.index, obj.base.value))
    && forall i :: 0 <= i < |obj.fields| ==> HonestSlot(schema, c, Members(schema, c)[i], MayBeUnset(schema[c], i), obj.fields[i])
  }

  lemma {:induction false} ItemUnchanged(schema: Schema, typ: TypeRef, item: Item)
    requires ItemShape(schema, typ, item) && SturdyItem(schema, typ, item)
    ensures ArrivedItem(schema, typ, item) == item <==> HonestItem(schema, typ, item)
    decreases item, 0
  {
    hide SimpleTypes.Deserialize, SimpleTypes.Serialize, HasType, Survives, HasShape, Arrived, Honest, Sturdy;
    match item
    case Leaf(d) => SimpleRoundTrip(typ.simple, d);
    case Nested(o) => ObjectUnchanged(schema, typ.index, o);
  }

  lemma {:induction false} ItemsUnchanged(schema: Schema, typ: TypeRef, items: seq<Item>)
    requires forall i :: 0 <= i < |items| ==> ItemShape(schema, typ, items[i]) && SturdyItem(schema, typ, items[i])
    ensures ArrivedItems(schema, typ, items) == items <==> forall i :: 0 <= i < |items| ==> HonestItem(schema, typ, items[i])
    decreases items, 1
  {
    hide ItemShape, SturdyItem, ArrivedItem, HonestItem;
    if items != [] {
      var n := |items| - 1;
      var front, arrived := items[..n], ArrivedItems(schema, typ, items);
      ItemsUnchanged(schema, typ, front);
      ItemUnchanged(schema, typ, items[n]);
      assert arrived[..n] == ArrivedItems(schema, typ, front) && arrived[n] == ArrivedItem(schema, typ, items[n]);
      assert arrived == arrived[..n] + [arrived[n]] && items == front + [items[n]];
      assert (forall i :: 0 <= i < |items| ==> HonestItem(schema, typ, items[i])) <==>
          (forall i :: 0 <= i < n ==> HonestItem(schema, typ, front[i])) && HonestItem(schema, typ, items[n]);
    }
  }

  lemma {:induction false} SlotUnchanged(schema: Schema, c: nat, m: MemberVar, optional: bool, slot: Slot)
    requires SlotShape(schema, m, optional, slot) && SturdySlot(schema, m, optional, slot)
    ensures ArrivedSlot(schema, c, m, optional, slot) == slot <==> HonestSlot(schema, c, m, optional, slot)
    decreases slot, 1
  {
    hide ItemShape, SturdyItem, ArrivedItem, HonestItem, ArrivedItems, HasShape, Arrived, Honest, Sturdy, FreshSlot;
    match slot
    case Member(isNil, item) =>
      if !isNil {
        ItemUnchanged(schema, m.typ, item);
      }
    case Pointer(target) =>
      if target.Some? {
        ObjectUnchanged(schema, m.typ.index, target.value);
      }
    case List(_, items) => ItemsUnchanged(schema, m.typ, items);
  }

  /** An object comes back as it was, exactly when its nil flags are honest: a set but empty optional list is lost. */
  lemma {:induction false} ObjectUnchanged(schema: Schema, c: nat, obj: Object)
    requires HasShape(schema, c, obj) && Sturdy(schema, c, obj)
    ensures Arrived(schema, c, obj) == obj <==> Honest(schema, c, obj)
    decreases obj, 1
  {
    hide SlotShape, SturdySlot, ArrivedSlot, HonestSlot, HasType, SimpleTypes.Deserialize, SimpleTypes.Serialize, Survives, Members;
    var arrived, base := Arrived(schema, c, obj), schema[c].base;
    if base.Extends? {
      ObjectUnchanged(schema, base.index, obj.base.value);
    }
    if base.Wraps? {
      SimpleRoundTrip(base.simple, obj.value);
    }
    forall i | 0 <= i < |obj.fields|
      ensures arrived.fields[i] == obj.fields[i] <==>
          HonestSlot(schema, c, Members(schema, c)[i], MayBeUnset(schema[c], i), obj.fields[i])
    {
      SlotUnchanged(schema, c, Members(schema, c)[i], MayBeUnset(schema[c], i), obj.fields[i]);
    }
    assert arrived.fields == obj.fields <==> forall i :: 0 <= i < |obj.fields| ==> arrived.fields[i] == obj.fields[i];
  }

  // ----- an example -----

  /** A named thing with an optional identifier attribute. */
  const NAMED := ComplexType(
    NoBase, [Element("name", "urn:x", Simple(Builtin("")), 1, 1, false, 1, 1, true, false)],
    [AttributeDecl("id", "", Builtin(""), Optional, false)], None, false)

  /** A named thing with a list of tags and, optionally, another of its own kind. */
  const LINKED := ComplexType(
    Extends(0),
    [Element("tag", "urn:x", Simple(Builtin("")), 0, 10, false, 1, 1, true, false),
     Element("next", "urn:x", Complex(1), 0, 1, false, 1, 1, true, false)],
    [], None, false)

  const LINKED_SCHEMA: Schema := [NAMED, LINKED]

  function Named(name: string): Object {
    Object(None, Plain(""), [Member(false, Leaf(Plain(name))), Member(true, Leaf(Plain("")))])
  }

  function Linked(name: string, tags: seq<Item>, next: Option<Object>): Object {
    Object(Some(Named(name)), Plain(""), [List(tags == [], tags), Pointer(next)])
  }

  /** The conditions of the round trip are met by a recursive, inherited type. */
  lemma LinkedIsWellFormed()
    ensures WellFormed(LINKED_SCHEMA)
  {
    var s := LINKED_SCHEMA;
    assert NAMED.elements[0] in NAMED.elements && LINKED.elements[0].name != LINKED.elements[1].name;
    assert OwnElementNames(NAMED) == {"name"} by {
      assert forall e :: e in NAMED.elements ==> e == NAMED.elements[0];
    }
    assert OwnElementNames(LINKED) == {"tag", "next"} by {
      assert LINKED.elements[0] in LINKED.elements && LINKED.elements[1] in LINKED.elements;
      assert forall e :: e in LINKED.elements ==> e == LINKED.elements[0] || e == LINKED.elements[1];
    }
    assert OwnAttributeNames(LINKED) == {};
    assert ElementNames(s, 0) == {"name"} + {};
    assert WellFormedType(s, 0);
    assert WellFormedType(s, 1);
  }

  /** A chain of two such objects comes back as it was. */
  lemma LinkedRoundTrip(a: string, b: string, tag: string, root: string)
    ensures var obj := Linked(a, [Leaf(Plain(tag))], Some(Linked(b, [], None)));
            RunDeserialize(Compile(LINKED_SCHEMA), 1, ViewOf(RunSerialize(Compile(LINKED_SCHEMA), 1, obj, root)), Fresh(Compile(LINKED_SCHEMA), 1))
              == obj
  {
    hide RunDeserialize, RunSerialize, Fresh, Arrived, ViewOf;
    var inner := Linked(b, [], None);
    var obj := Linked(a, [Leaf(Plain(tag))], Some(inner));
    LinkedIsWellFormed();
    LinkedShape(b, [], None);
    LinkedShape(a, [Leaf(Plain(tag))], Some(inner));
    GeneratedRoundTrip(LINKED_SCHEMA, 1, obj, root);
    ObjectUnchanged(LINKED_SCHEMA, 1, obj);
  }

  lemma LinkedShape(name: string, tags: seq<Item>, next: Option<Object>)
    requires forall i :: 0 <= i < |tags| ==> tags[i].Leaf? && tags[i].data.Plain?
    requires next.Some? ==> HasShape(LINKED_SCHEMA, 1, next.value) && Sturdy(LINKED_SCHEMA, 1, next.value) && Honest(LINKED_SCHEMA, 1, next.value)
    ensures HasShape(LINKED_SCHEMA, 1, Linked(name, tags, next))
    ensures Sturdy(LINKED_SCHEMA, 1, Linked(name, tags, next)) && Honest(LINKED_SCHEMA, 1, Linked(name, tags, next))
  {
    var s, obj := LINKED_SCHEMA, Linked(name, tags, next);
    NamedShape(name);
    assert obj.base.value == Named(name);
    assert Members(s, 1)[0] == MemberVar(InList(false), Simple(Builtin("")), true, false);
    assert Members(s, 1)[1] == MemberVar(ByPointer, Complex(1), false, false);
    assert HasShape(s, 1, obj);
  }

  lemma NamedShape(name: string)
    ensures HasShape(LINKED_SCHEMA, 0, Named(name)) && Sturdy(LINKED_SCHEMA, 0, Named(name)) && Honest(LINKED_SCHEMA, 0, Named(name))
  {
    var s := LINKED_SCHEMA;
    assert HasShape(s, 0, Named(name));
    assert Members(s, 0)[0] == MemberVar(ByValue, Simple(Builtin("")), false, false);
    assert Members(s, 0)[1] == MemberVar(ByValue, Simple(Builtin("")), true, false);
  }
}
