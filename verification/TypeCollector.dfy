/**
 TypeCollector: which schema types the generator keeps. A worklist over a possibly cyclic dependency graph,
 with a fix-up of name conflicts that runs in whatever order the hash set hands the names out.
 */
module TypeCollector {
  import opened Wrappers

  datatype QName = QName(ns: string, local: string) {
    predicate IsEmpty() {
      ns == "" && local == ""
    }
  }

  datatype ComplexType = ComplexType(
    name: QName, base: QName, derived: seq<QName>, elementTypes: seq<QName>, attributeTypes: seq<QName>,
    arrayType: QName, conflicting: bool)

  datatype SimpleType = SimpleType(name: QName, base: QName, isList: bool, listType: QName)

  datatype Types = Types(complex: seq<ComplexType>, simple: seq<SimpleType>)

  /** XSD::Types::complexType: the first type of that name. */
  function FindComplex(complex: seq<ComplexType>, q: QName): (r: Option<ComplexType>)
    ensures r.Some? ==> r.value in complex && r.value.name == q && q.local != ""
  {
    if complex == [] || q.local == "" then None
    else if complex[0].name == q then Some(complex[0])
    else FindComplex(complex[1..], q)
  }

  function FindSimple(simple: seq<SimpleType>, q: QName): (r: Option<SimpleType>)
    ensures r.Some? ==> r.value in simple && r.value.name == q && q.local != ""
  {
    if simple == [] || q.local == "" then None
    else if simple[0].name == q then Some(simple[0])
    else FindSimple(simple[1..], q)
  }

  // ----- the dependency graph -----

  function Elements(names: seq<QName>): set<QName> {
    set q | q in names && !q.IsEmpty()
  }

  function ComplexDeps(c: ComplexType): set<QName> {
    Elements([c.base, c.arrayType]) + Elements(c.derived) + Elements(c.elementTypes) + Elements(c.attributeTypes)
  }

  function SimpleDeps(s: SimpleType): set<QName> {
    Elements(if s.isList then [s.base, s.listType] else [s.base])
  }

  /** A name the collector looks up: not empty and not a builtin XSD type. */
  predicate Looked(builtin: set<QName>, q: QName) {
    !q.IsEmpty() && q !in builtin
  }

  predicate KeptComplex(t: Types, builtin: set<QName>, q: QName) {
    Looked(builtin, q) && FindComplex(t.complex, q).Some?
  }

  predicate KeptSimple(t: Types, builtin: set<QName>, q: QName) {
    Looked(builtin, q) && FindComplex(t.complex, q).None? && FindSimple(t.simple, q).Some?
  }

  /** The types a name depends on. */
  function Deps(t: Types, builtin: set<QName>, q: QName): set<QName> {
    if KeptComplex(t, builtin, q) then ComplexDeps(FindComplex(t.complex, q).value)
    else if KeptSimple(t, builtin, q) then SimpleDeps(FindSimple(t.simple, q).value)
    else {}
  }

  /** Every name that occurs anywhere. */
  function Universe(t: Types, roots: set<QName>): set<QName> {
    roots + (set c, q | c in t.complex && q in ComplexDeps(c) :: q) + (set s, q | s in t.simple && q in SimpleDeps(s) :: q)
  }

  lemma DepsInUniverse(t: Types, builtin: set<QName>, roots: set<QName>, q: QName)
    ensures Deps(t, builtin, q) <= Universe(t, roots)
  {
  }

  // ----- the dependencies, by the fields of the types -----

  /** The type that a name stands for: the first of that name. */
  predicate IsComplex(t: Types, q: QName, c: ComplexType) {
    q.local != "" && exists i :: 0 <= i < |t.complex| && t.complex[i] == c && c.name == q && forall j :: 0 <= j < i ==> t.complex[j].name != q
  }

  predicate IsSimple(t: Types, q: QName, s: SimpleType) {
    q.local != "" && exists i :: 0 <= i < |t.simple| && t.simple[i] == s && s.name == q && forall j :: 0 <= j < i ==> t.simple[j].name != q
  }

  /** A complex type needs its base, its derived types, the types of its elements and attributes, and the items of an array. */
  predicate ComplexEdge(c: ComplexType, d: QName) {
    d == c.base || d in c.derived || d in c.elementTypes || d in c.attributeTypes || d == c.arrayType
  }

  /** A simple type needs its base, and a list its items. */
  predicate SimpleEdge(s: SimpleType, d: QName) {
    d == s.base || (s.isList && d == s.listType)
  }

  predicate Edge(t: Types, builtin: set<QName>, a: QName, d: QName) {
    && !a.IsEmpty() && a !in builtin && !d.IsEmpty()
    && if exists c :: c in t.complex && IsComplex(t, a, c) then exists c :: c in t.complex && IsComplex(t, a, c) && ComplexEdge(c, d)
       else exists s :: s in t.simple && IsSimple(t, a, s) && SimpleEdge(s, d)
  }

  /** A first type of another name does not matter. */
  lemma SkipComplex(t: Types, rest: Types, q: QName, c: ComplexType)
    requires t.complex != [] && t.complex[0].name != q && rest.complex == t.complex[1..]
    ensures IsComplex(rest, q, c) <==> IsComplex(t, q, c)
  {
    if IsComplex(t, q, c) {
      var i :| 0 <= i < |t.complex| && t.complex[i] == c && c.name == q && forall j :: 0 <= j < i ==> t.complex[j].name != q;
      assert rest.complex[i - 1] == c;
    }
    if IsComplex(rest, q, c) {
      var i :| 0 <= i < |rest.complex| && rest.complex[i] == c && c.name == q && forall j :: 0 <= j < i ==> rest.complex[j].name != q;
      assert t.complex[i + 1] == c;
      assert forall j :: 0 < j < i + 1 ==> t.complex[j] == rest.complex[j - 1];
    }
  }

  lemma {:induction false} FindComplexIs(t: Types, q: QName)
    ensures forall c :: FindComplex(t.complex, q) == Some(c) <==> IsComplex(t, q, c)
    decreases |t.complex|
  {
    if t.complex != [] && q.local != "" && t.complex[0].name != q {
      hide IsComplex;
      var rest := t.(complex := t.complex[1..]);
      FindComplexIs(rest, q);
      forall c: ComplexType
        ensures IsComplex(rest, q, c) <==> IsComplex(t, q, c)
      {
        SkipComplex(t, rest, q, c);
      }
    }
  }

  /** A first type of another name does not matter. */
  lemma SkipSimple(t: Types, rest: Types, q: QName, c: SimpleType)
    requires t.simple != [] && t.simple[0].name != q && rest.simple == t.simple[1..]
    ensures IsSimple(rest, q, c) <==> IsSimple(t, q, c)
  {
    if IsSimple(t, q, c) {
      var i :| 0 <= i < |t.simple| && t.simple[i] == c && c.name == q && forall j :: 0 <= j < i ==> t.simple[j].name != q;
      assert rest.simple[i - 1] == c;
    }
    if IsSimple(rest, q, c) {
      var i :| 0 <= i < |rest.simple| && rest.simple[i] == c && c.name == q && forall j :: 0 <= j < i ==> rest.simple[j].name != q;
      assert t.simple[i + 1] == c;
      assert forall j :: 0 < j < i + 1 ==> t.simple[j] == rest.simple[j - 1];
    }
  }

  lemma {:induction false} FindSimpleIs(t: Types, q: QName)
    ensures forall c :: FindSimple(t.simple, q) == Some(c) <==> IsSimple(t, q, c)
    decreases |t.simple|
  {
    if t.simple != [] && q.local != "" && t.simple[0].name != q {
      hide IsSimple;
      var rest := t.(simple := t.simple[1..]);
      FindSimpleIs(rest, q);
      forall c: SimpleType
        ensures IsSimple(rest, q, c) <==> IsSimple(t, q, c)
      {
        SkipSimple(t, rest, q, c);
      }
    }
  }

  /** What the collector adds for a name is what its type needs. */
  lemma DepsAreEdges(t: Types, builtin: set<QName>, a: QName, d: QName)
    ensures d in Deps(t, builtin, a) <==> Edge(t, builtin, a, d)
  {
    hide FindComplex, FindSimple, IsComplex, IsSimple;
    FindComplexIs(t, a);
    FindSimpleIs(t, a);
    FoundIsMember(t, a);
  }

  lemma FoundIsMember(t: Types, q: QName)
    ensures FindComplex(t.complex, q).Some? ==> FindComplex(t.complex, q).value in t.complex
    ensures FindSimple(t.simple, q).Some? ==> FindSimple(t.simple, q).value in t.simple
  {
  }

  predicate IsPath(t: Types, builtin: set<QName>, roots: set<QName>, path: seq<QName>) {
    && path != [] && path[0] in roots
    && forall i :: 0 <= i < |path| - 1 ==> Edge(t, builtin, path[i], path[i + 1])
  }

  /** A path of such dependencies leads to the name from a root. */
  ghost predicate Reachable(t: Types, builtin: set<QName>, roots: set<QName>, q: QName) {
    exists path :: IsPath(t, builtin, roots, path) && path[|path| - 1] == q
  }

  lemma ReachRoot(t: Types, builtin: set<QName>, roots: set<QName>, q: QName)
    requires q in roots
    ensures Reachable(t, builtin, roots, q)
  {
    assert IsPath(t, builtin, roots, [q]);
  }

  lemma ReachStep(t: Types, builtin: set<QName>, roots: set<QName>, q: QName)
    requires Reachable(t, builtin, roots, q)
    ensures forall d :: d in Deps(t, builtin, q) ==> Reachable(t, builtin, roots, d)
  {
    hide Deps, Edge;
    var path :| IsPath(t, builtin, roots, path) && path[|path| - 1] == q;
    forall d | d in Deps(t, builtin, q)
      ensures Reachable(t, builtin, roots, d)
    {
      DepsAreEdges(t, builtin, q, d);
      assert IsPath(t, builtin, roots, path + [d]);
    }
  }

  /** A closed set that holds the roots holds everything reachable. */
  lemma {:induction false} ClosedHoldsPath(t: Types, builtin: set<QName>, roots: set<QName>, closed: set<QName>, path: seq<QName>)
    requires roots <= closed && forall q :: q in closed ==> Deps(t, builtin, q) <= closed
    requires IsPath(t, builtin, roots, path)
    ensures path[|path| - 1] in closed
  {
    hide Deps, Edge;
    if |path| > 1 {
      var n := |path| - 1;
      ClosedHoldsPath(t, builtin, roots, closed, path[..n]);
      DepsAreEdges(t, builtin, path[n - 1], path[n]);
      assert Edge(t, builtin, path[n - 1], path[n - 1 + 1]);
    }
  }

  // ----- names that differ in the case of the first letter -----

  predicate IsLower(c: char) {
    'a' <= c <= 'z'
  }

  predicate IsUpper(c: char) {
    'A' <= c <= 'Z'
  }

  /** upperlize on a plain identifier. */
  function Upperlize(q: QName): QName
    requires q.local != ""
  {
    if IsLower(q.local[0]) then QName(q.ns, [(q.local[0] as int - 32) as char] + q.local[1..]) else q
  }

  /** lowerlize on a plain identifier. */
  function Lowerlize(q: QName): QName
    requires q.local != ""
  {
    if IsUpper(q.local[0]) then QName(q.ns, [(q.local[0] as int + 32) as char] + q.local[1..]) else q
  }

  lemma CaseVariants(q: QName, u: QName)
    requires q.local != "" && u.local != ""
    ensures (IsLower(q.local[0]) && u == Upperlize(q)) <==> (!IsLower(u.local[0]) && q == Lowerlize(u) && q != u)
  {
    if IsLower(q.local[0]) && u == Upperlize(q) {
      assert q.local == [q.local[0]] + q.local[1..];
    }
    if !IsLower(u.local[0]) && q == Lowerlize(u) && q != u {
      assert u.local == [u.local[0]] + u.local[1..];
    }
  }

  /** `q` starts with a lowercase letter and its uppercase variant is among the names handled. */
  predicate Conflicts(t: Types, builtin: set<QName>, handled: set<QName>, q: QName) {
    q.local != "" && IsLower(q.local[0]) && Upperlize(q) in handled && KeptComplex(t, builtin, Upperlize(q))
  }

  /** The kept form of a complex type. */
  function Flagged(t: Types, builtin: set<QName>, handled: set<QName>, q: QName): ComplexType
    requires KeptComplex(t, builtin, q)
  {
    var c := FindComplex(t.complex, q).value;
    c.(conflicting := c.conflicting || Conflicts(t, builtin, handled, q))
  }

  /** The complex types kept once the names in `handled` have been processed. */
  function ComplexOf(t: Types, builtin: set<QName>, handled: set<QName>): map<QName, ComplexType> {
    map q | q in handled && KeptComplex(t, builtin, q) :: Flagged(t, builtin, handled, q)
  }

  predicate SimpleOf(t: Types, builtin: set<QName>, handled: set<QName>, used: seq<SimpleType>) {
    && (forall s :: s in used ==> s.name in handled && KeptSimple(t, builtin, s.name) && FindSimple(t.simple, s.name) == Some(s))
    && (forall q :: q in handled && KeptSimple(t, builtin, q) ==> FindSimple(t.simple, q).value in used)
    && (forall i, j :: 0 <= i < j < |used| ==> used[i].name != used[j].name)
  }

  /** What one more complex type does to the flags: its own, or its lowercase variant's. */
  lemma ComplexOfNext(t: Types, builtin: set<QName>, handled: set<QName>, q: QName, used: map<QName, ComplexType>)
    requires q !in handled && KeptComplex(t, builtin, q) && used == ComplexOf(t, builtin, handled)
    ensures var c := FindComplex(t.complex, q).value;
            ComplexOf(t, builtin, handled + {q})
            == if IsLower(q.local[0]) then
                 used[q := if Upperlize(q) in used then c.(conflicting := true) else c]
               else
                 (if Lowerlize(q) in used then used[Lowerlize(q) := used[Lowerlize(q)].(conflicting := true)] else used)[q := c]
  {
    hide Upperlize, Lowerlize, IsLower, FindComplex, KeptComplex;
    var after := handled + {q};
    assert q.local != "" by { KeptHasName(t, builtin, q); }
    forall p | p in after && KeptComplex(t, builtin, p)
      ensures p.local != ""
      ensures Conflicts(t, builtin, after, p) <==>
                Conflicts(t, builtin, handled, p) || (p != q && !IsLower(q.local[0]) && p == Lowerlize(q))
    {
      KeptHasName(t, builtin, p);
      ConflictsNext(t, builtin, handled, q, p);
    }
    assert forall p :: p in ComplexOf(t, builtin, after) <==> p in used || p == q;
  }

  lemma KeptHasName(t: Types, builtin: set<QName>, q: QName)
    requires KeptComplex(t, builtin, q)
    ensures q.local != ""
  {
  }

  lemma ConflictsNext(t: Types, builtin: set<QName>, handled: set<QName>, q: QName, p: QName)
    requires q !in handled && KeptComplex(t, builtin, q) && p.local != "" && q.local != ""
    ensures Conflicts(t, builtin, handled + {q}, p) <==>
              Conflicts(t, builtin, handled, p) || (p != q && !IsLower(q.local[0]) && p == Lowerlize(q))
  {
    hide KeptComplex;
    CaseVariants(p, q);
    CaseVariants(p, Upperlize(p));
  }

  lemma ComplexOfSkip(t: Types, builtin: set<QName>, handled: set<QName>, q: QName)
    requires !KeptComplex(t, builtin, q)
    ensures ComplexOf(t, builtin, handled + {q}) == ComplexOf(t, builtin, handled)
  {
    var a, b := ComplexOf(t, builtin, handled + {q}), ComplexOf(t, builtin, handled);
    assert forall p :: p in a <==> p in b;
    assert forall p :: p in b ==> Conflicts(t, builtin, handled + {q}, p) == Conflicts(t, builtin, handled, p);
  }

  lemma SimpleOfNext(t: Types, builtin: set<QName>, handled: set<QName>, q: QName, used: seq<SimpleType>)
    requires q !in handled && SimpleOf(t, builtin, handled, used)
    ensures KeptSimple(t, builtin, q) ==> SimpleOf(t, builtin, handled + {q}, used + [FindSimple(t.simple, q).value])
    ensures !KeptSimple(t, builtin, q) ==> SimpleOf(t, builtin, handled + {q}, used)
  {
    var after := handled + {q};
    if KeptSimple(t, builtin, q) {
      var s := FindSimple(t.simple, q).value;
      var now := used + [s];
      assert forall x :: x in now <==> x in used || x == s;
      assert forall p :: p in after && KeptSimple(t, builtin, p) ==> p == q || FindSimple(t.simple, p).value in used;
      assert forall i :: 0 <= i < |used| ==> used[i] in used;
    }
  }

  // ----- registering derived classes -----

  /** The types that name `base` as their base, in order. */
  function DerivedFrom(complex: seq<ComplexType>, base: QName): seq<QName> {
    if complex == [] then []
    else
      var n := |complex| - 1;
      DerivedFrom(complex[..n], base) + if !complex[n].base.IsEmpty() && complex[n].base == base then [complex[n].name] else []
  }

  lemma {:induction false} DerivedFromIs(complex: seq<ComplexType>, base: QName)
    ensures forall d :: d in DerivedFrom(complex, base) <==>
              exists c :: c in complex && !c.base.IsEmpty() && c.base == base && c.name == d
  {
    if complex != [] {
      var n := |complex| - 1;
      DerivedFromIs(complex[..n], base);
      assert complex == complex[..n] + [complex[n]];
    }
  }

  /** The types once the first `d` of them have been added to their base classes' lists. */
  function Registered(before: seq<ComplexType>, d: nat): (r: seq<ComplexType>)
    requires d <= |before|
    ensures |r| == |before|
  {
    seq(|before|, i requires 0 <= i < |before| =>
      before[i].(derived := before[i].derived + DerivedFrom(before[..d], before[i].name)))
  }

  lemma RegisteredNone(before: seq<ComplexType>)
    ensures Registered(before, 0) == before
  {
    assert before[..0] == [];
    forall i | 0 <= i < |before|
      ensures Registered(before, 0)[i] == before[i]
    {
      assert before[i].derived + [] == before[i].derived;
    }
  }

  lemma RegisteredNext(before: seq<ComplexType>, d: nat, complex: seq<ComplexType>)
    requires d < |before| && |complex| == |before|
    requires forall k :: 0 <= k < |before| ==>
               var c := Registered(before, d)[k];
               complex[k] == if !before[d].base.IsEmpty() && before[d].base == c.name
                             then c.(derived := c.derived + [before[d].name]) else c
    ensures complex == Registered(before, d + 1)
  {
    var prefix := before[..d + 1];
    assert prefix[..d] == before[..d] && prefix[d] == before[d];
    forall k | 0 <= k < |before|
      ensures complex[k] == Registered(before, d + 1)[k]
    {
      assert before[k].derived + (DerivedFrom(before[..d], before[k].name) + [before[d].name])
          == before[k].derived + DerivedFrom(before[..d], before[k].name) + [before[d].name];
      assert DerivedFrom(before[..d], before[k].name) + [] == DerivedFrom(before[..d], before[k].name);
    }
  }

  class TypeCollector {
    var allTypes: Types
    var allUsedTypes: set<QName>
    var alsoUsedTypes: set<QName>
    var usedComplexTypes: map<QName, ComplexType>
    var usedSimpleTypes: seq<SimpleType>

    constructor (allTypes: Types, usedTypes: set<QName>)
      ensures this.allTypes == allTypes && allUsedTypes == usedTypes && alsoUsedTypes == {}
      ensures usedComplexTypes == map[] && usedSimpleTypes == []
    {
      this.allTypes := allTypes;
      allUsedTypes, alsoUsedTypes, usedComplexTypes, usedSimpleTypes := usedTypes, {}, map[], [];
    }

    /** Turn the base links around: every base class gets the list of its derived types. */
    method RegisterDerivedClasses()
      modifies this`allTypes
      ensures allTypes == old(allTypes).(complex := Registered(old(allTypes).complex, |old(allTypes).complex|))
    {
      hide DerivedFrom, Registered;
      var before := allTypes.complex;
      var complex := before;
      RegisteredNone(before);
      var d := 0;
      while d < |before|
        invariant 0 <= d <= |before|
        invariant allTypes == old(allTypes) && complex == Registered(before, d)
      {
        var base := before[d].base;
        if !base.IsEmpty() {
          complex := AddDerivedType(complex, base, before[d].name);
        }
        RegisteredNext(before, d, complex);
        d := d + 1;
      }
      allTypes := allTypes.(complex := complex);
    }

    /** Add `derived` to every type called `base`. */
    method AddDerivedType(types: seq<ComplexType>, base: QName, derived: QName) returns (complex: seq<ComplexType>)
      ensures |complex| == |types|
      ensures forall k :: 0 <= k < |types| ==>
                complex[k] == if base == types[k].name then types[k].(derived := types[k].derived + [derived]) else types[k]
    {
      complex := types;
      var i := 0;
      while i < |complex|
        invariant 0 <= i <= |complex| == |types|
        invariant forall k :: 0 <= k < |types| ==>
                    complex[k] == if k < i && base == types[k].name
                                  then types[k].(derived := types[k].derived + [derived]) else types[k]
      {
        if base == complex[i].name {
          complex := complex[i := complex[i].(derived := complex[i].derived + [derived])];
        }
        i := i + 1;
      }
    }

    method AddDependency(q: QName)
      modifies this`alsoUsedTypes, this`allUsedTypes
      ensures var news := if q.IsEmpty() then {} else {q} - old(allUsedTypes) - old(alsoUsedTypes);
              alsoUsedTypes == old(alsoUsedTypes) + news && allUsedTypes == old(allUsedTypes) + news
    {
      if !q.IsEmpty() && q !in allUsedTypes && q !in alsoUsedTypes {
        alsoUsedTypes := alsoUsedTypes + {q};
        allUsedTypes := allUsedTypes + {q};
      }
    }

    method AddDependencies(names: seq<QName>)
      requires alsoUsedTypes <= allUsedTypes
      modifies this`alsoUsedTypes, this`allUsedTypes
      ensures alsoUsedTypes == old(alsoUsedTypes) + (Elements(names) - old(allUsedTypes))
      ensures allUsedTypes == old(allUsedTypes) + Elements(names)
    {
      var i := 0;
      while i < |names|
        invariant 0 <= i <= |names|
        invariant alsoUsedTypes == old(alsoUsedTypes) + (Elements(names[..i]) - old(allUsedTypes))
        invariant allUsedTypes == old(allUsedTypes) + Elements(names[..i])
      {
        assert names[..i + 1] == names[..i] + [names[i]];
        AddDependency(names[i]);
        i := i + 1;
      }
      assert names[..|names|] == names;
    }

    /** A type Foo and an anonymous type foo would both become a class Foo: flag foo. */
    method FixupComplexType(c: ComplexType) returns (fixed: ComplexType)
      requires c.name.local != ""
      modifies this`usedComplexTypes
      ensures var q := c.name;
              if IsLower(q.local[0]) then
                usedComplexTypes == old(usedComplexTypes)
                && fixed == if Upperlize(q) in old(usedComplexTypes) then c.(conflicting := true) else c
              else
                fixed == c
                && usedComplexTypes == if Lowerlize(q) in old(usedComplexTypes)
                                       then old(usedComplexTypes)[Lowerlize(q) := old(usedComplexTypes)[Lowerlize(q)].(conflicting := true)]
                                       else old(usedComplexTypes)
    {
      fixed := c;
      if IsLower(c.name.local[0]) {
        if Upperlize(c.name) in usedComplexTypes {
          fixed := c.(conflicting := true);
        }
      } else {
        var lower := Lowerlize(c.name);
        if lower in usedComplexTypes {
          var lowerType := usedComplexTypes[lower];
          usedComplexTypes := usedComplexTypes - {lower};
          usedComplexTypes := usedComplexTypes[lower := lowerType.(conflicting := true)];
        }
      }
    }

    /** One name of the worklist. */
    method ProcessType(builtin: set<QName>, q: QName, ghost handled: set<QName>)
      requires alsoUsedTypes <= allUsedTypes && q !in handled
      requires usedComplexTypes == ComplexOf(allTypes, builtin, handled)
      requires SimpleOf(allTypes, builtin, handled, usedSimpleTypes)
      modifies this`alsoUsedTypes, this`allUsedTypes, this`usedComplexTypes, this`usedSimpleTypes
      ensures usedComplexTypes == ComplexOf(allTypes, builtin, handled + {q})
      ensures SimpleOf(allTypes, builtin, handled + {q}, usedSimpleTypes)
      ensures alsoUsedTypes == old(alsoUsedTypes) + (Deps(allTypes, builtin, q) - old(allUsedTypes))
      ensures allUsedTypes == old(allUsedTypes) + Deps(allTypes, builtin, q)
    {
      hide ComplexOf, SimpleOf, SimpleDeps;
      SimpleOfNext(allTypes, builtin, handled, q, usedSimpleTypes);
      if q.IsEmpty() || q in builtin {
        ComplexOfSkip(allTypes, builtin, handled, q);
        return;
      }
      var found := FindComplex(allTypes.complex, q);
      if found.Some? {
        ComplexOfNext(allTypes, builtin, handled, q, usedComplexTypes);
        var complexType := FixupComplexType(found.value);
        usedComplexTypes := usedComplexTypes[q := complexType];
        AddComplexDependencies(complexType);
      } else {
        ComplexOfSkip(allTypes, builtin, handled, q);
        var simple := FindSimple(allTypes.simple, q);
        if simple.Some? {
          usedSimpleTypes := usedSimpleTypes + [simple.value];
          AddSimpleDependencies(simple.value);
        }
      }
    }

    method AddComplexDependencies(c: ComplexType)
      requires alsoUsedTypes <= allUsedTypes
      modifies this`alsoUsedTypes, this`allUsedTypes
      ensures alsoUsedTypes == old(alsoUsedTypes) + (ComplexDeps(c) - old(allUsedTypes))
      ensures allUsedTypes == old(allUsedTypes) + ComplexDeps(c)
    {
      AddDependency(c.base);
      AddDependencies(c.derived);
      AddDependencies(c.elementTypes);
      AddDependencies(c.attributeTypes);
      AddDependency(c.arrayType);
    }

    method AddSimpleDependencies(s: SimpleType)
      requires alsoUsedTypes <= allUsedTypes
      modifies this`alsoUsedTypes, this`allUsedTypes
      ensures alsoUsedTypes == old(alsoUsedTypes) + (SimpleDeps(s) - old(allUsedTypes))
      ensures allUsedTypes == old(allUsedTypes) + SimpleDeps(s)
    {
      AddDependency(s.base);
      if s.isList {
        AddDependency(s.listType);
      }
    }

    /**
     The worklist. It terminates on every schema, keeps exactly the defined types reachable from the roots, each once,
     and flags a complex type exactly when its uppercase variant is kept too, whatever the order of processing.
     */
    method CollectDependentTypes(builtin: set<QName>)
      requires usedComplexTypes == map[] && usedSimpleTypes == []
      modifies this`alsoUsedTypes, this`allUsedTypes, this`usedComplexTypes, this`usedSimpleTypes
      ensures forall q :: q in allUsedTypes <==> Reachable(allTypes, builtin, old(allUsedTypes), q)
      ensures usedComplexTypes == ComplexOf(allTypes, builtin, allUsedTypes)
      ensures SimpleOf(allTypes, builtin, allUsedTypes, usedSimpleTypes)
    {
      hide ComplexOf, SimpleOf, Deps, Universe, Reachable;
      var typesToProcess := allUsedTypes;
      ghost var roots := allUsedTypes;
      ghost var universe := Universe(allTypes, roots);
      ghost var handled: set<QName> := {};
      StartEmpty(allTypes, builtin, roots);
      var more := true;
      while more
        invariant Worklist(allTypes, builtin, roots, allUsedTypes, handled, typesToProcess, {})
        invariant usedComplexTypes == ComplexOf(allTypes, builtin, handled)
        invariant SimpleOf(allTypes, builtin, handled, usedSimpleTypes)
        invariant !more ==> typesToProcess == {}
        decreases universe - handled, more
      {
        alsoUsedTypes := {};
        ghost var before := handled;
        var todo := typesToProcess;
        while todo != {}
          invariant Worklist(allTypes, builtin, roots, allUsedTypes, handled, todo, alsoUsedTypes)
          invariant usedComplexTypes == ComplexOf(allTypes, builtin, handled)
          invariant SimpleOf(allTypes, builtin, handled, usedSimpleTypes)
          invariant before <= handled && (todo != typesToProcess ==> before < handled)
          invariant todo == {} && typesToProcess == {} ==> alsoUsedTypes == {}
          decreases todo
        {
          var q :| q in todo;
          WorklistStep(allTypes, builtin, roots, allUsedTypes, handled, todo, alsoUsedTypes, q);
          ProcessType(builtin, q, handled);
          todo := todo - {q};
          handled := handled + {q};
        }
        typesToProcess := alsoUsedTypes;
        more := typesToProcess != {};
      }
      WorklistDone(allTypes, builtin, roots, allUsedTypes, handled);
    }
  }

  /** Everything used is handled, to be handled now, or for the next round; all of it is reachable, and what is handled is closed. */
  ghost predicate Worklist(t: Types, builtin: set<QName>, roots: set<QName>, used: set<QName>, handled: set<QName>,
                           todo: set<QName>, next: set<QName>)
  {
    && used == handled + todo + next && handled !! todo !! next
    && roots <= used && used <= Universe(t, roots)
    && (forall q :: q in used ==> Reachable(t, builtin, roots, q))
    && (forall q :: q in handled ==> Deps(t, builtin, q) <= used)
  }

  lemma StartEmpty(t: Types, builtin: set<QName>, roots: set<QName>)
    ensures Worklist(t, builtin, roots, roots, {}, roots, {})
    ensures ComplexOf(t, builtin, {}) == map[]
    ensures SimpleOf(t, builtin, {}, [])
  {
    hide Deps, Reachable;
    forall q | q in roots
      ensures Reachable(t, builtin, roots, q)
    {
      ReachRoot(t, builtin, roots, q);
    }
  }

  lemma WorklistStep(t: Types, builtin: set<QName>, roots: set<QName>, used: set<QName>, handled: set<QName>,
                     todo: set<QName>, next: set<QName>, q: QName)
    requires Worklist(t, builtin, roots, used, handled, todo, next) && q in todo
    ensures q !in handled && next <= used
    ensures var deps := Deps(t, builtin, q);
            Worklist(t, builtin, roots, used + deps, handled + {q}, todo - {q}, next + (deps - used))
  {
    hide Deps, Reachable, Universe;
    DepsInUniverse(t, builtin, roots, q);
    ReachStep(t, builtin, roots, q);
  }

  lemma WorklistDone(t: Types, builtin: set<QName>, roots: set<QName>, used: set<QName>, handled: set<QName>)
    requires Worklist(t, builtin, roots, used, handled, {}, {})
    ensures used == handled
    ensures forall q :: q in used <==> Reachable(t, builtin, roots, q)
  {
    hide Deps, Universe;
    forall q | Reachable(t, builtin, roots, q)
      ensures q in used
    {
      var path :| IsPath(t, builtin, roots, path) && path[|path| - 1] == q;
      ClosedHoldsPath(t, builtin, roots, used, path);
    }
  }

  // ----- consequences -----

  /** Kept are the complex types of the names handled, as they were defined but for the flag. */
  lemma KeptComplexTypes(t: Types, builtin: set<QName>, handled: set<QName>, q: QName)
    ensures q in ComplexOf(t, builtin, handled) <==>
              q in handled && !q.IsEmpty() && q !in builtin && exists c :: c in t.complex && IsComplex(t, q, c)
    ensures q in ComplexOf(t, builtin, handled) ==>
              forall c :: IsComplex(t, q, c) ==> ComplexOf(t, builtin, handled)[q].(conflicting := c.conflicting) == c
  {
    hide FindComplex, IsComplex, Conflicts;
    FindComplexIs(t, q);
    FoundIsMember(t, q);
  }

  /** And the simple types of those that are not names of complex ones, once each. */
  lemma KeptSimpleTypes(t: Types, builtin: set<QName>, handled: set<QName>, used: seq<SimpleType>, s: SimpleType)
    requires SimpleOf(t, builtin, handled, used)
    ensures s in used <==> s.name in handled && !s.name.IsEmpty() && s.name !in builtin && IsSimple(t, s.name, s)
                           && !exists c :: c in t.complex && IsComplex(t, s.name, c)
    ensures forall i, j :: 0 <= i < j < |used| ==> used[i].name != used[j].name
  {
    hide FindComplex, FindSimple, IsComplex, IsSimple;
    FindComplexIs(t, s.name);
    FindSimpleIs(t, s.name);
    FoundIsMember(t, s.name);
  }

  /** `u` is `q` with its first letter, a lowercase one, made uppercase. */
  predicate IsCapitalized(q: QName, u: QName) {
    && q.ns == u.ns && q.local != "" && u.local != "" && q.local[1..] == u.local[1..]
    && 'a' <= q.local[0] <= 'z' && u.local[0] as int + 32 == q.local[0] as int
  }

  /** A kept type that was not flagged before is flagged exactly when its capitalized variant is kept too. */
  lemma LowercaseIsFlagged(t: Types, builtin: set<QName>, handled: set<QName>, q: QName)
    requires q in ComplexOf(t, builtin, handled)
    requires !FindComplex(t.complex, q).value.conflicting
    ensures ComplexOf(t, builtin, handled)[q].conflicting <==>
              exists u :: u in ComplexOf(t, builtin, handled) && IsCapitalized(q, u)
    ensures q.local != "" && ('A' <= q.local[0] <= 'Z' ==> !ComplexOf(t, builtin, handled)[q].conflicting)
  {
    hide FindComplex;
    KeptHasName(t, builtin, q);
    var all := ComplexOf(t, builtin, handled);
    var v := Upperlize(q);
    if IsLower(q.local[0]) {
      assert IsCapitalized(q, v);
    }
    forall u | u in all && IsCapitalized(q, u)
      ensures u == v
    {
      assert u.local == [u.local[0]] + u.local[1..];
    }
  }

  /** Registration adds to every type the names of those that have it as their base, and nothing else. */
  lemma DerivedAreRegistered(before: seq<ComplexType>, i: nat, d: QName)
    requires i < |before|
    ensures d in Registered(before, |before|)[i].derived <==>
              d in before[i].derived || exists c :: c in before && !c.base.IsEmpty() && c.base == before[i].name && c.name == d
    ensures Registered(before, |before|)[i].(derived := before[i].derived) == before[i]
  {
    hide DerivedFrom;
    assert before[..|before|] == before;
    DerivedFromIs(before, before[i].name);
  }

  /** After registration, a kept base class keeps every type derived from it. */
  lemma DerivedAreKept(before: seq<ComplexType>, t: Types, builtin: set<QName>, roots: set<QName>, base: QName, d: ComplexType)
    requires t.complex == Registered(before, |before|)
    requires d in before && !d.base.IsEmpty() && d.base == base && !d.name.IsEmpty()
    requires Reachable(t, builtin, roots, base) && KeptComplex(t, builtin, base)
    ensures Reachable(t, builtin, roots, d.name)
  {
    hide Reachable;
    var c := FindComplex(t.complex, base).value;
    var i :| 0 <= i < |t.complex| && t.complex[i] == c;
    assert before[..|before|] == before;
    DerivedFromIs(before, base);
    assert d.name in c.derived;
    assert d.name in Deps(t, builtin, base);
    ReachStep(t, builtin, roots, base);
  }
}
