/**
 Qualified names: KDQName, how it travels in a KDSoapValue, and lists of names.
 Scoping as in section 6.1 of Namespaces in XML 1.0: the innermost declaration of a prefix counts.
 */
module QNames {
  import opened SimpleTypes
  import opened SoapValue
  import opened Text
  import opened Wrappers

  datatype QName = QName(ns: string, local: string, prefix: string)

  const NO_NAME := QName("", "", "")

  /** qname(): the name as it is written. */
  function Written(q: QName): string {
    if q.prefix == "" then q.local else q.prefix + ":" + q.local
  }

  /** parse(): a name without a colon leaves the prefix that was there. */
  function Parsed(q: QName, str: string): QName {
    var pos := IndexOfChar(str, ':');
    if pos >= 0 then q.(prefix := str[..pos], local := str[pos + 1..]) else q.(local := str)
  }

  /** The last declaration of a prefix. */
  function LastBinding(decls: seq<NsDecl>, prefix: string): Option<string> {
    if decls == [] then None
    else
      var n := |decls| - 1;
      if decls[n].prefix == prefix then Some(decls[n].uri) else LastBinding(decls[..n], prefix)
  }

  lemma NoBinding(prefix: string)
    ensures LastBinding([], prefix) == None
  {
  }

  lemma BindingSnoc(decls: seq<NsDecl>, i: nat, prefix: string)
    requires i < |decls|
    ensures LastBinding(decls[..i + 1], prefix) == if decls[i].prefix == prefix then Some(decls[i].uri) else LastBinding(decls[..i], prefix)
  {
    assert decls[..i + 1][..i] == decls[..i];
  }

  function Declarations(q: QName): seq<NsDecl> {
    if q.prefix != "" && q.ns != "" then [NsDecl(q.prefix, q.ns)] else []
  }

  function ToSoapValue(q: QName, name: string): Value {
    NewValue(name, Some(Written(q))).(decls := Declarations(q))
  }

  function FromSoapValue(v: Value): QName {
    var q := Parsed(NO_NAME, v.text.GetOr(""));
    q.(ns := LastBinding(v.envDecls, q.prefix).GetOr(""))
  }

  /** The class: its methods update the fields in place. */
  class KDQName {
    var ns: string
    var local: string
    var prefix: string

    function Name(): QName
      reads this
    {
      QName(ns, local, prefix)
    }

    constructor ()
      ensures Name() == NO_NAME
    {
      ns, local, prefix := "", "", "";
    }

    method Parse(str: string)
      modifies this`local, this`prefix
      ensures Name() == Parsed(old(Name()), str)
    {
      var pos := IndexOfChar(str, ':');
      if pos >= 0 {
        prefix := str[..pos];
        local := str[pos + 1..];
      } else {
        local := str;
      }
    }

    /** fromSoapValue(): every matching declaration overwrites the namespace. */
    method Read(v: Value)
      requires Name() == NO_NAME
      modifies this
      ensures Name() == FromSoapValue(v)
    {
      hide LastBinding, Parsed, IndexOfChar;
      Parse(v.text.GetOr(""));
      ghost var parsed := Name();
      NoBinding(parsed.prefix);
      for i := 0 to |v.envDecls|
        invariant Name() == parsed.(ns := LastBinding(v.envDecls[..i], parsed.prefix).GetOr(""))
      {
        BindingSnoc(v.envDecls, i, parsed.prefix);
        if v.envDecls[i].prefix == prefix {
          ns := v.envDecls[i].uri;
        }
      }
      assert v.envDecls[..|v.envDecls|] == v.envDecls;
    }
  }

  /** A name as XML has it: not empty, without colons and white space. */
  predicate IsNcName(s: string) {
    s != "" && forall c :: c in s ==> c != ':' && !IsSpace(c)
  }

  predicate IsName(q: QName) {
    IsNcName(q.local) && (q.prefix == "" || IsNcName(q.prefix))
  }

  lemma ParsedWritten(q: QName, into: QName)
    requires IsName(q)
    ensures Written(q) != ""
    ensures Parsed(into, Written(q)) == into.(local := q.local, prefix := if q.prefix == "" then into.prefix else q.prefix)
  {
    var s := Written(q);
    if q.prefix != "" {
      assert s[|q.prefix|] == ':' && s[..|q.prefix|] == q.prefix && s[|q.prefix| + 1..] == q.local;
      FirstChar(s, ':', |q.prefix|);
    } else if IndexOfChar(s, ':') >= 0 {
      assert s[IndexOfChar(s, ':')] in q.local;
    }
  }

  /** Assigning a name without a prefix to a KDQName that has one leaves a name with the old prefix. */
  lemma StalePrefix(q: QName, local: string)
    requires IsNcName(local)
    ensures Written(Parsed(q, local)) == local <==> q.prefix == ""
  {
    ParsedWritten(QName("", local, ""), q);
  }

  lemma {:induction false} LastBindingAppend(a: seq<NsDecl>, b: seq<NsDecl>, prefix: string)
    ensures LastBinding(a + b, prefix) == if LastBinding(b, prefix).Some? then LastBinding(b, prefix) else LastBinding(a, prefix)
  {
    if b == [] {
      assert a + b == a;
    } else {
      var n := |b| - 1;
      assert (a + b)[..|a + b| - 1] == a + b[..n];
      LastBindingAppend(a, b[..n], prefix);
    }
  }

  /**
   A name comes back from being written and parsed, whatever its ancestors declare, exactly when it brings its own
   declaration or the innermost binding of its prefix out there happens to be its namespace.
   */
  lemma NameRoundTrip(q: QName, name: string, ns: string, messageNs: string, env: seq<NsDecl>)
    requires IsName(q)
    ensures FromSoapValue(CanonAs(ToSoapValue(q, name), ns, name, messageNs, env)) == q <==>
            (q.prefix != "" && q.ns != "") || LastBinding(env, q.prefix).GetOr("") == q.ns
  {
    ParsedWritten(q, NO_NAME);
    LastBindingAppend(env, Declarations(q), q.prefix);
    OneBinding(q);
  }

  lemma OneBinding(q: QName)
    ensures LastBinding(Declarations(q), q.prefix) == if q.prefix != "" && q.ns != "" then Some(q.ns) else None
    ensures forall other :: other != q.prefix ==> LastBinding(Declarations(q), other) == None
  {
    if Declarations(q) != [] {
      assert Declarations(q)[..0] == [];
    }
  }

  /** What a name looks like: its prefix, a colon and its local part, with the prefix declared on the same element. */
  lemma NameAsText(q: QName, name: string, ns: string, messageNs: string)
    requires q.local != ""
    ensures PrintAs(ToSoapValue(q, name), ns, name, messageNs)
         == [Start(ns, name, if q.prefix != "" && q.ns != "" then [NsDecl(q.prefix, q.ns)] else [], []),
             Chars(if q.prefix == "" then q.local else q.prefix + ":" + q.local), End]
  {
    var v := ToSoapValue(q, name);
    assert [] + v.decls == v.decls;
    assert NilAttr(v) + PrintAttrs(v.attrs, false) == [];
    assert PrintAll([], messageNs, false) == [];
  }

  /** The same over XML tokens. */
  lemma NameThroughXml(q: QName, name: string, ns: string, messageNs: string, env: seq<NsDecl>, tokens: seq<Token>, i: nat)
    requires IsName(q) && q.prefix != "" && q.ns != ""
    requires TokensAt(tokens, i, PrintAs(ToSoapValue(q, name), ns, name, messageNs))
    ensures i < |tokens| && tokens[i].Start?
    ensures FromSoapValue(Parse(tokens, i, env).0) == q
  {
    hide CanonAs, FromSoapValue, ToSoapValue, Parse;
    assert tokens[i] == PrintAs(ToSoapValue(q, name), ns, name, messageNs)[0];
    ParsePrinted(ToSoapValue(q, name), ns, name, messageNs, env, tokens, i);
    NameRoundTrip(q, name, ns, messageNs, env);
  }

  /** An xsi:type resolves its prefix by the outermost declaration instead; that is right only if nothing outside binds it otherwise. */
  lemma TypeTakesOutermost(q: QName, env: seq<NsDecl>)
    requires IsName(q) && q.prefix != "" && q.ns != ""
    ensures ResolveType(Written(q), env + Declarations(q)).ns == q.ns <==>
            (forall i :: 0 <= i < |env| ==> env[i].prefix != q.prefix)
            || NamespaceForPrefix(env, q.prefix) == q.ns
    ensures ResolveType(Written(q), env + Declarations(q)).name == q.local
  {
    ParsedWritten(q, NO_NAME);
    FirstBinding(env, Declarations(q), q.prefix);
  }

  lemma {:induction false} FirstBinding(a: seq<NsDecl>, b: seq<NsDecl>, prefix: string)
    ensures NamespaceForPrefix(a + b, prefix)
         == if exists i :: 0 <= i < |a| && a[i].prefix == prefix then NamespaceForPrefix(a, prefix) else NamespaceForPrefix(b, prefix)
  {
    if a == [] {
      assert a + b == b;
    } else {
      assert (a + b)[1..] == a[1..] + b;
      FirstBinding(a[1..], b, prefix);
      if exists i :: 0 <= i < |a[1..]| && a[1..][i].prefix == prefix {
        var i :| 0 <= i < |a[1..]| && a[1..][i].prefix == prefix;
        assert a[i + 1].prefix == prefix;
      } else if a[0].prefix != prefix {
        assert forall i :: 0 <= i < |a| ==> a[i].prefix != prefix by {
          forall i | 0 <= i < |a| ensures a[i].prefix != prefix {
            if i > 0 {
              assert a[1..][i - 1].prefix != prefix;
            }
          }
        }
      }
    }
  }

  // ----- lists of names -----

  function AllDeclarations(qs: seq<QName>): seq<NsDecl> {
    if qs == [] then [] else AllDeclarations(qs[..|qs| - 1]) + Declarations(qs[|qs| - 1])
  }

  function WrittenAll(qs: seq<QName>): (r: seq<string>)
    ensures |r| == |qs| && forall i :: 0 <= i < |qs| ==> r[i] == Written(qs[i])
  {
    seq(|qs|, i requires 0 <= i < |qs| => Written(qs[i]))
  }

  lemma NamesSnoc(qs: seq<QName>, i: nat)
    requires i <= |qs|
    ensures i == 0 ==> Joined(WrittenAll(qs[..0])) == "" && AllDeclarations(qs[..0]) == []
    ensures i < |qs| ==> AllDeclarations(qs[..i + 1]) == AllDeclarations(qs[..i]) + Declarations(qs[i])
    ensures i < |qs| ==> var front := Joined(WrittenAll(qs[..i]));
              Joined(WrittenAll(qs[..i + 1])) == (if front != "" then front + " " else front) + Written(qs[i])
  {
    hide Written;
    if i < |qs| {
      assert qs[..i + 1][..i] == qs[..i];
      assert WrittenAll(qs[..i + 1])[..i] == WrittenAll(qs[..i]);
      var front := Joined(WrittenAll(qs[..i]));
      assert front + "" == front;
    }
  }

  /** The generated serialize() of a list of names. */
  method SerializeNames(qs: seq<QName>, name: string) returns (v: Value)
    ensures v == NewValue(name, Some(Joined(WrittenAll(qs)))).(decls := AllDeclarations(qs))
  {
    hide Joined, AllDeclarations, Written, Declarations;
    var str, decls := "", [];
    NamesSnoc(qs, 0);
    for i := 0 to |qs|
      invariant str == Joined(WrittenAll(qs[..i])) && decls == AllDeclarations(qs[..i])
    {
      NamesSnoc(qs, i);
      if str != "" {
        str := str + " ";
      }
      var sub := ToSoapValue(qs[i], "");
      str := str + sub.text.GetOr("");
      decls := decls + sub.decls;
    }
    assert qs[..|qs|] == qs;
    v := NewValue(name, Some(str)).(decls := decls);
  }

  /** KDSoapValue::split: copies of the value, one for each word of its text. */
  method Split(v: Value) returns (list: seq<Value>)
    ensures |list| == |Words(v.text.GetOr(""))|
    ensures forall i :: 0 <= i < |list| ==> list[i] == v.(text := Some(Words(v.text.GetOr(""))[i]))
  {
    var words := Words(v.text.GetOr(""));
    list := [];
    for i := 0 to |words|
      invariant |list| == i && forall j :: 0 <= j < i ==> list[j] == v.(text := Some(words[j]))
    {
      list := list + [v.(text := Some(words[i]))];
    }
  }

  /** The generated deserialize() of a list of names, on a fresh object. */
  function ReadNames(v: Value): (r: seq<QName>)
    ensures Trimmed(v.text.GetOr("")) != "" ==> |r| == |Words(v.text.GetOr(""))|
  {
    if Trimmed(v.text.GetOr("")) == "" then []
    else
      var words := Words(v.text.GetOr(""));
      seq(|words|, i requires 0 <= i < |words| => FromSoapValue(v.(text := Some(words[i]))))
  }

  predicate Declares(q: QName) {
    q.prefix != "" && q.ns != ""
  }

  /** Every name's prefix means its namespace: no two declarations clash, and a name without one is bound outside. */
  predicate Unambiguous(qs: seq<QName>, env: seq<NsDecl>) {
    && (forall i, j :: 0 <= i < |qs| && 0 <= j < |qs| && Declares(qs[i]) && Declares(qs[j]) && qs[i].prefix == qs[j].prefix ==> qs[i].ns == qs[j].ns)
    && (forall i :: 0 <= i < |qs| && !Declares(qs[i]) ==>
          LastBinding(env, qs[i].prefix).GetOr("") == qs[i].ns
          && forall j :: 0 <= j < |qs| && Declares(qs[j]) ==> qs[j].prefix != qs[i].prefix)
  }

  /** The binding a prefix gets from a list of names is that of the last name that declares it. */
  lemma {:induction false} ListBinding(qs: seq<QName>, prefix: string) returns (i: nat)
    ensures LastBinding(AllDeclarations(qs), prefix).None? ==> forall j :: 0 <= j < |qs| && Declares(qs[j]) ==> qs[j].prefix != prefix
    ensures LastBinding(AllDeclarations(qs), prefix).Some? ==>
              i < |qs| && Declares(qs[i]) && qs[i].prefix == prefix && LastBinding(AllDeclarations(qs), prefix).value == qs[i].ns
  {
    i := 0;
    if qs != [] {
      var n := |qs| - 1;
      i := ListBinding(qs[..n], prefix);
      OneBinding(qs[n]);
      LastBindingAppend(AllDeclarations(qs[..n]), Declarations(qs[n]), prefix);
      if Declares(qs[n]) && qs[n].prefix == prefix {
        i := n;
      }
    }
  }

  lemma AllBound(qs: seq<QName>, env: seq<NsDecl>)
    ensures (forall i :: 0 <= i < |qs| ==> LastBinding(env + AllDeclarations(qs), qs[i].prefix).GetOr("") == qs[i].ns) <==> Unambiguous(qs, env)
  {
    hide LastBinding, AllDeclarations;
    forall i | 0 <= i < |qs|
      ensures LastBinding(env + AllDeclarations(qs), qs[i].prefix)
           == if LastBinding(AllDeclarations(qs), qs[i].prefix).Some? then LastBinding(AllDeclarations(qs), qs[i].prefix)
              else LastBinding(env, qs[i].prefix)
      ensures exists k: nat :: ListBindingIs(qs, qs[i].prefix, k)
    {
      LastBindingAppend(env, AllDeclarations(qs), qs[i].prefix);
      var k := ListBinding(qs, qs[i].prefix);
      assert ListBindingIs(qs, qs[i].prefix, k);
    }
  }

  predicate ListBindingIs(qs: seq<QName>, prefix: string, k: nat) {
    var b := LastBinding(AllDeclarations(qs), prefix);
    if b.None? then forall j :: 0 <= j < |qs| && Declares(qs[j]) ==> qs[j].prefix != prefix
    else k < |qs| && Declares(qs[k]) && qs[k].prefix == prefix && b.value == qs[k].ns
  }

  lemma WrittenIsWord(q: QName)
    requires IsName(q)
    ensures IsWord(Written(q)) && !IsSpace(Written(q)[0])
  {
    ParsedWritten(q, NO_NAME);
    if q.prefix != "" {
      assert Written(q)[0] == q.prefix[0] && q.prefix[0] in q.prefix;
    } else {
      assert q.local[0] in q.local;
    }
  }

  /** A list of names survives being joined, written, parsed and split exactly when no prefix in it is ambiguous. */
  lemma NameListRoundTrip(qs: seq<QName>, name: string, ns: string, messageNs: string, env: seq<NsDecl>)
    requires forall i :: 0 <= i < |qs| ==> IsName(qs[i])
    ensures var v := NewValue(name, Some(Joined(WrittenAll(qs)))).(decls := AllDeclarations(qs));
            ReadNames(CanonAs(v, ns, name, messageNs, env)) == qs <==> Unambiguous(qs, env)
  {
    hide Words, Joined, IsName, LastBinding, AllDeclarations, IsSpace, Unambiguous;
    var str := Joined(WrittenAll(qs));
    var v := NewValue(name, Some(str)).(decls := AllDeclarations(qs));
    var w := CanonAs(v, ns, name, messageNs, env);
    assert w.text.GetOr("") == str && w.envDecls == env + AllDeclarations(qs);
    forall i | 0 <= i < |qs| ensures IsWord(WrittenAll(qs)[i]) {
      WrittenIsWord(qs[i]);
    }
    JoinThenSplit(WrittenAll(qs));
    AllBound(qs, env);
    TrimmedEmpty(str);
    if qs == [] {
      assert str == "" by { JoinedNone(); }
    } else {
      WrittenIsWord(qs[0]);
      JoinedChars(WrittenAll(qs), 0, Written(qs[0])[0]);
      var r := ReadNames(w);
      forall i | 0 <= i < |qs| ensures r[i] == qs[i].(ns := LastBinding(w.envDecls, qs[i].prefix).GetOr("")) {
        ParsedWritten(qs[i], NO_NAME);
      }
      assert r == qs <==> forall i :: 0 <= i < |qs| ==> LastBinding(w.envDecls, qs[i].prefix).GetOr("") == qs[i].ns;
    }
  }

  lemma JoinedNone()
    ensures Joined([]) == ""
  {
  }
}
