/**
 The serialize and deserialize functions generated for XSD simple types: enumerations, lists and restrictions.
 A value of a builtin type is its lexical text; the generated C++ converts it at once.
 */
module SimpleTypes {
  import opened Text
  import opened Wrappers

  /** A schema's simple type. A builtin type is known by the text of its default-constructed value. */
  datatype SimpleType =
    | Builtin(initial: string)
    | Enumeration(literals: seq<string>)
    | Restriction(base: SimpleType)
    | ListOf(item: SimpleType)

  datatype Data = Plain(text: string) | Choice(index: nat) | Entries(entries: seq<Data>)

  // ----- enumerations -----

  datatype Case = Case(value: nat, literal: string)

  /** One emitted switch statement: the literal of its first matching case. */
  function RunSwitch(cases: seq<Case>, v: nat): Option<string> {
    if cases == [] then None else if cases[0].value == v then Some(cases[0].literal) else RunSwitch(cases[1..], v)
  }

  /** The emitted stringValue(): a chain of switches whose default falls through to the next. */
  function RunSwitches(code: seq<seq<Case>>, v: nat): Option<string> {
    if code == [] then None
    else
      var r := RunSwitch(code[0], v);
      if r.Some? then r else RunSwitches(code[1..], v)
  }

  lemma {:induction false} RunSwitchSnoc(cases: seq<Case>, c: Case, v: nat)
    ensures RunSwitch(cases + [c], v)
         == if RunSwitch(cases, v).Some? then RunSwitch(cases, v) else if c.value == v then Some(c.literal) else None
  {
    if cases == [] {
      assert [c][1..] == [];
    } else {
      assert (cases + [c])[1..] == cases[1..] + [c];
      RunSwitchSnoc(cases[1..], c, v);
    }
  }

  lemma {:induction false} RunSwitchesSnoc(code: seq<seq<Case>>, last: seq<Case>, v: nat)
    ensures RunSwitches(code + [last], v) == if RunSwitches(code, v).Some? then RunSwitches(code, v) else RunSwitch(last, v)
  {
    if code == [] {
      assert [last][1..] == [];
    } else {
      assert (code + [last])[1..] == code[1..] + [last];
      RunSwitchesSnoc(code[1..], last, v);
    }
  }

  /** The generator's loop for stringValue(): after every 64th case it closes the switch and opens another. */
  method GenerateStringValue(enums: seq<string>) returns (code: seq<seq<Case>>)
    ensures forall v: nat :: RunSwitches(code, v) == if v < |enums| then Some(enums[v]) else None
    ensures forall k :: 0 <= k < |code| ==> |code[k]| <= 64
    ensures |code| == |enums| / 64 + 1
  {
    var closed: seq<seq<Case>>, cases := [], [];
    var i := 0;
    assert forall v: nat :: RunSwitches([[]], v) == None by {
      forall v: nat ensures RunSwitches([[]], v) == None {
        var none: seq<seq<Case>> := [];
        RunSwitchesSnoc(none, [], v);
        assert none + [[]] == [[]];
      }
    }
    assert closed + [cases] == [[]];
    while i < |enums|
      invariant 0 <= i <= |enums|
      invariant |cases| == i % 64 && |closed| == i / 64
      invariant forall k :: 0 <= k < |closed| ==> |closed[k]| == 64
      invariant forall v: nat :: RunSwitches(closed + [cases], v) == if v < i then Some(enums[v]) else None
    {
      ghost var before := closed + [cases];
      ghost var grown := cases + [Case(i, enums[i])];
      forall v: nat ensures RunSwitches(closed + [grown], v) == if v < i + 1 then Some(enums[v]) else None {
        RunSwitchesSnoc(closed, cases, v);
        RunSwitchesSnoc(closed, grown, v);
        RunSwitchSnoc(cases, Case(i, enums[i]), v);
      }
      cases := cases + [Case(i, enums[i])];
      if i % 64 == 63 {
        forall v: nat ensures RunSwitches((closed + [grown]) + [[]], v) == RunSwitches(closed + [grown], v) {
          RunSwitchesSnoc(closed + [grown], [], v);
        }
        closed, cases := closed + [cases], [];
      }
      i := i + 1;
    }
    code := closed + [cases];
  }

  /** The value of the first literal equal to `str`, or -1. */
  function FindLiteral(enums: seq<string>, str: string): (r: int)
    ensures -1 <= r < |enums|
    ensures r >= 0 ==> enums[r] == str && str !in enums[..r]
    ensures r < 0 ==> str !in enums
  {
    if enums == [] then -1
    else if enums[0] == str then 0
    else
      var r := FindLiteral(enums[1..], str);
      if r < 0 then -1 else r + 1
  }

  /** The emitted deserialize() of an enumeration: unknown texts leave the value alone. */
  method DeserializeEnumeration(enums: seq<string>, str: string, old': nat) returns (value: nat)
    ensures value == if FindLiteral(enums, str) < 0 then old' else FindLiteral(enums, str)
  {
    var i := 0;
    while i < |enums|
      invariant 0 <= i <= |enums| && str !in enums[..i]
    {
      if str == enums[i] {
        return i;
      }
      i := i + 1;
    }
    assert enums[..|enums|] == enums;
    value := old';
  }

  predicate Distinct(enums: seq<string>) {
    forall i, j :: 0 <= i < j < |enums| ==> enums[i] != enums[j]
  }

  /** The lookup inverts stringValue() for every value exactly when the literals are distinct. */
  lemma EnumerationInverts(enums: seq<string>)
    ensures (forall v :: 0 <= v < |enums| ==> FindLiteral(enums, enums[v]) == v) <==> Distinct(enums)
  {
    if forall v :: 0 <= v < |enums| ==> FindLiteral(enums, enums[v]) == v {
      forall i, j | 0 <= i < j < |enums| ensures enums[i] != enums[j] {
        assert FindLiteral(enums, enums[i]) == i && FindLiteral(enums, enums[j]) == j;
      }
    }
  }

  // ----- lists -----

  /** The emitted serialize() of a list: a space goes in front of an entry unless nothing has been written. */
  function Joined(texts: seq<string>): string {
    if texts == [] then ""
    else
      var front := Joined(texts[..|texts| - 1]);
      front + (if front != "" then " " else "") + texts[|texts| - 1]
  }

  /** The texts with single spaces between them. */
  function SpaceSeparated(texts: seq<string>): string
    requires texts != []
  {
    if |texts| == 1 then texts[0] else texts[0] + " " + SpaceSeparated(texts[1..])
  }

  lemma {:induction false} JoinedWithSpaces(texts: seq<string>)
    requires texts != [] && texts[0] != ""
    ensures Joined(texts) == SpaceSeparated(texts)
    decreases |texts|
  {
    var n := |texts| - 1;
    if n == 0 {
      assert texts[..0] == [];
    } else {
      JoinedWithSpaces(texts[..n]);
      SeparatedSnoc(texts[..n], texts[n]);
      assert texts[..n] + [texts[n]] == texts;
    }
  }

  lemma {:induction false} SeparatedSnoc(texts: seq<string>, last: string)
    requires texts != []
    ensures SpaceSeparated(texts + [last]) == SpaceSeparated(texts) + " " + last
    ensures texts[0] != "" ==> SpaceSeparated(texts) != ""
    decreases |texts|
  {
    assert (texts + [last])[1..] == texts[1..] + [last];
    if |texts| == 1 {
      assert texts[1..] + [last] == [last];
    } else {
      SeparatedSnoc(texts[1..], last);
    }
  }

  method SerializeEntries(texts: seq<string>) returns (str: string)
    ensures str == Joined(texts)
  {
    str := "";
    var i := 0;
    while i < |texts|
      invariant 0 <= i <= |texts| && str == Joined(texts[..i])
    {
      assert texts[..i + 1][..i] == texts[..i];
      ghost var front := str;
      if str != "" {
        str := str + " ";
      }
      str := str + texts[i];
      assert front == "" ==> front + "" + texts[i] == texts[i];
      i := i + 1;
    }
    assert texts[..|texts|] == texts;
  }

  function Flush(word: string): seq<string> {
    if word == "" then [] else [word]
  }

  /** The words finished so far and the one being read. */
  function Scan(s: string): (seq<string>, string) {
    if s == "" then ([], "")
    else
      var (words, word) := Scan(s[..|s| - 1]);
      var c := s[|s| - 1];
      if c == ' ' then (words + Flush(word), "") else (words, word + [c])
  }

  /** QString::split on spaces, skipping empty parts. */
  function Words(s: string): seq<string> {
    Scan(s).0 + Flush(Scan(s).1)
  }

  predicate IsWord(s: string) {
    s != "" && ' ' !in s
  }

  lemma {:induction false} ScanWords(s: string)
    ensures forall i :: 0 <= i < |Scan(s).0| ==> IsWord(Scan(s).0[i])
    ensures ' ' !in Scan(s).1
  {
    if s != "" {
      ScanWords(s[..|s| - 1]);
    }
  }

  lemma {:induction false} ScanWord(s: string)
    requires ' ' !in s
    ensures Scan(s) == ([], s)
  {
    if s != "" {
      ScanWord(s[..|s| - 1]);
      assert s == s[..|s| - 1] + [s[|s| - 1]];
    }
  }

  lemma {:induction false} ScanAfterSpace(a: string, b: string)
    ensures Scan(a + " " + b) == (Words(a) + Scan(b).0, Scan(b).1)
  {
    var s := a + " " + b;
    if b == "" {
      assert s[..|s| - 1] == a;
      assert Words(a) + [] == Words(a);
    } else {
      assert s[..|s| - 1] == a + " " + b[..|b| - 1];
      ScanAfterSpace(a, b[..|b| - 1]);
      var (words, word) := Scan(b[..|b| - 1]);
      assert Words(a) + words + Flush(word) == Words(a) + (words + Flush(word));
    }
  }

  lemma WordsAfterSpace(a: string, b: string)
    ensures Words(a + " " + b) == Words(a) + Words(b)
  {
    ScanAfterSpace(a, b);
  }

  /** The words of each text, in order. */
  function AllWords(texts: seq<string>): seq<string> {
    if texts == [] then [] else AllWords(texts[..|texts| - 1]) + Words(texts[|texts| - 1])
  }

  lemma {:induction false} WordsOfJoined(texts: seq<string>)
    ensures Words(Joined(texts)) == AllWords(texts)
  {
    if texts != [] {
      var front, last := Joined(texts[..|texts| - 1]), texts[|texts| - 1];
      WordsOfJoined(texts[..|texts| - 1]);
      if front == "" {
        assert front + "" + last == last;
        assert Words("") == [];
        assert [] + Words(last) == Words(last);
      } else {
        WordsAfterSpace(front, last);
      }
    }
  }

  lemma WordAlone(s: string)
    requires IsWord(s)
    ensures Words(s) == [s]
  {
    hide Scan;
    ScanWord(s);
    assert [] + Flush(s) == [s];
  }

  lemma {:induction false} WordsStay(texts: seq<string>)
    requires forall i :: 0 <= i < |texts| ==> IsWord(texts[i])
    ensures AllWords(texts) == texts
  {
    hide Words, IsWord;
    if texts != [] {
      var n := |texts| - 1;
      WordsStay(texts[..n]);
      WordAlone(texts[n]);
      assert texts == texts[..n] + [texts[n]];
    }
  }

  /** Joining texts and splitting again gives them back exactly when each is a non-empty text without spaces. */
  lemma JoinThenSplit(texts: seq<string>)
    ensures Words(Joined(texts)) == texts <==> forall i :: 0 <= i < |texts| ==> IsWord(texts[i])
  {
    hide Joined, AllWords, Words, IsWord;
    WordsOfJoined(texts);
    WordsAreWords(Joined(texts));
    if forall i :: 0 <= i < |texts| ==> IsWord(texts[i]) {
      WordsStay(texts);
    }
  }

  // ----- every simple type -----

  /** The value of a freshly constructed object. */
  function Initial(t: SimpleType): Data {
    match t
    case Builtin(initial) => Plain(initial)
    case Enumeration(_) => Choice(0)
    case Restriction(base) => Initial(base)
    case ListOf(_) => Entries([])
  }

  predicate HasType(t: SimpleType, d: Data)
    decreases t
  {
    match t
    case Builtin(_) => d.Plain?
    case Enumeration(literals) => d.Choice? && d.index < |literals|
    case Restriction(base) => HasType(base, d)
    case ListOf(item) => d.Entries? && forall i :: 0 <= i < |d.entries| ==> HasType(item, d.entries[i])
  }

  /** serialize(): the text of the resulting KDSoapValue. */
  function Serialize(t: SimpleType, d: Data): string
    requires HasType(t, d)
    decreases t, 0
  {
    match t
    case Builtin(_) => d.text
    case Enumeration(literals) => literals[d.index]
    case Restriction(base) => Serialize(base, d)
    case ListOf(item) => Joined(EntryTexts(item, d.entries))
  }

  function EntryTexts(item: SimpleType, entries: seq<Data>): (texts: seq<string>)
    requires forall i :: 0 <= i < |entries| ==> HasType(item, entries[i])
    ensures |texts| == |entries| && forall i :: 0 <= i < |texts| ==> texts[i] == Serialize(item, entries[i])
    decreases item, 1
  {
    seq(|entries|, i requires 0 <= i < |entries| => Serialize(item, entries[i]))
  }

  /** deserialize() into an object holding `into`; a KDSoapValue without a text converts to the default value. */
  function Deserialize(t: SimpleType, text: Option<string>, into: Data): Data
    decreases t, 0
  {
    match t
    case Builtin(initial) => Plain(text.GetOr(initial))
    case Enumeration(literals) =>
      var found := FindLiteral(literals, text.GetOr(""));
      if found < 0 then into else Choice(found)
    case Restriction(base) => Deserialize(base, text, into)
    case ListOf(item) =>
      if Trimmed(text.GetOr("")) == "" then into
      else Entries((if into.Entries? then into.entries else []) + EntriesOf(item, Words(text.GetOr(""))))
  }

  function EntriesOf(item: SimpleType, words: seq<string>): (entries: seq<Data>)
    ensures |entries| == |words| && forall i :: 0 <= i < |words| ==> entries[i] == Deserialize(item, Some(words[i]), Initial(item))
    decreases item, 1
  {
    seq(|words|, i requires 0 <= i < |words| => Deserialize(item, Some(words[i]), Initial(item)))
  }

  /** A text as it arrives: an empty one is no text at all. */
  function Sent(text: string): Option<string> {
    if text == "" then None else Some(text)
  }

  /**
   What makes a value survive: an empty text only where it is the default, the first of equal literals,
   and list entries that are words, not all of them white space.
   */
  predicate Survives(t: SimpleType, d: Data)
    requires HasType(t, d)
    decreases t
  {
    match t
    case Builtin(initial) => d.text == "" ==> initial == ""
    case Enumeration(literals) => literals[d.index] !in literals[..d.index]
    case Restriction(base) => Survives(base, d)
    case ListOf(item) =>
      && (forall i :: 0 <= i < |d.entries| ==> Survives(item, d.entries[i]) && IsWord(Serialize(item, d.entries[i])))
      && (d.entries != [] ==> exists i, c :: 0 <= i < |d.entries| && c in Serialize(item, d.entries[i]) && !IsSpace(c))
  }

  lemma {:induction false} JoinedChars(texts: seq<string>, i: nat, c: char)
    requires i < |texts| && c in texts[i]
    ensures c in Joined(texts)
  {
    if i < |texts| - 1 {
      JoinedChars(texts[..|texts| - 1], i, c);
    }
  }

  /** Joined texts are all white space exactly when each of them is. */
  lemma JoinedIsSpace(texts: seq<string>)
    ensures Trimmed(Joined(texts)) == "" <==> forall i, c :: 0 <= i < |texts| && c in texts[i] ==> IsSpace(c)
  {
    hide IsSpace, Joined, Trimmed;
    var str := Joined(texts);
    TrimmedEmpty(str);
    if Trimmed(str) == "" {
      forall i, c | 0 <= i < |texts| && c in texts[i] ensures IsSpace(c) {
        JoinedChars(texts, i, c);
      }
    } else {
      var c :| c in str && !IsSpace(c);
      SpaceIsSpace();
      var i := CharFrom(texts, c);
      assert c in texts[i];
    }
  }

  /** A list of words comes back as its words, unless they are all white space. */
  lemma ListArrives(item: SimpleType, texts: seq<string>)
    ensures var r := Deserialize(ListOf(item), Sent(Joined(texts)), Entries([]));
            r == Entries(if forall i, c :: 0 <= i < |texts| && c in texts[i] ==> IsSpace(c) then [] else EntriesOf(item, Words(Joined(texts))))
  {
    hide Words, IsSpace, EntriesOf, Joined, Trimmed;
    var str := Joined(texts);
    JoinedIsSpace(texts);
    TrimmedNothing();
    assert [] + EntriesOf(item, Words(str)) == EntriesOf(item, Words(str));
  }

  lemma TrimmedNothing()
    ensures Trimmed("") == ""
  {
  }

  lemma SpaceIsSpace()
    ensures IsSpace(' ')
  {
  }

  /** Every simple value that survives comes back from its text, in a fresh object. */
  lemma {:induction false} SimpleRoundTrip(t: SimpleType, d: Data)
    requires HasType(t, d) && Survives(t, d)
    ensures Deserialize(t, Sent(Serialize(t, d)), Initial(t)) == d
    decreases t, 0
  {
    match t
    case Builtin(_) =>
    case Enumeration(literals) =>
    case Restriction(base) => SimpleRoundTrip(base, d);
    case ListOf(item) => ListRoundTrip(item, d.entries);
  }

  lemma {:induction false} ListRoundTrip(item: SimpleType, entries: seq<Data>)
    requires HasType(ListOf(item), Entries(entries)) && Survives(ListOf(item), Entries(entries))
    ensures Deserialize(ListOf(item), Sent(Serialize(ListOf(item), Entries(entries))), Entries([])) == Entries(entries)
    decreases item, 1
  {
    hide Words, IsSpace, Joined, Deserialize;
    var texts := EntryTexts(item, entries);
    ListArrives(item, texts);
    JoinThenSplit(texts);
    if entries != [] {
      var i, c :| 0 <= i < |entries| && c in Serialize(item, entries[i]) && !IsSpace(c);
      assert c in texts[i];
      forall j | 0 <= j < |entries| ensures EntriesOf(item, texts)[j] == entries[j] {
        WordIsSent(texts[j]);
        SimpleRoundTrip(item, entries[j]);
      }
      assert EntriesOf(item, texts) == entries;
    }
  }

  lemma WordIsSent(text: string)
    ensures IsWord(text) ==> Sent(text) == Some(text)
  {
  }

  function Strings(texts: seq<string>): (entries: seq<Data>)
    ensures |entries| == |texts| && forall i :: 0 <= i < |texts| ==> entries[i] == Plain(texts[i])
  {
    seq(|texts|, i requires 0 <= i < |texts| => Plain(texts[i]))
  }

  /** A list of strings survives exactly when its entries are words and, if there are any, not all white space. */
  lemma StringListSurvives(texts: seq<string>)
    ensures var t := ListOf(Builtin(""));
            Deserialize(t, Sent(Serialize(t, Entries(Strings(texts)))), Initial(t)) == Entries(Strings(texts)) <==>
            (forall i :: 0 <= i < |texts| ==> IsWord(texts[i]))
            && (texts != [] ==> exists i, c :: 0 <= i < |texts| && c in texts[i] && !IsSpace(c))
  {
    hide Words, IsSpace, Joined, Deserialize, IsWord;
    assert EntryTexts(Builtin(""), Strings(texts)) == texts;
    ListArrives(Builtin(""), texts);
    JoinThenSplit(texts);
    var words := Words(Joined(texts));
    StringEntries(words);
    if Strings(words) == Strings(texts) {
      assert forall k :: 0 <= k < |texts| ==> Strings(words)[k] == Strings(texts)[k];
      assert words == texts;
    }
    if texts == [] {
      assert Strings(texts) == [];
    } else {
      assert Strings(texts) != [];
    }
  }

  lemma StringEntries(words: seq<string>)
    ensures EntriesOf(Builtin(""), words) == Strings(words)
  {
  }

  lemma {:induction false} CharFrom(texts: seq<string>, c: char) returns (i: nat)
    requires c in Joined(texts) && c != ' '
    ensures i < |texts| && c in texts[i]
  {
    i := |texts| - 1;
    if c !in texts[i] {
      i := CharFrom(texts[..i], c);
    }
  }

  // ----- exactly which values survive -----

  /** A type whose texts are words, as the items of a list have to be. */
  predicate WordItem(t: SimpleType) {
    match t
    case Builtin(_) => true
    case Enumeration(literals) => forall i :: 0 <= i < |literals| ==> IsWord(literals[i])
    case Restriction(base) => WordItem(base)
    case ListOf(_) => false
  }

  /** No list, or a list of words. */
  predicate WellKnown(t: SimpleType) {
    match t
    case ListOf(item) => WordItem(item)
    case Restriction(base) => WellKnown(base)
    case _ => true
  }

  lemma {:induction false} WordGivesWord(t: SimpleType, word: string)
    requires WordItem(t) && IsWord(word)
    ensures var d := Deserialize(t, Some(word), Initial(t)); HasType(t, d) ==> IsWord(Serialize(t, d))
  {
    match t
    case Restriction(base) => WordGivesWord(base, word);
    case _ =>
  }

  lemma {:induction false} ItemSurvives(t: SimpleType, d: Data)
    requires WordItem(t) && HasType(t, d) && Deserialize(t, Some(Serialize(t, d)), Initial(t)) == d
    requires IsWord(Serialize(t, d))
    ensures Survives(t, d)
  {
    match t
    case Restriction(base) => ItemSurvives(base, d);
    case _ =>
  }

  /** A list that came back: every entry is a word that comes back, and they are not all white space. */
  lemma ListSurvives(item: SimpleType, entries: seq<Data>)
    requires WordItem(item) && HasType(ListOf(item), Entries(entries))
    requires Deserialize(ListOf(item), Sent(Serialize(ListOf(item), Entries(entries))), Entries([])) == Entries(entries)
    ensures Survives(ListOf(item), Entries(entries))
  {
    hide Words, Joined, Deserialize, WordItem, IsWord, IsSpace;
    var texts := EntryTexts(item, entries);
    var words := Words(Joined(texts));
    ListArrives(item, texts);
    if entries != [] {
      WordsAreWords(Joined(texts));
      assert Entries(EntriesOf(item, words)) == Entries(entries);
      TextsAreWords(item, entries, words);
      JoinThenSplit(texts);
      forall k | 0 <= k < |entries| ensures Survives(item, entries[k]) {
        assert texts[k] == words[k] && entries[k] == EntriesOf(item, words)[k];
        ItemSurvives(item, entries[k]);
      }
      var k, c :| 0 <= k < |texts| && c in texts[k] && !IsSpace(c);
      assert c in Serialize(item, entries[k]);
    }
  }

  lemma TextsAreWords(item: SimpleType, entries: seq<Data>, words: seq<string>)
    requires WordItem(item) && entries == EntriesOf(item, words)
    requires forall k :: 0 <= k < |words| ==> IsWord(words[k])
    requires forall k :: 0 <= k < |entries| ==> HasType(item, entries[k])
    ensures forall k :: 0 <= k < |entries| ==> IsWord(EntryTexts(item, entries)[k])
  {
    hide Deserialize, WordItem, IsWord;
    forall k | 0 <= k < |entries| ensures IsWord(EntryTexts(item, entries)[k]) {
      WordGivesWord(item, words[k]);
    }
  }

  lemma WordsAreWords(s: string)
    ensures forall k :: 0 <= k < |Words(s)| ==> IsWord(Words(s)[k])
  {
    ScanWords(s);
  }

  /** Among the types whose list items are words, a value comes back exactly when it survives. */
  lemma {:induction false} SurvivesExactly(t: SimpleType, d: Data)
    requires WellKnown(t) && HasType(t, d)
    ensures Deserialize(t, Sent(Serialize(t, d)), Initial(t)) == d <==> Survives(t, d)
  {
    if Survives(t, d) {
      SimpleRoundTrip(t, d);
    } else if Deserialize(t, Sent(Serialize(t, d)), Initial(t)) == d {
      match t
      case Builtin(_) =>
      case Enumeration(literals) =>
      case Restriction(base) => SurvivesExactly(base, d);
      case ListOf(item) => ListSurvives(item, d.entries);
    }
  }
}
