/**
 Range headers as clients write them (section 2.1 of RFC 7233), and the bytes they are answered with.
 What is asked for is stated on the numbers, apart from how the server parses them.
 */
module RangeHeader {
  import opened ByteRanges
  import opened ServerSocket
  import opened Text
  import opened Wrappers

  /** "a-b", "n-" and "-n": from one byte to another, from a byte on, the last bytes. */
  datatype Asked = FromTo(first: nat, last: nat) | From(start: nat) | Last(length: nat)

  function SpecText(a: Asked): Bytes {
    match a
    case FromTo(first, last) => Number(first) + "-" + Number(last)
    case From(start) => Number(start) + "-"
    case Last(length) => "-" + Number(length)
  }

  predicate FitsInt(a: Asked) {
    match a
    case FromTo(first, last) => first <= INT_MAX && last <= INT_MAX
    case From(start) => start <= INT_MAX
    case Last(length) => length <= INT_MAX
  }

  predicate Asks(a: Asked, fileSize: int, b: int) {
    && 0 <= b < fileSize
    && match a
       case FromTo(first, last) => first <= b <= last
       case From(start) => start <= b
       case Last(length) => fileSize - length <= b
  }

  predicate AskedFor(asked: seq<Asked>, fileSize: int, b: int) {
    exists i :: 0 <= i < |asked| && Asks(asked[i], fileSize, b)
  }

  /** Asked for, or between two bytes asked for with at most 86 bytes between them. */
  ghost predicate ToSend(asked: seq<Asked>, fileSize: int, b: int) {
    || AskedFor(asked, fileSize, b)
    || exists lo, hi :: AskedFor(asked, fileSize, lo) && AskedFor(asked, fileSize, hi) && lo < b < hi && hi - lo - 1 <= 86
  }

  function SpecTexts(asked: seq<Asked>): (texts: seq<Bytes>)
    ensures |texts| == |asked| && forall i :: 0 <= i < |texts| ==> texts[i] == SpecText(asked[i])
  {
    seq(|asked|, i requires 0 <= i < |asked| => SpecText(asked[i]))
  }

  /** The texts with commas in between. */
  function CommaJoined(texts: seq<Bytes>): Bytes
    requires texts != []
  {
    if |texts| == 1 then texts[0] else texts[0] + "," + CommaJoined(texts[1..])
  }

  function HeaderText(asked: seq<Asked>): Bytes
    requires asked != []
  {
    "bytes=" + CommaJoined(SpecTexts(asked))
  }

  // ----- one spec -----

  /** How the server sees a spec. */
  function Seen(a: Asked): Spec {
    match a
    case FromTo(first, last) => Spec(first, last)
    case From(start) => Spec(start, -1)
    case Last(length) => Spec(-1, length)
  }

  lemma SpecIsRead(a: Asked)
    requires FitsInt(a)
    ensures ParseSpec(SpecText(a)) == Some(Seen(a))
  {
    hide ToInt, Trimmed, Split, Number;
    match a
    case FromTo(first, last) => WrittenSpec(first, last);
    case From(start) =>
      NumberRoundTrip(start);
      SplitAtDash(Number(start), "");
      SpecTrimmed(Number(start), "");
      assert Number(start) + "-" + "" == SpecText(a);
    case Last(length) =>
      NumberRoundTrip(length);
      SplitAtDash("", Number(length));
      SpecTrimmed("", Number(length));
      assert "" + "-" + Number(length) == SpecText(a);
  }

  lemma SpecTrimmed(a: Bytes, b: Bytes)
    requires (forall c :: c in a ==> '0' <= c <= '9') && (forall c :: c in b ==> '0' <= c <= '9')
    ensures Trimmed(a + "-" + b) == a + "-" + b
  {
    var text := a + "-" + b;
    assert a != "" ==> text[0] == a[0] && a[0] in a;
    assert b != "" ==> text[|text| - 1] == b[|b| - 1] && b[|b| - 1] in b;
    TrimmedKeeps(text);
  }

  lemma SeenSelects(a: Asked, fileSize: int, b: int)
    ensures Selects(Seen(a), fileSize, b) <==> Asks(a, fileSize, b)
  {
  }

  // ----- the list -----

  lemma SpecChars(a: Asked)
    ensures SpecText(a) != "" && forall c :: c in SpecText(a) ==> '0' <= c <= '9' || c == '-'
  {
  }

  lemma SplitsFirst(a: Bytes, rest: Bytes)
    requires ',' !in a
    ensures Split(a + "," + rest, ',') == [a] + Split(rest, ',')
  {
    hide IndexOf;
    var text := a + "," + rest;
    IndexAfter(a, ',', rest);
    assert a + [','] + rest == text && text[..|a|] == a && text[|a| + 1..] == rest;
  }

  lemma SplitsNot(a: Bytes)
    requires ',' !in a
    ensures Split(a, ',') == [a]
  {
    hide IndexOf;
    NoIndex(a, ',');
  }

  lemma {:induction false} SplitsAtCommas(texts: seq<Bytes>)
    requires texts != [] && forall i :: 0 <= i < |texts| ==> ',' !in texts[i]
    ensures Split(CommaJoined(texts), ',') == texts
    decreases |texts|
  {
    hide Split;
    if |texts| == 1 {
      SplitsNot(texts[0]);
    } else {
      SplitsFirst(texts[0], CommaJoined(texts[1..]));
      SplitsAtCommas(texts[1..]);
    }
  }

  lemma {:induction false} JoinedChars(texts: seq<Bytes>)
    requires texts != [] && forall i :: 0 <= i < |texts| ==> texts[i] != "" && forall c :: c in texts[i] ==> '0' <= c <= '9' || c == '-'
    ensures CommaJoined(texts) != "" && CommaJoined(texts)[|CommaJoined(texts)| - 1] != ','
    ensures forall c :: c in CommaJoined(texts) ==> '0' <= c <= '9' || c == '-' || c == ','
    decreases |texts|
  {
    if |texts| == 1 {
      assert texts[0][|texts[0]| - 1] in texts[0];
    } else {
      JoinedChars(texts[1..]);
    }
  }

  lemma HeaderParts(asked: seq<Asked>)
    requires asked != []
    ensures var text := HeaderText(asked);
            && Trimmed(text) == text && "bytes=" <= text && Split(text[6..], ',') == SpecTexts(asked)
            && forall c :: c in text[6..] ==> IsRangeChar(c)
  {
    hide SpecText, CommaJoined, Trimmed, Split;
    var texts := SpecTexts(asked);
    forall i | 0 <= i < |texts| ensures texts[i] != "" && forall c :: c in texts[i] ==> '0' <= c <= '9' || c == '-' {
      SpecChars(asked[i]);
    }
    JoinedChars(texts);
    SplitsAtCommas(texts);
    var joined, text := CommaJoined(texts), HeaderText(asked);
    assert text[0] == 'b' && text[|text| - 1] == joined[|joined| - 1] && joined[|joined| - 1] in joined;
    TrimmedKeeps(text);
    assert "bytes=" <= text && text[6..] == joined;
  }

  /** The header is read as the specs it was written from. */
  lemma HeaderIsRead(asked: seq<Asked>, fileSize: int)
    requires asked != []
    ensures FileRangesOf(Some(HeaderText(asked)), fileSize) == RangesOfSpecs(SpecTexts(asked), fileSize)
    ensures HeaderFits(Some(HeaderText(asked)), fileSize) ==> SpecsFit(SpecTexts(asked), fileSize)
  {
    hide RangesOfSpecs, SpecsFit, HeaderText, SpecTexts, Trimmed, Split, IsRangeChar;
    HeaderParts(asked);
  }

  lemma WantedIsAskedFor(asked: seq<Asked>, fileSize: int, b: int)
    requires forall i :: 0 <= i < |asked| ==> FitsInt(asked[i])
    ensures Wanted(SpecTexts(asked), fileSize, b) <==> AskedFor(asked, fileSize, b)
  {
    hide ParseSpec, SpecText, Selects, Asks;
    forall i | 0 <= i < |asked|
      ensures ParseSpec(SpecTexts(asked)[i]) == Some(Seen(asked[i]))
      ensures Selects(Seen(asked[i]), fileSize, b) <==> Asks(asked[i], fileSize, b)
    {
      SpecIsRead(asked[i]);
      SeenSelects(asked[i], fileSize, b);
    }
  }

  lemma NoneIsMalformed(asked: seq<Asked>)
    requires forall i :: 0 <= i < |asked| ==> FitsInt(asked[i])
    ensures !Malformed(SpecTexts(asked))
  {
    hide ParseSpec, SpecText;
    forall text | text in SpecTexts(asked)
      ensures ParseSpec(text).Some?
    {
      var i :| 0 <= i < |asked| && SpecTexts(asked)[i] == text;
      SpecIsRead(asked[i]);
    }
  }

  /** The ranges are apart by more than 86 bytes, in order, and inside the file. */
  predicate InNormalForm(ranges: seq<Range>, fileSize: int) {
    && (forall i :: 0 <= i < |ranges| ==> 0 <= ranges[i].first <= ranges[i].last < fileSize)
    && forall i, j :: 0 <= i < j < |ranges| ==> ranges[i].last + 87 < ranges[j].first
  }

  predicate InSomeRange(ranges: seq<Range>, b: int) {
    exists i :: 0 <= i < |ranges| && ranges[i].first <= b <= ranges[i].last
  }

  /**
   The answer to every header of this form: rejected exactly when it has more than five specs or asks for no byte of the
   file; the whole file exactly when every byte is to be sent; otherwise ranges that hold exactly the bytes to be sent.
   */
  lemma HeaderIsAnswered(asked: seq<Asked>, fileSize: int)
    requires asked != [] && fileSize >= 0 && HeaderFits(Some(HeaderText(asked)), fileSize)
    requires forall i :: 0 <= i < |asked| ==> FitsInt(asked[i])
    ensures var answer := FileRangesOf(Some(HeaderText(asked)), fileSize);
            && (answer.InvalidRange? <==> |asked| > 5 || forall b :: !AskedFor(asked, fileSize, b))
            && (answer.FullFile? <==> !answer.InvalidRange? && forall b :: 0 <= b < fileSize ==> ToSend(asked, fileSize, b))
            && (answer.ValidRanges? ==>
                  && answer.ranges != [] && InNormalForm(answer.ranges, fileSize)
                  && forall b :: InSomeRange(answer.ranges, b) <==> ToSend(asked, fileSize, b))
  {
    hide HeaderText, RangesOfSpecs, Wanted, Malformed, AskedFor, Trimmed, Split;
    var texts := SpecTexts(asked);
    HeaderIsRead(asked, fileSize);
    RangesAreExact(texts, fileSize);
    NoneIsMalformed(asked);
    forall b
      ensures Wanted(texts, fileSize, b) <==> AskedFor(asked, fileSize, b)
    {
      WantedIsAskedFor(asked, fileSize, b);
    }
    SentIsToSend(asked, fileSize);
    var answer := FileRangesOf(Some(HeaderText(asked)), fileSize);
    if answer.ValidRanges? {
      NormalFormIs(answer.ranges, fileSize);
    } else if answer.FullFile? {
      assert forall b :: 0 <= b < fileSize ==> Sent(texts, fileSize, b);
    }
    if !answer.InvalidRange? {
      SomeByteAskedFor(asked, fileSize);
    }
  }

  lemma SomeByteAskedFor(asked: seq<Asked>, fileSize: int)
    ensures (exists b :: AskedFor(asked, fileSize, b)) ==> fileSize > 0
  {
  }

  lemma SentIsToSend(asked: seq<Asked>, fileSize: int)
    requires forall b :: Wanted(SpecTexts(asked), fileSize, b) <==> AskedFor(asked, fileSize, b)
    ensures forall b :: Sent(SpecTexts(asked), fileSize, b) <==> ToSend(asked, fileSize, b)
  {
    hide Wanted, AskedFor;
  }

  lemma NormalFormIs(ranges: seq<Range>, fileSize: int)
    requires Normal(ranges, fileSize)
    ensures InNormalForm(ranges, fileSize)
    ensures forall b :: Covers(ranges, b) <==> InSomeRange(ranges, b)
  {
    forall b
      ensures Covers(ranges, b) <==> InSomeRange(ranges, b)
    {
      if InSomeRange(ranges, b) {
        var i :| 0 <= i < |ranges| && ranges[i].first <= b <= ranges[i].last;
        assert ranges[i] in ranges && Holds(ranges[i], b);
      }
    }
  }

  /** Without a header, with another unit, or with a character that no list of byte ranges has, the whole file is sent. */
  lemma ForeignHeaders(value: Bytes, fileSize: int)
    requires value != "" && !IsSpace(value[0]) && !IsSpace(value[|value| - 1])
    requires !("bytes=" <= value) || exists c :: c in value[6..] && !(c in "0123456789-, \t")
    ensures FileRangesOf(None, fileSize) == FullFile && FileRangesOf(Some(value), fileSize) == FullFile
  {
    TrimmedKeeps(value);
  }
}
