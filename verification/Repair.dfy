/**
 The reader's retry after an XML error: a character reference that XML forbids is replaced by "?" and the document is
 read again. Section 4.1 of XML 1.0 defines character references.
 */
module Repair {
  import opened Text
  import opened Wrappers

  /** What the XML parser makes of a document; the offset of an error is that of the character after the failing one. */
  datatype Outcome = WellFormed | NotWellFormed(offset: nat) | OtherError

  predicate IsMarkup(data: Bytes) {
    data != "" && data[0] == '<'
  }

  /** isInvalidCharRef, on what follows the ampersand. */
  predicate IsInvalidCharRef(s: Bytes) {
    var symbol := IndexOf(s, "x", 0);
    var end := IndexOf(s, ";", 0);
    symbol != -1 && end != -1 &&
    match ToInt(Mid(s, symbol + 1, end - symbol - 1), 16)
    case None => false
    case Some(v) => 0 <= v <= 0x20 && v != 0x9 && v != 0xA && v != 0xD
  }

  /** The last '&' or '<' before `n`, or -1. */
  function LastMark(data: Bytes, n: nat): (k: int)
    requires n <= |data|
    ensures -1 <= k < n
    ensures k >= 0 ==> data[k] == '&' || data[k] == '<'
    ensures forall i :: k < i < n ==> data[i] != '&' && data[i] != '<'
  {
    if n == 0 then -1
    else if data[n - 1] == '&' || data[n - 1] == '<' then n - 1
    else LastMark(data, n - 1)
  }

  /** QByteArray::replace with "?". */
  function Replace(data: Bytes, pat: Bytes): Bytes
    requires pat != ""
    decreases |data|
  {
    if |data| < |pat| then data
    else if data[..|pat|] == pat then "?" + Replace(data[|pat|..], pat)
    else [data[0]] + Replace(data[1..], pat)
  }

  /** What follows the last mark before the error. */
  function Suspect(data: Bytes, offset: nat): Bytes
    requires offset <= |data|
  {
    data[LastMark(data, offset) + 1..offset]
  }

  /** handleNotWellFormedError: the cleaned-up document, or nothing. */
  function Repaired(data: Bytes, offset: nat): Bytes
    requires offset <= |data|
  {
    var k := LastMark(data, offset);
    if k >= 0 && data[k] == '<' then ""
    else if IsInvalidCharRef(Suspect(data, offset)) then Replace(data, "&" + Suspect(data, offset))
    else ""
  }

  predicate NoMark(data: Bytes, from: int, to: nat)
    requires -1 <= from && to <= |data|
  {
    forall k :: from < k < to ==> data[k] != '&' && data[k] != '<'
  }

  /** The scan back from the error is over at `i`: at the start, or at a mark. */
  lemma ScanOver(data: Bytes, offset: nat, i: int)
    requires -1 <= i < offset <= |data| || (i == -1 && offset == 0)
    requires i >= 0 ==> data[i] == '&' || data[i] == '<'
    requires NoMark(data, i, offset)
    ensures LastMark(data, offset) == i
  {
    hide LastMark;
  }

  lemma NothingScanned(data: Bytes, offset: nat)
    requires offset <= |data|
    ensures NoMark(data, offset - 1, offset)
  {
  }

  lemma NoMarkStep(data: Bytes, i: nat, offset: nat)
    requires i < offset <= |data| && NoMark(data, i, offset) && data[i] != '&' && data[i] != '<'
    ensures NoMark(data, i - 1, offset)
  {
  }

  lemma SliceFront(data: Bytes, i: nat, offset: nat)
    requires i < offset <= |data|
    ensures [data[i]] + data[i + 1..offset] == data[i..offset]
  {
  }

  method HandleNotWellFormedError(data: Bytes, offset: nat) returns (cleaned: Bytes)
    requires offset <= |data|
    ensures cleaned == Repaired(data, offset)
  {
    hide IsInvalidCharRef, Replace, LastMark, NoMark;
    cleaned := "";
    var i: int := offset - 1;
    var original := "";
    assert NoMark(data, i, offset) by { NothingScanned(data, offset); }
    while i >= 0 && data[i] != '&'
      invariant -1 <= i < offset
      invariant original == data[i + 1..offset]
      invariant NoMark(data, i, offset)
    {
      if data[i] == '<' {
        ScanOver(data, offset, i);
        return;
      }
      SliceFront(data, i, offset);
      NoMarkStep(data, i, offset);
      original := [data[i]] + original;
      i := i - 1;
    }
    ScanOver(data, offset, i);
    if IsInvalidCharRef(original) {
      cleaned := Replace(data, "&" + original);
    }
  }

  lemma ReplaceHere(pat: Bytes, rest: Bytes)
    requires pat != ""
    ensures Replace(pat + rest, pat) == "?" + Replace(rest, pat)
  {
    assert (pat + rest)[..|pat|] == pat && (pat + rest)[|pat|..] == rest;
  }

  lemma ReplaceLater(data: Bytes, pat: Bytes)
    requires pat != "" && |data| >= |pat| && data[..|pat|] != pat
    ensures Replace(data, pat) == [data[0]] + Replace(data[1..], pat)
  {
  }

  lemma OccursLater(data: Bytes, pat: Bytes)
    requires data != "" && !At(data, pat, 0)
    ensures (exists k :: At(data, pat, k)) <==> exists k :: At(data[1..], pat, k)
  {
    if exists k :: At(data, pat, k) {
      var k :| At(data, pat, k);
      assert data[1..][k - 1..k - 1 + |pat|] == data[k..k + |pat|];
      assert At(data[1..], pat, k - 1);
    }
    if exists k :: At(data[1..], pat, k) {
      var k :| At(data[1..], pat, k);
      assert data[1..][k..k + |pat|] == data[k + 1..k + 1 + |pat|];
      assert At(data, pat, k + 1);
    }
  }

  lemma ReplaceNothing(data: Bytes, pat: Bytes)
    requires |data| < |pat|
    ensures Replace(data, pat) == data && forall k :: !At(data, pat, k)
  {
  }

  lemma AtStart(data: Bytes, pat: Bytes)
    requires |pat| <= |data|
    ensures At(data, pat, 0) <==> data[..|pat|] == pat
  {
    assert data[0..|pat|] == data[..|pat|];
  }

  lemma {:induction false} ReplaceShrinks(data: Bytes, pat: Bytes)
    requires |pat| >= 2
    ensures |Replace(data, pat)| <= |data|
    ensures |Replace(data, pat)| < |data| <==> exists k :: At(data, pat, k)
    ensures data != "" && data[0] != pat[0] ==> Replace(data, pat) != "" && Replace(data, pat)[0] == data[0]
    decreases |data|
  {
    hide Replace, At;
    if |data| < |pat| {
      ReplaceNothing(data, pat);
    } else {
      AtStart(data, pat);
      if data[..|pat|] == pat {
        var rest := data[|pat|..];
        assert data == pat + rest && data[0] == pat[0];
        ReplaceHere(pat, rest);
        ReplaceShrinks(rest, pat);
      } else {
        ReplaceLater(data, pat);
        OccursLater(data, pat);
        ReplaceShrinks(data[1..], pat);
      }
    }
  }

  /** A sequence taken for a reference is never empty. */
  lemma InvalidIsNotEmpty(s: Bytes)
    requires IsInvalidCharRef(s)
    ensures s != ""
  {
  }

  lemma SuspectOccurs(data: Bytes, offset: nat)
    requires offset <= |data| && LastMark(data, offset) >= 0 && data[LastMark(data, offset)] == '&'
    ensures At(data, "&" + Suspect(data, offset), LastMark(data, offset))
  {
    var k := LastMark(data, offset);
    assert data[k..offset] == [data[k]] + data[k + 1..offset];
  }

  /** In general a retry makes progress exactly when the sequence, with its ampersand, is in the document. */
  lemma RetryProgress(data: Bytes, offset: nat)
    requires offset <= |data| && Repaired(data, offset) != ""
    ensures |Repaired(data, offset)| < |data| <==> exists k :: At(data, "&" + Suspect(data, offset), k)
    ensures LastMark(data, offset) >= 0 ==> |Repaired(data, offset)| < |data|
    ensures IsMarkup(data) ==> IsMarkup(Repaired(data, offset))
  {
    hide IsInvalidCharRef, Replace, Suspect, At;
    InvalidIsNotEmpty(Suspect(data, offset));
    ReplaceShrinks(data, "&" + Suspect(data, offset));
    if LastMark(data, offset) >= 0 {
      SuspectOccurs(data, offset);
    }
  }

  /** A retry works on a shorter document, that still starts with '<', whenever the document starts with '<'. */
  lemma RetryShrinks(data: Bytes, offset: nat)
    requires offset <= |data| && IsMarkup(data) && Repaired(data, offset) != ""
    ensures |Repaired(data, offset)| < |data| && IsMarkup(Repaired(data, offset))
  {
    hide IsInvalidCharRef, Replace;
    InvalidIsNotEmpty(Suspect(data, offset));
    RetryProgress(data, offset);
  }

  lemma {:induction false} ReplaceNone(data: Bytes, pat: Bytes)
    requires pat != ""
    ensures (forall k :: !At(data, pat, k)) ==> Replace(data, pat) == data
    decreases |data|
  {
    if (forall k :: !At(data, pat, k)) && |data| >= |pat| {
      assert !At(data, pat, 0);
      forall k ensures !At(data[1..], pat, k) {
        if 0 <= k <= |data| - 1 - |pat| {
          assert !At(data, pat, k + 1) && data[1..][k..k + |pat|] == data[k + 1..k + 1 + |pat|];
        }
      }
      ReplaceNone(data[1..], pat);
    }
  }

  /**
   Without any mark before the error, text that is taken for a reference gets an ampersand it does not have: the same
   document is tried again, for ever, exactly when the text with an ampersand does not occur in it.
   */
  lemma NoMarkupNoProgress(data: Bytes, offset: nat)
    requires offset <= |data| && NoMark(data, -1, offset) && IsInvalidCharRef(data[..offset])
    ensures Repaired(data, offset) == data <==> forall k :: !At(data, "&" + data[..offset], k)
  {
    hide IsInvalidCharRef, Replace, At;
    InvalidIsNotEmpty(data[..offset]);
    ScanOver(data, offset, -1);
    assert data[0..offset] == data[..offset];
    assert Suspect(data, offset) == data[..offset];
    ReplaceShrinks(data, "&" + data[..offset]);
    ReplaceNone(data, "&" + data[..offset]);
  }

  /** Such a document. */
  lemma EndlessDocument()
    ensures NoMark("x1;", -1, 3) && Repaired("x1;", 3) == "x1;"
  {
    var data := "x1;";
    assert data[..3] == data;
    OneDigit(data, 0);
    forall k ensures !At(data, "&" + data, k) {
    }
    NoMarkupNoProgress(data, 3);
  }

  /** An x, the digit 1 and a semicolon are enough. */
  lemma OneDigit(s: Bytes, x: nat)
    requires x + 3 == |s| && s[x..] == "x1;" && 'x' !in s[..x] && ';' !in s[..x]
    ensures IsInvalidCharRef(s)
  {
    assert s[x] == s[x..][0] && s[x + 1] == s[x..][1] && s[x + 2] == s[x..][2];
    FirstIndex(s, 'x', x);
    assert s[..x + 2] == s[..x] + [s[x], s[x + 1]];
    FirstIndex(s, ';', x + 2);
    assert Mid(s, x + 1, 1) == "1";
    TrimmedKeeps("1");
    assert DigitsValue("1", 16) == Some(1);
  }

  // ----- the recursion -----

  ghost predicate OffsetsInside(parser: Bytes -> Outcome) {
    forall d :: parser(d).NotWellFormed? ==> parser(d).offset <= |d|
  }

  /** The document that is read after `data`, or nothing. */
  function Retry(parser: Bytes -> Outcome, data: Bytes): Bytes {
    match parser(data)
    case NotWellFormed(offset) => if offset <= |data| then Repaired(data, offset) else ""
    case _ => ""
  }

  /** The documents that xmlToMessage reads, one after the other, up to one that would be read again. */
  function Attempts(parser: Bytes -> Outcome, data: Bytes): (a: seq<Bytes>)
    ensures a != []
    decreases |data|
  {
    var cleaned := Retry(parser, data);
    if cleaned != "" && |cleaned| < |data| then [data] + Attempts(parser, cleaned) else [data]
  }

  function Last(a: seq<Bytes>): Bytes
    requires a != []
  {
    a[|a| - 1]
  }

  /** A retry that is not shorter is the same document again. */
  lemma RetryIsShorterOrSame(parser: Bytes -> Outcome, data: Bytes)
    ensures Retry(parser, data) == "" || |Retry(parser, data)| < |data| || Retry(parser, data) == data
  {
    hide IsInvalidCharRef, Replace, At, Suspect;
    match parser(data)
    case NotWellFormed(offset) =>
      if offset <= |data| && Repaired(data, offset) != "" {
        RetryProgress(data, offset);
        InvalidIsNotEmpty(Suspect(data, offset));
        ReplaceNone(data, "&" + Suspect(data, offset));
      }
    case _ =>
  }

  /** The retries end exactly when the last document is not its own retry; they do for every document that starts with '<'. */
  lemma {:induction false} RetriesEnd(parser: Bytes -> Outcome, data: Bytes)
    ensures var last := Last(Attempts(parser, data)); Retry(parser, last) == "" || Retry(parser, last) == last
    ensures IsMarkup(data) ==> Retry(parser, Last(Attempts(parser, data))) == ""
    decreases |data|
  {
    hide Retry;
    RetryIsShorterOrSame(parser, data);
    var cleaned := Retry(parser, data);
    MarkupShrinks(parser, data);
    if cleaned != "" && |cleaned| < |data| {
      RetriesEnd(parser, cleaned);
      assert Last(Attempts(parser, data)) == Last(Attempts(parser, cleaned));
    }
  }

  lemma MarkupShrinks(parser: Bytes -> Outcome, data: Bytes)
    ensures IsMarkup(data) && Retry(parser, data) != "" ==> |Retry(parser, data)| < |data| && IsMarkup(Retry(parser, data))
  {
    hide Repaired;
    match parser(data)
    case NotWellFormed(offset) =>
      if IsMarkup(data) && offset <= |data| && Repaired(data, offset) != "" {
        RetryShrinks(data, offset);
      }
    case _ =>
  }

  /** xmlToMessage's retries, for every document on which they end: the last one read is the one reported on. */
  method XmlToMessage(parser: Bytes -> Outcome, data: Bytes) returns (ok: bool, last: Bytes)
    requires OffsetsInside(parser)
    requires Retry(parser, Last(Attempts(parser, data))) != Last(Attempts(parser, data))
    ensures last == Last(Attempts(parser, data)) && Retry(parser, last) == ""
    ensures ok == parser(last).WellFormed?
    decreases |data|
  {
    hide Repaired;
    ok, last := parser(data).WellFormed?, data;
    if parser(data).NotWellFormed? {
      var cleaned := HandleNotWellFormedError(data, parser(data).offset);
      RetryIsShorterOrSame(parser, data);
      if cleaned != "" {
        assert Last(Attempts(parser, data)) == Last(Attempts(parser, cleaned));
        ok, last := XmlToMessage(parser, cleaned);
      }
    }
  }

  /** Each document read is the repair of the one before and strictly shorter, and starts with '<' if the first one does. */
  lemma {:induction false} RetriesShrink(parser: Bytes -> Outcome, data: Bytes)
    ensures var a := Attempts(parser, data);
            && a[0] == data
            && (IsMarkup(data) ==> forall i :: 0 <= i < |a| ==> IsMarkup(a[i]))
            && forall i :: 0 <= i < |a| - 1 ==> a[i + 1] == Retry(parser, a[i]) && |a[i + 1]| < |a[i]|
    decreases |data|
  {
    hide Retry;
    MarkupShrinks(parser, data);
    var cleaned := Retry(parser, data);
    if cleaned != "" && |cleaned| < |data| {
      RetriesShrink(parser, cleaned);
    }
  }

  // ----- what gets replaced -----

  /** The text of a hexadecimal character reference after the ampersand. */
  function HexRef(digits: Bytes): Bytes {
    "#x" + digits + ";"
  }

  /** A hexadecimal character reference is replaced exactly when its value is at most 0x20 and not tab, LF or CR. */
  lemma HexRefReplaced(digits: Bytes)
    requires AreDigits(digits, 16)
    ensures DigitsValue(digits, 16).Some?
    ensures IsInvalidCharRef(HexRef(digits)) <==>
            var v := DigitsValue(digits, 16).value; v <= 0x20 && v != 0x9 && v != 0xA && v != 0xD
  {
    hide ToInt, DigitsValue;
    var s, n := HexRef(digits), |digits|;
    DigitsToInt(digits);
    assert s[..2] == "#x" && s[2..2 + n] == digits && s[2 + n] == ';';
    FirstIndex(s, 'x', 1);
    forall c | c in digits ensures c != ';' {
      DigitIsPlain(c);
    }
    assert s[..2 + n] == "#x" + digits;
    FirstIndex(s, ';', 2 + n);
    assert Mid(s, 2, n) == digits;
  }

  /** A decimal one never is, whatever its value. */
  lemma DecimalRefKept(digits: Bytes)
    requires AreDigits(digits, 10)
    ensures !IsInvalidCharRef("#" + digits + ";")
  {
    hide IndexOf, ToInt;
    var s := "#" + digits + ";";
    forall c | c in s ensures c != 'x' {
      assert c == '#' || c in digits || c == ';';
    }
    NoIndex(s, 'x');
  }

  // ----- what else gets replaced -----

  predicate IsSign(c: char) {
    c == '+' || c == '-'
  }

  /** No white space, sign or x. */
  predicate IsPlain(t: Bytes) {
    forall c :: c in t ==> !IsSpace(c) && !IsSign(c) && c != 'x' && c != 'X'
  }

  /** "#x" at the front, the only semicolon at the end, and in between no white space, sign or further x. */
  predicate LooksLikeHexRef(s: Bytes) {
    && |s| >= 3 && s[..2] == "#x" && s[|s| - 1] == ';' && ';' !in s[..|s| - 1] && IsPlain(s[2..|s| - 1])
  }

  /** Text without white space, signs and x that converts to a number is made of digits. */
  lemma PlainNumberIsDigits(t: Bytes)
    requires IsPlain(t) && ToInt(t, 16).Some?
    ensures AreDigits(t, 16)
  {
    hide DigitsValue;
    if t != "" {
      assert t[0] in t && t[|t| - 1] in t;
    }
    TrimmedKeeps(t);
    if |t| > 1 {
      assert t[1] in t;
    }
  }

  lemma LooksLikeHexRefIs(s: Bytes)
    requires IsInvalidCharRef(s) && LooksLikeHexRef(s)
    ensures AreDigits(s[2..|s| - 1], 16) && s == HexRef(s[2..|s| - 1])
  {
    hide ToInt, IsPlain, AreDigits;
    var n := |s| - 1;
    HexRefParts(s);
    FirstIndex(s, 'x', 1);
    FirstIndex(s, ';', n);
    assert Mid(s, 2, n - 2) == s[2..n];
    PlainNumberIsDigits(s[2..n]);
  }

  lemma HexRefParts(s: Bytes)
    requires |s| >= 3 && s[..2] == "#x" && s[|s| - 1] == ';'
    ensures s[1] == 'x' && 'x' !in s[..1] && s == HexRef(s[2..|s| - 1])
  {
    assert s[0] == s[..2][0] && s[1] == s[..2][1];
    assert s == s[..2] + s[2..|s| - 1] + [s[|s| - 1]];
  }

  lemma HexRefLooksLikeOne(digits: Bytes)
    requires AreDigits(digits, 16)
    ensures LooksLikeHexRef(HexRef(digits))
  {
    var s := HexRef(digits);
    assert s[2..|s| - 1] == digits && s[..2] == "#x" && s[..|s| - 1] == "#x" + digits;
    forall c | c in digits ensures !IsSpace(c) && !IsSign(c) && c != 'x' && c != 'X' && c != ';' {
      DigitIsPlain(c);
    }
  }

  /** Whatever is replaced is a hexadecimal character reference exactly when it looks like one. */
  lemma ReplacedIsReference(data: Bytes, offset: nat)
    requires offset <= |data| && Repaired(data, offset) != ""
    ensures (exists digits :: AreDigits(digits, 16) && Suspect(data, offset) == HexRef(digits)) <==> LooksLikeHexRef(Suspect(data, offset))
  {
    hide Replace, Suspect, LooksLikeHexRef, AreDigits, HexRef, IsInvalidCharRef;
    var s := Suspect(data, offset);
    assert IsInvalidCharRef(s);
    if LooksLikeHexRef(s) {
      LooksLikeHexRefIs(s);
      SliceInside(s);
    }
    if exists digits :: AreDigits(digits, 16) && s == HexRef(digits) {
      var digits :| AreDigits(digits, 16) && s == HexRef(digits);
      HexRefLooksLikeOne(digits);
    }
  }

  lemma SliceInside(s: Bytes)
    ensures LooksLikeHexRef(s) ==> |s| >= 3
  {
  }

  /** An ampersand, a name, an x, digits and a semicolon: what is taken for a character reference. */
  function Entity(name: Bytes, digits: Bytes): Bytes {
    name + "x" + digits + ";"
  }

  /** Neither mark, nor x, nor semicolon. */
  predicate IsEntityName(name: Bytes) {
    forall c :: c in name ==> c != 'x' && c != ';' && c != '&' && c != '<'
  }

  predicate IsForbidden(digits: Bytes)
    requires AreDigits(digits, 16)
  {
    DigitsHaveValue(digits, 16);
    var v := DigitsValue(digits, 16).value;
    v <= 0x20 && v != 0x9 && v != 0xA && v != 0xD
  }

  lemma EntityTaken(name: Bytes, digits: Bytes)
    requires IsEntityName(name) && AreDigits(digits, 16)
    ensures IsInvalidCharRef(Entity(name, digits)) <==> IsForbidden(digits)
  {
    hide ToInt, DigitsValue;
    var s, n, m := Entity(name, digits), |name|, |digits|;
    DigitsToInt(digits);
    assert s[..n] == name && s[n] == 'x' && s[n + 1..n + 1 + m] == digits && s[n + 1 + m] == ';';
    FirstIndex(s, 'x', n);
    assert s[..n + 1 + m] == name + "x" + digits;
    forall c | c in digits ensures c != ';' {
      DigitIsPlain(c);
    }
    FirstIndex(s, ';', n + 1 + m);
    assert Mid(s, n + 1, m) == digits;
  }

  lemma EntityHasNoMark(name: Bytes, digits: Bytes)
    requires IsEntityName(name) && AreDigits(digits, 16)
    ensures forall c :: c in Entity(name, digits) ==> c != '&' && c != '<'
  {
    forall c | c in digits ensures c != '&' && c != '<' {
    }
  }

  /**
   In every document, after every name, a forbidden number with an x in front of it is replaced, although it is a
   character reference only when the name is the number sign.
   */
  lemma EntityReplaced(front: Bytes, name: Bytes, digits: Bytes, rest: Bytes)
    requires IsEntityName(name) && AreDigits(digits, 16)
    ensures var data, offset := front + "&" + Entity(name, digits) + rest, |front| + 1 + |Entity(name, digits)|;
            && Suspect(data, offset) == Entity(name, digits)
            && (Repaired(data, offset) != "" <==> IsForbidden(digits))
            && (IsForbidden(digits) ==>
                  Repaired(data, offset) == Replace(data, "&" + Entity(name, digits)) && |Repaired(data, offset)| < |data|)
            && ((exists d :: AreDigits(d, 16) && Entity(name, digits) == HexRef(d)) <==> name == "#")
  {
    hide IsInvalidCharRef, Replace, Entity, AreDigits, HexRef, IsForbidden;
    var e := Entity(name, digits);
    var data, offset := front + "&" + e + rest, |front| + 1 + |e|;
    assert data[|front|] == '&' && data[|front| + 1..offset] == e;
    EntityHasNoMark(name, digits);
    forall k | |front| < k < offset ensures data[k] != '&' && data[k] != '<' {
      assert data[k] == e[k - |front| - 1] && data[k] in e;
    }
    ScanOver(data, offset, |front|);
    EntityTaken(name, digits);
    SuspectOccurs(data, offset);
    EntityIsReference(name, digits);
    EntityNotEmpty(name, digits);
    ReplaceShrinks(data, "&" + e);
    ReplaceNotEmpty(data, "&" + e);
  }

  lemma EntityNotEmpty(name: Bytes, digits: Bytes)
    ensures |Entity(name, digits)| >= 2
  {
  }

  lemma ReplaceNotEmpty(data: Bytes, pat: Bytes)
    requires pat != "" && data != ""
    ensures Replace(data, pat) != ""
  {
  }

  lemma EntityIsReference(name: Bytes, digits: Bytes)
    requires IsEntityName(name) && AreDigits(digits, 16)
    ensures (exists d :: AreDigits(d, 16) && Entity(name, digits) == HexRef(d)) <==> name == "#"
  {
    var e := Entity(name, digits);
    if name == "#" {
      assert e == HexRef(digits);
    }
    if exists d :: AreDigits(d, 16) && e == HexRef(d) {
      var d :| AreDigits(d, 16) && e == HexRef(d);
      assert e[|name|] == 'x' && e[..|name|] == name;
      FirstIndex(e, 'x', |name|);
      assert e[1] == 'x' && e[..1] == "#";
      FirstIndex(e, 'x', 1);
    }
  }

  // ----- what it is replaced by -----

  /** The pieces with `sep` between them. */
  function Between(pieces: seq<Bytes>, sep: Bytes): Bytes
    requires pieces != []
  {
    if |pieces| == 1 then pieces[0] else pieces[0] + sep + Between(pieces[1..], sep)
  }

  lemma NoneInTail(a: Bytes, pat: Bytes)
    requires a != "" && forall k :: !At(a, pat, k)
    ensures forall k :: !At(a[1..], pat, k)
  {
    forall k ensures !At(a[1..], pat, k) {
      if 0 <= k <= |a| - 1 - |pat| {
        assert !At(a, pat, k + 1) && a[1..][k..k + |pat|] == a[k + 1..k + 1 + |pat|];
      }
    }
  }

  /** No occurrence starts in text that holds none, even across its end: the ampersand would have to come twice. */
  lemma {:induction false} ReplaceSkips(a: Bytes, s: Bytes, rest: Bytes)
    requires '&' !in s && forall k :: !At(a, "&" + s, k)
    ensures Replace(a + ("&" + s) + rest, "&" + s) == a + "?" + Replace(rest, "&" + s)
    decreases |a|
  {
    hide Replace, At;
    var pat := "&" + s;
    var data := a + pat + rest;
    if a == "" {
      ReplaceHere(pat, rest);
      assert data == pat + rest;
    } else {
      NoMatchAhead(a, s, rest);
      ReplaceLater(data, pat);
      NoneInTail(a, pat);
      ReplaceSkips(a[1..], s, rest);
      assert data[1..] == a[1..] + pat + rest;
      assert [a[0]] + (a[1..] + "?" + Replace(rest, pat)) == a + "?" + Replace(rest, pat);
    }
  }

  lemma NoMatchAhead(a: Bytes, s: Bytes, rest: Bytes)
    requires '&' !in s && a != "" && forall k :: !At(a, "&" + s, k)
    ensures var pat := "&" + s; (a + pat + rest)[..|pat|] != pat
  {
    var pat := "&" + s;
    var data := a + pat + rest;
    if |pat| <= |a| {
      assert data[..|pat|] == a[0..|pat|] && !At(a, pat, 0);
    } else {
      assert data[..|pat|][|a|] == data[|a|] == '&' && pat[|a|] == s[|a| - 1] && s[|a| - 1] in s;
    }
  }

  lemma {:induction false} ReplacedBetween(pieces: seq<Bytes>, s: Bytes)
    requires pieces != [] && '&' !in s && forall i, k :: 0 <= i < |pieces| ==> !At(pieces[i], "&" + s, k)
    ensures Replace(Between(pieces, "&" + s), "&" + s) == Between(pieces, "?")
    decreases |pieces|
  {
    hide Replace, At;
    if |pieces| == 1 {
      ReplaceNone(pieces[0], "&" + s);
    } else {
      ReplaceSkips(pieces[0], s, Between(pieces[1..], "&" + s));
      ReplacedBetween(pieces[1..], s);
    }
  }

  lemma SuspectHasNoMark(data: Bytes, offset: nat)
    requires offset <= |data|
    ensures '&' !in Suspect(data, offset)
  {
    assert NoMark(data, LastMark(data, offset), offset);
  }

  /** The repaired document is the document with a question mark for every occurrence of the sequence, and nothing else changed. */
  lemma RepairedIs(pieces: seq<Bytes>, s: Bytes, offset: nat)
    requires pieces != [] && offset <= |Between(pieces, "&" + s)| && Suspect(Between(pieces, "&" + s), offset) == s
    requires forall i, k :: 0 <= i < |pieces| ==> !At(pieces[i], "&" + s, k)
    ensures Repaired(Between(pieces, "&" + s), offset) != "" ==> Repaired(Between(pieces, "&" + s), offset) == Between(pieces, "?")
  {
    hide Replace, At, IsInvalidCharRef, Between;
    SuspectHasNoMark(Between(pieces, "&" + s), offset);
    ReplacedBetween(pieces, s);
  }
}
