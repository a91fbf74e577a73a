/**
 Byte strings as Qt's QByteArray and QString see them. A byte is the character with that code.
 Only the operations the modelled code uses are here: searching, trimming, joining and number conversion.
 */
module Text {
  import opened Wrappers

  type Bytes = string

  const INT_MAX := 0x7FFF_FFFF
  const INT_MIN := -0x8000_0000

  /** `pat` occurs in `s` at index `k`. */
  predicate At(s: Bytes, pat: Bytes, k: int) {
    0 <= k <= |s| - |pat| && s[k..k + |pat|] == pat
  }

  /** QByteArray::indexOf: the first occurrence at or after `from`, or -1. */
  function IndexOf(s: Bytes, pat: Bytes, from: nat): (r: int)
    ensures r == -1 || (from <= r && At(s, pat, r))
    ensures forall k :: from <= k && At(s, pat, k) ==> 0 <= r <= k
    decreases |s| - from
  {
    if from + |pat| > |s| then -1
    else if At(s, pat, from) then from
    else IndexOf(s, pat, from + 1)
  }

  /** Whether an occurrence is found, and where, is settled by the bytes up to its end. */
  lemma IndexOfIs(s: Bytes, pat: Bytes, from: nat, r: nat)
    requires from <= r && At(s, pat, r)
    requires forall k :: from <= k < r ==> !At(s, pat, k)
    ensures IndexOf(s, pat, from) == r
  {
  }

  lemma FirstIndex(s: Bytes, c: char, k: nat)
    requires k < |s| && s[k] == c && c !in s[..k]
    ensures IndexOf(s, [c], 0) == k
  {
    assert s[k..k + 1] == [c] && At(s, [c], k);
    forall i | 0 <= i < k ensures !At(s, [c], i) {
      assert s[i] == s[..k][i] && s[i] in s[..k];
      assert s[i..i + 1][0] == s[i];
    }
    IndexOfIs(s, [c], 0, k);
  }

  lemma NoIndex(s: Bytes, c: char)
    requires c !in s
    ensures IndexOf(s, [c], 0) < 0
  {
    forall k | 0 <= k < |s| ensures !At(s, [c], k) {
      assert s[k..k + 1][0] == s[k] && s[k] in s;
    }
  }

  /** A character is found right after a text that does not hold it. */
  lemma IndexAfter(a: Bytes, c: char, b: Bytes)
    requires c !in a
    ensures IndexOf(a + [c] + b, [c], 0) == |a|
  {
    assert (a + [c] + b)[..|a|] == a;
    FirstIndex(a + [c] + b, c, |a|);
  }

  /** QByteArray::mid with a length: a negative length, or one past the end, means "to the end". */
  function Mid(s: Bytes, from: nat, len: int): Bytes
    requires from <= |s|
  {
    if len < 0 || len > |s| - from then s[from..] else s[from..from + len]
  }

  predicate IsSpace(c: char) {
    c == ' ' || '\t' <= c <= '\r'
  }

  function TrimLeft(s: Bytes): Bytes {
    if s != "" && IsSpace(s[0]) then TrimLeft(s[1..]) else s
  }

  function TrimRight(s: Bytes): Bytes {
    if s != "" && IsSpace(s[|s| - 1]) then TrimRight(s[..|s| - 1]) else s
  }

  function Trimmed(s: Bytes): Bytes {
    TrimRight(TrimLeft(s))
  }

  lemma {:induction false} TrimmedKeeps(s: Bytes)
    requires s == "" || (!IsSpace(s[0]) && !IsSpace(s[|s| - 1]))
    ensures Trimmed(s) == s
  {
  }

  /** A string trims to nothing exactly when it is all white space. */
  lemma {:induction false} TrimmedEmpty(s: Bytes)
    ensures Trimmed(s) == "" <==> forall c :: c in s ==> IsSpace(c)
  {
    TrimLeftEmpty(s);
    var t := TrimLeft(s);
    if t != "" {
      TrimLeftSuffix(s);
      assert t[0] in s;
      TrimRightHead(t);
    }
  }

  lemma {:induction false} TrimLeftEmpty(s: Bytes)
    ensures TrimLeft(s) == "" <==> forall c :: c in s ==> IsSpace(c)
  {
    if s != "" && IsSpace(s[0]) {
      TrimLeftEmpty(s[1..]);
      assert s == [s[0]] + s[1..];
    } else if s != "" {
      assert s[0] in s;
    }
  }

  lemma {:induction false} TrimLeftSuffix(s: Bytes)
    ensures TrimLeft(s) != "" ==> !IsSpace(TrimLeft(s)[0])
    ensures |TrimLeft(s)| <= |s| && TrimLeft(s) == s[|s| - |TrimLeft(s)|..]
  {
    if s != "" && IsSpace(s[0]) {
      TrimLeftSuffix(s[1..]);
    }
  }

  lemma {:induction false} TrimRightHead(s: Bytes)
    requires s != "" && !IsSpace(s[0])
    ensures TrimRight(s) != "" && TrimRight(s)[0] == s[0]
  {
    if IsSpace(s[|s| - 1]) {
      TrimRightHead(s[..|s| - 1]);
    }
  }

  /** The value of one digit, or -1. */
  function DigitValue(c: char): int {
    if '0' <= c <= '9' then c as int - '0' as int
    else if 'a' <= c <= 'f' then c as int - 'a' as int + 10
    else if 'A' <= c <= 'F' then c as int - 'A' as int + 10
    else -1
  }

  /** The value of a non-empty run of digits, or None. */
  function DigitsValue(s: Bytes, base: nat): (r: Option<nat>)
    ensures r.Some? ==> s != "" && forall c :: c in s ==> 0 <= DigitValue(c) < base
  {
    if s == "" then None
    else
      var last := DigitValue(s[|s| - 1]);
      if !(0 <= last < base) then None
      else if |s| == 1 then Some(last)
      else match DigitsValue(s[..|s| - 1], base)
        case None => None
        case Some(high) => Some(high * base + last)
  }

  /**
   QByteArray::toInt: surrounding white space, an optional sign, an optional "0x" in base 16,
   digits only, and a value that fits 32 bits. None is the `ok == false` result.
   */
  function ToInt(s: Bytes, base: nat): (r: Option<int>)
    ensures r.Some? ==> INT_MIN <= r.value <= INT_MAX
  {
    var t := Trimmed(s);
    var negative := t != "" && t[0] == '-';
    var unsigned := if t != "" && (t[0] == '-' || t[0] == '+') then t[1..] else t;
    var digits := if base == 16 && |unsigned| > 2 && unsigned[0] == '0' && (unsigned[1] == 'x' || unsigned[1] == 'X')
                  then unsigned[2..] else unsigned;
    match DigitsValue(digits, base)
    case None => None
    case Some(n) =>
      var v: int := if negative then -(n as int) else n;
      if INT_MIN <= v <= INT_MAX then Some(v) else None
  }

  /** QByteArray::number for a non-negative number. */
  function Number(n: nat): (s: Bytes)
    ensures |s| >= 1
    ensures forall c :: c in s ==> '0' <= c <= '9'
    decreases n
  {
    if n < 10 then [('0' as int + n) as char] else Number(n / 10) + Number(n % 10)
  }

  /** Concatenation of the pieces of a split byte string. */
  function Concat(pieces: seq<Bytes>): Bytes {
    if pieces == [] then "" else pieces[0] + Concat(pieces[1..])
  }

  lemma {:induction false} ConcatAppend(a: seq<Bytes>, b: seq<Bytes>)
    ensures Concat(a + b) == Concat(a) + Concat(b)
  {
    if a == [] {
      assert a + b == b;
    } else {
      assert (a + b)[1..] == a[1..] + b;
      ConcatAppend(a[1..], b);
    }
  }

  lemma ConcatSnoc(a: seq<Bytes>, x: Bytes)
    ensures Concat(a + [x]) == Concat(a) + x
  {
    ConcatAppend(a, [x]);
    assert Concat([x]) == x + Concat([]);
  }

  /** Decimal conversion is inverted by toInt, for every value an int can hold. */
  lemma {:induction false} NumberRoundTrip(n: nat)
    requires n <= INT_MAX
    ensures ToInt(Number(n), 10) == Some(n)
  {
    var s := Number(n);
    NumberDigits(n);
    assert s[0] in s && s[|s| - 1] in s;
    TrimmedKeeps(s);
  }

  lemma {:induction false} NumberDigits(n: nat)
    ensures DigitsValue(Number(n), 10) == Some(n)
  {
    if n >= 10 {
      NumberDigits(n / 10);
      assert Number(n) == Number(n / 10) + Number(n % 10);
      assert |Number(n % 10)| == 1;
      assert Number(n)[..|Number(n)| - 1] == Number(n / 10);
    }
  }

  // ----- hexadecimal numbers -----

  predicate AreDigits(s: Bytes, base: nat) {
    s != "" && forall c :: c in s ==> 0 <= DigitValue(c) < base
  }

  lemma {:induction false} DigitsHaveValue(s: Bytes, base: nat)
    requires AreDigits(s, base)
    ensures DigitsValue(s, base).Some?
  {
    assert s[|s| - 1] in s;
    if |s| > 1 {
      DigitsHaveValue(s[..|s| - 1], base);
    }
  }

  lemma DigitIsPlain(c: char)
    requires 0 <= DigitValue(c) < 16
    ensures !IsSpace(c) && c != '-' && c != '+' && c != 'x' && c != 'X' && c != ';'
  {
  }

  lemma DigitsToInt(digits: Bytes)
    requires AreDigits(digits, 16)
    ensures DigitsValue(digits, 16).Some?
    ensures ToInt(digits, 16) == if DigitsValue(digits, 16).value <= INT_MAX then Some(DigitsValue(digits, 16).value) else None
  {
    DigitsHaveValue(digits, 16);
    assert digits[0] in digits && digits[|digits| - 1] in digits;
    DigitIsPlain(digits[0]);
    DigitIsPlain(digits[|digits| - 1]);
    TrimmedKeeps(digits);
    if |digits| > 2 {
      assert digits[1] in digits;
      DigitIsPlain(digits[1]);
    }
  }

  const LOWER_HEX: Bytes := "0123456789abcdef"
  const UPPER_HEX: Bytes := "0123456789ABCDEF"

  /** A number in hexadecimal, with these sixteen digits. */
  function Hex(digits: Bytes, n: nat): (s: Bytes)
    requires digits == LOWER_HEX || digits == UPPER_HEX
    ensures |s| >= 1 && forall c :: c in s ==> c in digits
    decreases n
  {
    if n < 16 then [digits[n]] else Hex(digits, n / 16) + [digits[n % 16]]
  }

  lemma HexDigit(digits: Bytes, d: nat)
    requires (digits == LOWER_HEX || digits == UPPER_HEX) && d < 16
    ensures DigitValue(digits[d]) == d && digits[d] != '\r' && digits[d] != '\n'
  {
  }

  lemma OneMoreDigit(s: Bytes, c: char, base: nat)
    requires DigitsValue(s, base).Some? && 0 <= DigitValue(c) < base
    ensures DigitsValue(s + [c], base) == Some(DigitsValue(s, base).value * base + DigitValue(c))
  {
    hide DigitValue;
    var t := s + [c];
    assert t[|t| - 1] == c && t[..|t| - 1] == s;
  }

  lemma HexStep(digits: Bytes, n: nat)
    requires digits == LOWER_HEX || digits == UPPER_HEX
    ensures Hex(digits, n) == (if n < 16 then [digits[n]] else Hex(digits, n / 16) + [digits[n % 16]])
  {
  }

  lemma OneDigitValue(c: char, base: nat)
    requires 0 <= DigitValue(c) < base
    ensures DigitsValue([c], base) == Some(DigitValue(c))
  {
    hide DigitValue;
  }

  lemma {:induction false} HexDigits(digits: Bytes, n: nat)
    requires digits == LOWER_HEX || digits == UPPER_HEX
    ensures DigitsValue(Hex(digits, n), 16) == Some(n)
    decreases n
  {
    hide DigitValue, DigitsValue, Hex;
    HexStep(digits, n);
    HexDigit(digits, n % 16);
    if n < 16 {
      OneDigitValue(digits[n], 16);
    } else {
      HexDigits(digits, n / 16);
      OneMoreDigit(Hex(digits, n / 16), digits[n % 16], 16);
    }
  }

  lemma HexChars(digits: Bytes, n: nat)
    requires digits == LOWER_HEX || digits == UPPER_HEX
    ensures AreDigits(Hex(digits, n), 16) && '\r' !in Hex(digits, n)
  {
    hide DigitValue, Hex;
    forall c | c in Hex(digits, n) ensures 0 <= DigitValue(c) < 16 && c != '\r' {
      var d :| 0 <= d < 16 && digits[d] == c;
      HexDigit(digits, d);
    }
  }

  /** Hexadecimal numbers are read back, in lowercase and in uppercase. */
  lemma HexRoundTrip(digits: Bytes, n: nat)
    requires (digits == LOWER_HEX || digits == UPPER_HEX) && n <= INT_MAX
    ensures ToInt(Hex(digits, n), 16) == Some(n) && '\r' !in Hex(digits, n)
  {
    hide ToInt, DigitsValue, Hex;
    HexDigits(digits, n);
    HexChars(digits, n);
    DigitsToInt(Hex(digits, n));
  }
}
