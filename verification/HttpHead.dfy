/**
 Header blocks as clients write them (section 3 of RFC 7230): what the server takes from them, and that requests
 with such a head are the well-formed ones. Names and values are stated on the text, apart from how it is parsed.
 */
module HttpHead {
  import opened HttpFraming
  import opened ServerSocket
  import opened Text
  import opened Wrappers

  /** One header line: a name, a colon, and a value with white space around it. */
  datatype Field = Field(name: Bytes, before: Bytes, value: Bytes, after: Bytes)

  /** The request line and the header lines; `query` is empty or starts with a question mark. */
  datatype Head = Head(verb: Bytes, path: Bytes, query: Bytes, version: Bytes, fields: seq<Field>)

  predicate IsLineText(s: Bytes) {
    '\r' !in s && '\n' !in s
  }

  predicate AllSpace(s: Bytes) {
    forall c :: c in s ==> IsSpace(c)
  }

  predicate WfField(f: Field) {
    && IsLineText(f.name) && ':' !in f.name
    && IsLineText(f.before) && IsLineText(f.value) && IsLineText(f.after)
    && AllSpace(f.before) && AllSpace(f.after)
    && (f.value != "" ==> !IsSpace(f.value[0]) && !IsSpace(f.value[|f.value| - 1]))
  }

  predicate IsWord(s: Bytes) {
    ' ' !in s && IsLineText(s)
  }

  predicate WfHead(h: Head) {
    && IsWord(h.verb) && IsWord(h.path) && IsWord(h.query) && IsWord(h.version)
    && '?' !in h.path && (h.query != "" ==> h.query[0] == '?')
    && forall i :: 0 <= i < |h.fields| ==> WfField(h.fields[i])
  }

  function FieldText(f: Field): Bytes {
    f.name + ":" + (f.before + f.value + f.after)
  }

  /** A line, and a line for each field. */
  function LinesText(line: Bytes, fields: seq<Field>): Bytes
    decreases |fields|
  {
    if fields == [] then line else line + "\r\n" + LinesText(FieldText(fields[0]), fields[1..])
  }

  function RequestLine(h: Head): Bytes {
    h.verb + " " + (h.path + h.query) + " " + h.version
  }

  function HeadText(h: Head): Bytes {
    LinesText(RequestLine(h), h.fields)
  }

  // ----- names without case -----

  /** `c` is `d`, or its uppercase letter. */
  predicate LowerOf(c: char, d: char) {
    if 'A' <= c <= 'Z' then d as int == c as int + 32 else d == c
  }

  /** `key` is the name with every uppercase letter made lowercase. */
  predicate SameName(name: Bytes, key: Bytes) {
    |name| == |key| && forall i :: 0 <= i < |key| ==> LowerOf(name[i], key[i])
  }

  /** Field `i` is the last one called `key`. */
  predicate LastNamed(fields: seq<Field>, i: nat, key: Bytes) {
    i < |fields| && SameName(fields[i].name, key) && forall j :: i < j < |fields| ==> !SameName(fields[j].name, key)
  }

  predicate Unnamed(fields: seq<Field>, key: Bytes) {
    forall j :: 0 <= j < |fields| ==> !SameName(fields[j].name, key)
  }

  lemma ToLowerIs(name: Bytes, key: Bytes)
    ensures ToLower(name) == key <==> SameName(name, key)
  {
  }

  // ----- trimming -----

  lemma {:induction false} TrimLeftIs(before: Bytes, s: Bytes)
    requires AllSpace(before) && (s == "" || !IsSpace(s[0]))
    ensures TrimLeft(before + s) == s
  {
    if before == "" {
      assert before + s == s;
    } else {
      assert (before + s)[1..] == before[1..] + s && before[0] in before;
      TrimLeftIs(before[1..], s);
    }
  }

  lemma {:induction false} TrimRightIs(s: Bytes, after: Bytes)
    requires AllSpace(after) && (s == "" || !IsSpace(s[|s| - 1]))
    ensures TrimRight(s + after) == s
  {
    if after == "" {
      assert s + after == s;
    } else {
      var n := |after| - 1;
      assert (s + after)[..|s| + n] == s + after[..n] && (s + after)[|s| + n] == after[n] && after[n] in after;
      TrimRightIs(s, after[..n]);
    }
  }

  lemma TrimmedIs(before: Bytes, value: Bytes, after: Bytes)
    requires AllSpace(before) && AllSpace(after)
    requires value != "" ==> !IsSpace(value[0]) && !IsSpace(value[|value| - 1])
    ensures Trimmed(before + value + after) == value
  {
    hide IsSpace, TrimLeft, TrimRight;
    if value == "" {
      var all := before + value + after;
      assert AllSpace(all);
      TrimLeftIs(all, "");
      assert all + "" == all;
      TrimRightIs("", "");
      assert "" + "" == "";
    } else {
      assert before + value + after == before + (value + after);
      TrimLeftIs(before, value + after);
      TrimRightIs(value, after);
    }
  }

  // ----- lines -----

  /** The lines as they are read, each with its line end. */
  function ReadLines(line: Bytes, fields: seq<Field>): seq<Bytes>
    decreases |fields|
  {
    if fields == [] then [line] else [line + "\r\n"] + ReadLines(FieldText(fields[0]), fields[1..])
  }

  lemma {:induction false} LinesAreRead(line: Bytes, fields: seq<Field>)
    requires line != "" && IsLineText(line) && forall i :: 0 <= i < |fields| ==> WfField(fields[i])
    ensures Lines(LinesText(line, fields)) == ReadLines(line, fields)
    decreases |fields|
  {
    hide IndexOf, WfField;
    if fields == [] {
      NoIndex(line, '\n');
      assert ['\n'] == "\n";
    } else {
      var next := FieldText(fields[0]);
      var rest := LinesText(next, fields[1..]);
      FieldTextIsLine(fields[0]);
      LinesAreRead(next, fields[1..]);
      IndexAfter(line + "\r", '\n', rest);
      var text := line + "\r" + ['\n'] + rest;
      assert text == LinesText(line, fields) && ['\n'] == "\n";
      assert text[..|line| + 2] == line + "\r\n" && text[|line| + 2..] == rest;
    }
  }

  lemma FieldTextIsLine(f: Field)
    requires WfField(f)
    ensures FieldText(f) != "" && IsLineText(FieldText(f))
  {
  }

  // ----- the fields -----

  lemma FieldIsRead(f: Field, end: Bytes)
    requires WfField(f) && (end == "" || end == "\r\n")
    ensures var line := FieldText(f) + end;
            var colon := IndexOf(line, ":", 0);
            colon == |f.name| && line[..colon] == f.name && Trimmed(line[colon + 1..]) == f.value
  {
    hide IndexOf, Trimmed;
    var line := FieldText(f) + end;
    var rest := f.before + f.value + f.after + end;
    IndexAfter(f.name, ':', rest);
    assert [':'] == ":" && f.name + [':'] + rest == line;
    assert line[|f.name| + 1..] == rest == f.before + f.value + (f.after + end);
    TrimmedIs(f.before, f.value, f.after + end);
  }

  /** Later fields replace earlier ones of the same name. */
  function Bound(fields: seq<Field>, acc: Headers): Headers {
    if fields == [] then acc else Bound(fields[1..], acc[ToLower(fields[0].name) := fields[0].value])
  }

  lemma FieldIsParsed(f: Field, end: Bytes, more: seq<Bytes>, acc: Headers)
    requires WfField(f) && (end == "" || end == "\r\n")
    ensures ParseHeaderLines([FieldText(f) + end] + more, acc) == ParseHeaderLines(more, acc[ToLower(f.name) := f.value])
  {
    hide IndexOf, Trimmed, WfField, FieldText, ToLower;
    var lines := [FieldText(f) + end] + more;
    assert lines[0] == FieldText(f) + end && lines[1..] == more;
    FieldIsRead(f, end);
  }

  lemma {:induction false} FieldsAreBound(fields: seq<Field>, acc: Headers)
    requires fields != [] && forall i :: 0 <= i < |fields| ==> WfField(fields[i])
    ensures ParseHeaderLines(ReadLines(FieldText(fields[0]), fields[1..]), acc) == Bound(fields, acc)
    decreases |fields|
  {
    hide WfField, FieldText, ToLower, ParseHeaderLines;
    var f, rest := fields[0], fields[1..];
    var acc' := acc[ToLower(f.name) := f.value];
    if rest == [] {
      FieldIsParsed(f, "", [], acc);
      assert FieldText(f) + "" == FieldText(f) && [FieldText(f)] + [] == [FieldText(f)];
      NothingBound(acc');
    } else {
      FieldIsParsed(f, "\r\n", ReadLines(FieldText(rest[0]), rest[1..]), acc);
      FieldsAreBound(rest, acc');
    }
  }

  lemma {:induction false} BoundUnnamed(fields: seq<Field>, acc: Headers, key: Bytes)
    requires Unnamed(fields, key)
    ensures key in Bound(fields, acc) <==> key in acc
    ensures key in acc ==> Bound(fields, acc)[key] == acc[key]
    decreases |fields|
  {
    hide ToLower;
    if fields != [] {
      ToLowerIs(fields[0].name, key);
      BoundUnnamed(fields[1..], acc[ToLower(fields[0].name) := fields[0].value], key);
    }
  }

  lemma {:induction false} BoundLast(fields: seq<Field>, acc: Headers, i: nat, key: Bytes)
    requires LastNamed(fields, i, key)
    ensures key in Bound(fields, acc) && Bound(fields, acc)[key] == fields[i].value
    decreases |fields|
  {
    hide ToLower, SameName;
    var acc' := acc[ToLower(fields[0].name) := fields[0].value];
    if i == 0 {
      ToLowerIs(fields[0].name, key);
      BoundUnnamed(fields[1..], acc', key);
    } else {
      BoundLast(fields[1..], acc', i - 1, key);
    }
  }

  // ----- the request line -----

  /** The entries that come from the request line; the version keeps the line end, if there are header lines. */
  function LineEntries(h: Head): Headers {
    map["_requestType" := h.verb, "_path" := h.path, "_query" := h.query,
        "_httpVersion" := h.version + if h.fields == [] then "" else "\r\n"]
  }

  lemma SplitsInThree(a: Bytes, b: Bytes, c: Bytes)
    requires ' ' !in a && ' ' !in b && ' ' !in c
    ensures Split(a + " " + b + " " + c, ' ') == [a, b, c]
  {
    hide IndexOf;
    var text, rest := a + " " + b + " " + c, b + " " + c;
    IndexAfter(a, ' ', rest);
    assert [' '] == " " && a + [' '] + rest == text && text[..|a|] == a && text[|a| + 1..] == rest;
    IndexAfter(b, ' ', c);
    assert b + [' '] + c == rest && rest[..|b|] == b && rest[|b| + 1..] == c;
    NoIndex(c, ' ');
    assert Split(c, ' ') == [c];
    assert Split(rest, ' ') == [b] + [c];
    assert [a] + ([b] + [c]) == [a, b, c];
  }

  lemma TargetIsRead(path: Bytes, query: Bytes)
    requires '?' !in path && (query != "" ==> query[0] == '?')
    ensures var question := IndexOf(path + query, "?", 0);
            if query == "" then question < 0 && path + query == path
            else question == |path| && (path + query)[..question] == path && (path + query)[question..] == query
  {
    hide IndexOf;
    assert ['?'] == "?";
    if query == "" {
      assert path + query == path;
      NoIndex(path, '?');
    } else {
      assert path + query == path + ['?'] + query[1..];
      IndexAfter(path, '?', query[1..]);
    }
  }

  lemma HeadIsBound(h: Head)
    requires WfHead(h)
    ensures ParseHeaders(HeadText(h)) == Bound(h.fields, LineEntries(h))
  {
    hide IndexOf, Split, Lines, WfField, FieldText, Trimmed, ToLower, Bound, ParseHeaderLines;
    var line, end := RequestLine(h), if h.fields == [] then "" else "\r\n";
    var lines := ReadLines(line, h.fields);
    LinesAreRead(line, h.fields);
    assert lines[0] == line + end == h.verb + " " + (h.path + h.query) + " " + (h.version + end);
    SplitsInThree(h.verb, h.path + h.query, h.version + end);
    TargetIsRead(h.path, h.query);
    if h.fields == [] {
      assert lines[1..] == [];
      NothingBound(LineEntries(h));
    } else {
      assert lines[1..] == ReadLines(FieldText(h.fields[0]), h.fields[1..]);
      FieldsAreBound(h.fields, LineEntries(h));
    }
  }

  lemma NothingBound(acc: Headers)
    ensures ParseHeaderLines([], acc) == acc && Bound([], acc) == acc
  {
  }

  /**
   What the server takes from a header block: every name, in lowercase whatever its case was, with the value of its last
   line without the white space around it; type, path, query and version from the request line; and nothing else.
   */
  lemma HeadIsParsed(h: Head, key: Bytes)
    requires WfHead(h)
    ensures var headers := ParseHeaders(HeadText(h));
            && (forall i: nat :: LastNamed(h.fields, i, key) ==> key in headers && headers[key] == h.fields[i].value)
            && (Unnamed(h.fields, key) ==>
                  if key == "_requestType" then key in headers && headers[key] == h.verb
                  else if key == "_path" then key in headers && headers[key] == h.path
                  else if key == "_query" then key in headers && headers[key] == h.query
                  else if key == "_httpVersion" then
                    key in headers && headers[key] == h.version + if h.fields == [] then "" else "\r\n"
                  else key !in headers)
  {
    hide ParseHeaders, HeadText, Bound, WfHead, SameName;
    HeadIsBound(h);
    forall i: nat | LastNamed(h.fields, i, key)
      ensures key in Bound(h.fields, LineEntries(h)) && Bound(h.fields, LineEntries(h))[key] == h.fields[i].value
    {
      BoundLast(h.fields, LineEntries(h), i, key);
    }
    if Unnamed(h.fields, key) {
      BoundUnnamed(h.fields, LineEntries(h), key);
    }
  }

  // ----- requests with such a head -----

  /** No blank line comes before the end of the header block. */
  lemma {:induction false} BlankLineEnds(line: Bytes, fields: seq<Field>, k: nat)
    requires line != "" && IsLineText(line) && forall i :: 0 <= i < |fields| ==> WfField(fields[i])
    requires k < |LinesText(line, fields)|
    ensures !At(LinesText(line, fields) + "\r\n\r\n", "\r\n\r\n", k)
    decreases |fields|
  {
    hide WfField, FieldText;
    var text := LinesText(line, fields) + "\r\n\r\n";
    if k < |line| {
      assert text[k] == line[k] && line[k] in line;
      NotAtStart(text, k);
    } else {
      var next := FieldText(fields[0]);
      FieldTextIsLine(fields[0]);
      var rest := LinesText(next, fields[1..]) + "\r\n\r\n";
      assert text == line + "\r\n" + rest;
      StartsWithLine(next, fields[1..]);
      if k == |line| {
        assert text[k + 2] == rest[0] == next[0] && next[0] in next;
        NotAtThird(text, k);
      } else if k == |line| + 1 {
        NotAtStart(text, k);
      } else {
        BlankLineEnds(next, fields[1..], k - |line| - 2);
        ShiftedAt(line + "\r\n", rest, "\r\n\r\n", k);
      }
    }
  }

  lemma ShiftedAt(a: Bytes, b: Bytes, pat: Bytes, k: nat)
    requires |a| <= k
    ensures At(a + b, pat, k) <==> At(b, pat, k - |a|)
  {
    if k + |pat| <= |a + b| {
      assert (a + b)[k..k + |pat|] == b[k - |a|..k - |a| + |pat|];
    }
  }

  lemma StartsWithLine(line: Bytes, fields: seq<Field>)
    requires line != ""
    ensures LinesText(line, fields) != "" && LinesText(line, fields)[0] == line[0]
  {
  }

  lemma NotAtStart(text: Bytes, k: nat)
    requires k < |text| && text[k] != '\r'
    ensures !At(text, "\r\n\r\n", k)
  {
    if k + 4 <= |text| {
      assert text[k..k + 4][0] == text[k];
    }
  }

  lemma NotAtThird(text: Bytes, k: nat)
    requires k + 2 < |text| && text[k + 2] != '\r'
    ensures !At(text, "\r\n\r\n", k)
  {
    if k + 4 <= |text| {
      assert text[k..k + 4][2] == text[k + 2];
    }
  }

  lemma BlankLineAt(line: Bytes, fields: seq<Field>, rest: Bytes)
    requires line != "" && IsLineText(line) && forall i :: 0 <= i < |fields| ==> WfField(fields[i])
    ensures IndexOf(LinesText(line, fields) + "\r\n\r\n" + rest, "\r\n\r\n", 0) == |LinesText(line, fields)|
  {
    hide WfField;
    var head := LinesText(line, fields) + "\r\n\r\n";
    var text, n := head + rest, |LinesText(line, fields)|;
    assert text[n..n + 4] == "\r\n\r\n";
    forall k | 0 <= k < n ensures !At(text, "\r\n\r\n", k) {
      BlankLineEnds(line, fields, k);
      assert text[k..k + 4] == head[k..k + 4];
    }
    IndexOfIs(text, "\r\n\r\n", 0, n);
  }

  lemma HeadEnds(h: Head)
    requires WfHead(h)
    ensures HeadText(h) != "" && IndexOf(HeadText(h) + "\r\n\r\n", "\r\n\r\n", 0) == |HeadText(h)|
  {
    hide WfField;
    var line, text := RequestLine(h), HeadText(h) + "\r\n\r\n";
    StartsWithLine(line, h.fields);
    forall k | 0 <= k < |HeadText(h)| ensures !At(text, "\r\n\r\n", k) {
      BlankLineEnds(line, h.fields, k);
    }
    assert text[|HeadText(h)|..|HeadText(h)| + 4] == "\r\n\r\n";
    IndexOfIs(text, "\r\n\r\n", 0, |HeadText(h)|);
  }

  /** A request that gives the length of its body, under a name in any case, is well formed. */
  lemma SizedIsWellFormed(h: Head, i: nat, body: Bytes)
    requires WfHead(h) && |body| <= INT_MAX
    requires LastNamed(h.fields, i, "content-length") && h.fields[i].value == Number(|body|)
    requires forall j: nat :: LastNamed(h.fields, j, "transfer-encoding") ==> h.fields[j].value != "chunked"
    ensures WfRequest(Request(HeadText(h), Sized(body)))
  {
    hide ParseHeaders, HeadText, WfHead, LastNamed, Unnamed, ToInt, IndexOf, Number;
    HeadEnds(h);
    HeadIsParsed(h, "content-length");
    HeadIsParsed(h, "transfer-encoding");
    LastOrNone(h.fields, "transfer-encoding");
    NumberRoundTrip(|body|);
  }

  /** And one without a length has no body. */
  lemma UnsizedIsWellFormed(h: Head)
    requires WfHead(h) && Unnamed(h.fields, "content-length")
    requires forall j: nat :: LastNamed(h.fields, j, "transfer-encoding") ==> h.fields[j].value != "chunked"
    ensures WfRequest(Request(HeadText(h), Sized("")))
  {
    hide ParseHeaders, HeadText, WfHead, LastNamed, Unnamed, ToInt, IndexOf;
    HeadEnds(h);
    HeadIsParsed(h, "content-length");
    HeadIsParsed(h, "transfer-encoding");
    HeadIsNotEmpty(h);
    LastOrNone(h.fields, "transfer-encoding");
    NoNumber();
  }

  lemma NoNumber()
    ensures ToInt("", 10) == None
  {
  }

  lemma HeadIsNotEmpty(h: Head)
    requires WfHead(h)
    ensures ParseHeaders(HeadText(h)) != map[]
  {
    hide ParseHeaders, HeadText, WfHead, LastNamed, Unnamed;
    HeadIsParsed(h, "_path");
    LastOrNone(h.fields, "_path");
  }

  lemma {:induction false} LastOrNone(fields: seq<Field>, key: Bytes)
    ensures Unnamed(fields, key) || exists i: nat :: LastNamed(fields, i, key)
  {
    hide SameName;
    if fields != [] {
      var n := |fields| - 1;
      LastOrNone(fields[..n], key);
      if SameName(fields[n].name, key) {
        assert LastNamed(fields, n, key);
      } else if exists i: nat :: LastNamed(fields[..n], i, key) {
        var i: nat :| LastNamed(fields[..n], i, key);
        assert LastNamed(fields, i, key);
      }
    }
  }

  // ----- chunked requests -----

  /** The pieces as chunks, their sizes in hexadecimal. */
  function ChunksOf(digits: Bytes, pieces: seq<Bytes>): (cs: seq<Chunk>)
    requires digits == LOWER_HEX || digits == UPPER_HEX
    ensures |cs| == |pieces| && forall i :: 0 <= i < |cs| ==> cs[i] == Chunk(Hex(digits, |pieces[i]|), pieces[i])
  {
    seq(|pieces|, i requires 0 <= i < |pieces| => Chunk(Hex(digits, |pieces[i]|), pieces[i]))
  }

  function ChunksText(digits: Bytes, pieces: seq<Bytes>): Bytes
    requires digits == LOWER_HEX || digits == UPPER_HEX
  {
    if pieces == [] then "" else Hex(digits, |pieces[0]|) + "\r\n" + pieces[0] + "\r\n" + ChunksText(digits, pieces[1..])
  }

  function TrailerText(fields: seq<Field>): Bytes {
    if fields == [] then "" else LinesText(FieldText(fields[0]), fields[1..]) + "\r\n"
  }

  lemma {:induction false} ChunksTextIs(digits: Bytes, pieces: seq<Bytes>)
    requires digits == LOWER_HEX || digits == UPPER_HEX
    ensures ChunksWire(ChunksOf(digits, pieces)) == ChunksText(digits, pieces)
    ensures Datas(ChunksOf(digits, pieces)) == pieces
    decreases |pieces|
  {
    hide Hex;
    if pieces != [] {
      ChunksTextIs(digits, pieces[1..]);
      assert ChunksOf(digits, pieces)[1..] == ChunksOf(digits, pieces[1..]);
      assert pieces == [pieces[0]] + pieces[1..];
    }
  }

  /** The blank line after the last chunk is the one at the end, also when there are trailer lines. */
  lemma TrailerEnds(fields: seq<Field>)
    requires forall i :: 0 <= i < |fields| ==> WfField(fields[i])
    ensures IndexOf("\r\n" + TrailerText(fields) + "\r\n", "\r\n\r\n", 0) == |TrailerText(fields)|
  {
    hide WfField, FieldText;
    var text, n := "\r\n" + TrailerText(fields) + "\r\n", |TrailerText(fields)|;
    if fields == [] {
      assert text == "\r\n\r\n" && text[0..4] == text;
    } else {
      var line := FieldText(fields[0]);
      var lines := LinesText(line, fields[1..]) + "\r\n\r\n";
      assert text == "\r\n" + lines && n == |lines| - 2;
      FieldTextIsLine(fields[0]);
      StartsWithLine(line, fields[1..]);
      assert text[2] == line[0] && line[0] in line;
      assert text[n..n + 4] == "\r\n\r\n";
      forall k | 0 <= k < n ensures !At(text, "\r\n\r\n", k) {
        if k == 0 {
          NotAtThird(text, 0);
        } else if k == 1 {
          NotAtStart(text, 1);
        } else {
          BlankLineEnds(line, fields[1..], k - 2);
          ShiftedAt("\r\n", lines, "\r\n\r\n", k);
        }
      }
    }
    IndexOfIs(text, "\r\n\r\n", 0, n);
  }

  function ChunkedRequest(h: Head, digits: Bytes, pieces: seq<Bytes>, trailer: seq<Field>): Request
    requires digits == LOWER_HEX || digits == UPPER_HEX
  {
    Request(HeadText(h), Chunked(ChunksOf(digits, pieces), "0", TrailerText(trailer)))
  }

  /** A request in chunks, with sizes in hexadecimal of either case and any trailer lines, is well formed. */
  lemma ChunkedIsWellFormed(h: Head, i: nat, digits: Bytes, pieces: seq<Bytes>, trailer: seq<Field>)
    requires WfHead(h) && LastNamed(h.fields, i, "transfer-encoding") && h.fields[i].value == "chunked"
    requires digits == LOWER_HEX || digits == UPPER_HEX
    requires forall j :: 0 <= j < |pieces| ==> 0 < |pieces[j]| <= INT_MAX
    requires forall j :: 0 <= j < |trailer| ==> WfField(trailer[j])
    ensures WfRequest(ChunkedRequest(h, digits, pieces, trailer))
    ensures Wire(ChunkedRequest(h, digits, pieces, trailer))
         == HeadText(h) + "\r\n\r\n" + ChunksText(digits, pieces) + "0\r\n" + TrailerText(trailer) + "\r\n"
    ensures Body(ChunkedRequest(h, digits, pieces, trailer).payload) == Concat(pieces)
  {
    hide ParseHeaders, HeadText, WfHead, LastNamed, Unnamed, ToInt, IndexOf, Hex, TrailerText, WfField, Concat, ChunksWire, ChunksText;
    HeadEnds(h);
    HeadIsParsed(h, "transfer-encoding");
    TrailerEnds(trailer);
    ChunksTextIs(digits, pieces);
    ZeroIsZero();
    forall j | 0 <= j < |pieces| ensures WfChunk(ChunksOf(digits, pieces)[j]) {
      HexRoundTrip(digits, |pieces[j]|);
    }
    var chunks, tail := ChunksText(digits, pieces), TrailerText(trailer);
    assert HeadText(h) + "\r\n\r\n" + (chunks + ("0" + ("\r\n" + tail + "\r\n")))
        == HeadText(h) + "\r\n\r\n" + chunks + "0\r\n" + tail + "\r\n";
  }

  lemma ZeroIsZero()
    ensures ToInt("0", 16) == Some(0)
  {
    assert Hex(LOWER_HEX, 0) == "0";
    HexRoundTrip(LOWER_HEX, 0);
  }

  // ----- what reaches the application -----

  /** The call for a request, and what the handler's outcome makes of it at once. */
  function Called(c: Config, trace: seq<Event>, headers: Headers, body: Bytes): seq<Event> {
    var n := DispatchCount(trace);
    trace + [Dispatch(n, headers, body)] + Replies(c.handler(n, headers, body), n)
  }

  /**
   However the bytes are cut, a request with a length reaches the application once, with its body and with the headers
   described above, at the read that brings its last byte; nothing is dispatched before.
   */
  lemma SizedArrives(c: Config, s: Socket, h: Head, i: nat, body: Bytes, segments: seq<Bytes>)
    requires c.raw.NoRaw? && Idle(s) && s.enabled && !s.delayed
    requires WfHead(h) && |body| <= INT_MAX
    requires LastNamed(h.fields, i, "content-length") && h.fields[i].value == Number(|body|)
    requires forall j: nat :: LastNamed(h.fields, j, "transfer-encoding") ==> h.fields[j].value != "chunked"
    requires segments != [] && segments[|segments| - 1] != "" && Concat(segments) == HeadText(h) + "\r\n\r\n" + body
    ensures ArriveAll(c, s, segments).trace == Called(c, s.trace, ParseHeaders(HeadText(h)), body)
    ensures forall k :: 0 <= k < |segments| ==>
              s.trace <= ArriveAll(c, s, segments[..k]).trace && NothingDelivered(ArriveAll(c, s, segments[..k]).trace[|s.trace|..])
  {
    hide ParseHeaders, HeadText, WfHead, LastNamed, WfRequest, ArriveAll, DispatchCount, Number;
    SizedIsWellFormed(h, i, body);
    var r := Request(HeadText(h), Sized(body));
    var pieces := SegmentationIndependence(c, s, r, segments);
    assert s.trace + [] == s.trace;
  }

  /** The same for a request in chunks. */
  lemma ChunkedArrives(c: Config, s: Socket, h: Head, i: nat, digits: Bytes, pieces: seq<Bytes>, trailer: seq<Field>, segments: seq<Bytes>)
    requires c.raw.NoRaw? && Idle(s) && s.enabled && !s.delayed
    requires WfHead(h) && LastNamed(h.fields, i, "transfer-encoding") && h.fields[i].value == "chunked"
    requires digits == LOWER_HEX || digits == UPPER_HEX
    requires forall j :: 0 <= j < |pieces| ==> 0 < |pieces[j]| <= INT_MAX
    requires forall j :: 0 <= j < |trailer| ==> WfField(trailer[j])
    requires segments != [] && segments[|segments| - 1] != ""
    requires Concat(segments) == HeadText(h) + "\r\n\r\n" + ChunksText(digits, pieces) + "0\r\n" + TrailerText(trailer) + "\r\n"
    ensures ArriveAll(c, s, segments).trace == Called(c, s.trace, ParseHeaders(HeadText(h)), Concat(pieces))
    ensures forall k :: 0 <= k < |segments| ==>
              s.trace <= ArriveAll(c, s, segments[..k]).trace && NothingDelivered(ArriveAll(c, s, segments[..k]).trace[|s.trace|..])
  {
    hide ParseHeaders, HeadText, WfHead, LastNamed, WfRequest, ArriveAll, DispatchCount, ChunksText, Wire, Body, Concat, TrailerText, WfField;
    ChunkedIsWellFormed(h, i, digits, pieces, trailer);
    var r := ChunkedRequest(h, digits, pieces, trailer);
    var ps := SegmentationIndependence(c, s, r, segments);
    assert s.trace + [] == s.trace;
  }

  /**
   With a raw-XML interface every request is announced with its headers; one that the interface takes is then handed over
   in pieces that make up its body, one for each HTTP chunk, and ended; any other reaches the application as before.
   */
  lemma RawArrives(c: Config, s: Socket, r: Request, segments: seq<Bytes>) returns (pieces: seq<Bytes>)
    requires c.raw.Raw? && Idle(s) && s.enabled && !s.delayed && WfRequest(r)
    requires segments != [] && segments[|segments| - 1] != "" && Concat(segments) == Wire(r)
    ensures var headers, trace, n := ParseHeaders(r.head), ArriveAll(c, s, segments).trace, |s.trace|;
            && n < |trace| && trace[..n] == s.trace && trace[n] == NewRequest(headers)
            && if c.raw.takes(headers) then
                 && |trace| == n + 2 + |pieces| && trace[|trace| - 1] == EndRequest
                 && (forall k :: 0 <= k < |pieces| ==> trace[n + 1 + k] == ProcessXML(pieces[k]))
                 && Concat(pieces) == Body(r.payload)
                 && (r.payload.Chunked? ==>
                       |pieces| == |r.payload.chunks| && forall k :: 0 <= k < |pieces| ==> pieces[k] == r.payload.chunks[k].data)
               else
                 trace[n + 1..] == [Dispatch(DispatchCount(s.trace), headers, Body(r.payload))]
                                   + Replies(c.handler(DispatchCount(s.trace), headers, Body(r.payload)), DispatchCount(s.trace))
  {
    hide ParseHeaders, WfRequest, ArriveAll, DispatchCount, Wire, Body, Concat, Idle;
    pieces := SegmentationIndependence(c, s, r, segments);
  }

  // ----- what is refused, or never becomes a request -----

  /** A request line with fewer than three parts gives no headers at all, whatever lines follow. */
  lemma ShortRequestLine(line: Bytes, fields: seq<Field>)
    requires line != "" && IsLineText(line) && forall i :: 0 <= i < |fields| ==> WfField(fields[i])
    requires ' ' !in line || exists a: Bytes, b: Bytes :: line == a + " " + b && ' ' !in a && ' ' !in b
    ensures ParseHeaders(LinesText(line, fields)) == map[]
  {
    hide IndexOf, Split, Lines, WfField, FieldText, Trimmed, ToLower, ParseHeaderLines;
    LinesAreRead(line, fields);
    var end := if fields == [] then "" else "\r\n";
    assert line + "" == line;
    if ' ' !in line {
      SplitsInOne(line + end);
    } else {
      var a: Bytes, b: Bytes :| line == a + " " + b && ' ' !in a && ' ' !in b;
      assert line + end == a + " " + (b + end);
      SplitsInTwo(a, b + end);
    }
  }

  lemma SplitsInOne(a: Bytes)
    requires ' ' !in a
    ensures |Split(a, ' ')| == 1
  {
    hide IndexOf;
    NoIndex(a, ' ');
  }

  lemma SplitsInTwo(a: Bytes, b: Bytes)
    requires ' ' !in a && ' ' !in b
    ensures |Split(a + " " + b, ' ')| == 2
  {
    hide IndexOf;
    IndexAfter(a, ' ', b);
    SplitsInOne(b);
    assert a + [' '] + b == a + " " + b;
    assert (a + " " + b)[|a| + 1..] == b;
  }

  /** A read that does not complete a header block only collects. */
  lemma CollectingRead(c: Config, s: Socket, x: Bytes)
    requires s.enabled && s.headers == map[] && s.incoming == "" && !HasHead(s.buffer + x)
    ensures var s' := Arrive(c, s, x);
            && s'.trace == s.trace && s'.buffer == s.buffer + x && s'.headers == map[] && s'.enabled && !s'.delayed == !s.delayed
            && s'.incoming == ""
  {
    hide HasHead, ReadBody, ReadHead;
    assert "" + x == x;
  }

  /** Bytes that start with a blank line never become a request: they pile up unread. */
  lemma {:induction false} BlankLineFirst(c: Config, s: Socket, segments: seq<Bytes>)
    requires Idle(s) && s.enabled && !s.delayed
    requires var all := Concat(segments); all <= "\r\n\r\n" || "\r\n\r\n" <= all
    ensures var s' := ArriveAll(c, s, segments);
            && s'.trace == s.trace && s'.buffer == Concat(segments)
            && s'.headers == map[] && s'.enabled && s'.incoming == ""
    decreases |segments|
  {
    hide HasHead, Arrive, Concat;
    if segments == [] {
      NoPieces();
    } else {
      var front, last := segments[..|segments| - 1], segments[|segments| - 1];
      assert front + [last] == segments;
      ConcatSnoc(front, last);
      BlankLineFirst(c, s, front);
      BlankAtStart(Concat(segments));
      CollectingRead(c, ArriveAll(c, s, front), last);
    }
  }

  lemma NoPieces()
    ensures Concat([]) == ""
  {
  }

  lemma BlankAtStart(all: Bytes)
    requires all <= "\r\n\r\n" || "\r\n\r\n" <= all
    ensures !HasHead(all)
  {
    if "\r\n\r\n" <= all {
      assert At(all, "\r\n\r\n", 0);
    }
  }

  /** The socket in a chunked request whose next chunk size is no number. */
  predicate Stuck(s: Socket, size: Bytes) {
    && s.enabled && !s.delayed && s.incoming == "" && s.headers != map[] && IsChunked(s.headers) && !s.useRaw
    && s.chunkStart == 0 && size + "\r\n" <= s.buffer
  }

  lemma StuckBody(c: Config, s: Socket, size: Bytes)
    requires Stuck(s, size) && '\r' !in size && ToInt(size, 16) == None
    ensures ReadBody(c, s).trace == s.trace + [BadRequest] && Stuck(ReadBody(c, s), size)
  {
    hide ToInt, IndexOf, ScanChunks, IsChunked, Deliver;
    var rest := s.buffer[|size| + 2..];
    assert s.buffer == size + "\r\n" + rest;
    BadSizeFound(size, rest);
    assert s.decoded + Concat([]) == s.decoded;
  }

  /** Every read in that state is answered with an error. */
  lemma StuckRead(c: Config, s: Socket, size: Bytes, more: Bytes)
    requires Stuck(s, size) && '\r' !in size && ToInt(size, 16) == None
    ensures Arrive(c, s, more).trace == s.trace + [BadRequest] && Stuck(Arrive(c, s, more), size)
  {
    hide ToInt, IndexOf, IsChunked, ReadBody;
    assert "" + more == more;
    StuckBody(c, ReadAll(s.(incoming := more)), size);
  }

  /** A read that completes a header block goes on with the body. */
  lemma HeadRead(c: Config, s: Socket, h: Head, body: Bytes) returns (s': Socket)
    requires c.raw.NoRaw? && Idle(s) && s.enabled && !s.delayed && WfHead(h)
    ensures Arrive(c, s, HeadText(h) + "\r\n\r\n" + body) == ReadBody(c, s')
    ensures s'.trace == s.trace && s'.buffer == body && s'.headers == ParseHeaders(HeadText(h)) && s'.headers != map[]
    ensures s'.enabled && !s'.delayed && s'.incoming == "" && s'.chunkStart == 0 && !s'.useRaw
  {
    hide ParseHeaders, WfHead, IndexOf, ReadBody, HeadText;
    var head := HeadText(h);
    var text := head + "\r\n\r\n" + body;
    RequestLineIsLine(h);
    StartsWithLine(RequestLine(h), h.fields);
    BlankLineAt(RequestLine(h), h.fields, body);
    HeadIsNotEmpty(h);
    assert "" + text == text;
    assert text[..|head|] == head && text[|head| + 4..] == body;
    assert s.trace + [] == s.trace;
    s' := ReadHead(c, ReadAll(s.(incoming := text)));
  }

  /** It is answered with an error, and nothing is called; every later read is answered with the same error again. */
  lemma BadChunkIsRefused(c: Config, s: Socket, h: Head, i: nat, size: Bytes, rest: Bytes, more: Bytes)
    requires c.raw.NoRaw? && Idle(s) && s.enabled && !s.delayed
    requires WfHead(h) && LastNamed(h.fields, i, "transfer-encoding") && h.fields[i].value == "chunked"
    requires '\r' !in size && ToInt(size, 16) == None
    ensures var s' := Arrive(c, s, HeadText(h) + "\r\n\r\n" + (size + "\r\n" + rest));
            && s'.trace == s.trace + [BadRequest] && Arrive(c, s', more).trace == s.trace + [BadRequest] + [BadRequest]
  {
    hide ParseHeaders, HeadText, WfHead, LastNamed, ToInt, Arrive, ReadBody, Idle;
    HeadIsParsed(h, "transfer-encoding");
    var s1 := HeadRead(c, s, h, size + "\r\n" + rest);
    StuckBody(c, s1, size);
    StuckRead(c, ReadBody(c, s1), size, more);
  }

  lemma RequestLineIsLine(h: Head)
    requires WfHead(h)
    ensures RequestLine(h) != "" && IsLineText(RequestLine(h)) && forall j :: 0 <= j < |h.fields| ==> WfField(h.fields[j])
    ensures HeadText(h) == LinesText(RequestLine(h), h.fields)
  {
  }

  lemma BadSizeFound(size: Bytes, rest: Bytes)
    requires '\r' !in size && ToInt(size, 16) == None
    ensures ScanChunks(size + "\r\n" + rest, 0) == Scan(NotANumber, 0, [])
  {
    hide ToInt;
    var text := size + "\r\n" + rest;
    assert text[|size|..|size| + 2] == "\r\n" && text[0..|size|] == size;
    forall k | 0 <= k < |size| ensures !At(text, "\r\n", k) {
      assert text[k] == size[k] && size[k] in size;
      assert text[k..k + 2][0] == text[k];
    }
    IndexOfIs(text, "\r\n", 0, |size|);
  }
}
