/**
 Reading a 206 response as a client does (section 4.1 of RFC 7233): the parts by their Content-Range headers, and
 nothing left over. What writeFileRanges writes is read back as the requested slices of the file.
 */
module RangeResponse {
  import opened ByteRanges
  import opened HttpHead
  import opened RangeWriter
  import opened ServerSocket
  import opened Text
  import opened Wrappers

  /** One part: its content type, which bytes of how many it has, and these bytes. */
  datatype PartRead = PartRead(contentType: Bytes, first: int, last: int, total: int, data: Bytes)

  // ----- a client -----

  /** The value of a Content-Range header: first byte, last byte, size of the whole file. */
  function ReadContentRange(value: Bytes): Option<(int, int, int)> {
    if !("bytes " <= value) then None
    else
      var parts := Split(value[6..], '/');
      if |parts| != 2 then None
      else
        var ends := Split(parts[0], '-');
        if |ends| != 2 then None
        else
          match (ToInt(ends[0], 10), ToInt(ends[1], 10), ToInt(parts[1], 10))
          case (Some(first), Some(last), Some(total)) => Some((first, last, total))
          case _ => None
  }

  /** Header lines up to a blank line, and what comes after it. */
  function ReadHeaderBlock(text: Bytes): Option<(Headers, Bytes)> {
    var end := IndexOf(text, "\r\n\r\n", 0);
    if end < 0 then None else Some((ParseHeaderLines(Lines(text[..end]), map[]), text[end + 4..]))
  }

  /** A part after its delimiter, and what comes after the line break that ends it. */
  function ReadPart(text: Bytes): (r: Option<(PartRead, Bytes)>)
    ensures r.Some? ==> |r.value.1| < |text|
  {
    match ReadHeaderBlock(text)
    case None => None
    case Some((headers, rest)) =>
      match ReadContentRange(Header(headers, "content-range"))
      case None => None
      case Some((first, last, total)) =>
        var n := last - first + 1;
        if n < 0 || n + 2 > |rest| || rest[n..n + 2] != "\r\n" then None
        else Some((PartRead(Header(headers, "content-type"), first, last, total, rest[..n]), rest[n + 2..]))
  }

  /** A multipart body: parts behind delimiter lines, and a closing delimiter. */
  function ReadParts(text: Bytes, boundary: Bytes): Option<seq<PartRead>>
    decreases |text|
  {
    var line, closing := "--" + boundary + "\r\n", "--" + boundary + "--\r\n";
    if text == closing then Some([])
    else if !(line <= text) then None
    else
      match ReadPart(text[|line|..])
      case None => None
      case Some((part, rest)) =>
        match ReadParts(rest, boundary)
        case None => None
        case Some(parts) => Some([part] + parts)
  }

  // ----- what is written, as header lines -----

  function ContentRangeText(r: Range, total: nat): Bytes
    requires 0 <= r.first <= r.last
  {
    "bytes " + Number(r.first) + "-" + Number(r.last) + "/" + Number(total)
  }

  function PartFields(contentType: Bytes, r: Range, total: nat): seq<Field>
    requires 0 <= r.first <= r.last
  {
    [Field("Content-Type", " ", contentType, ""), Field("Content-Range", " ", ContentRangeText(r, total), "")]
  }

  /** A value that a header line can hold. */
  predicate IsFieldValue(value: Bytes) {
    IsLineText(value) && (value != "" ==> !IsSpace(value[0]) && !IsSpace(value[|value| - 1]))
  }

  lemma ContentRangeIsValue(r: Range, total: nat)
    requires 0 <= r.first <= r.last
    ensures IsFieldValue(ContentRangeText(r, total))
  {
    hide Number;
    var a, b, c := Number(r.first), Number(r.last), Number(total);
    var text := ContentRangeText(r, total);
    assert text[0] == 'b' && text[|text| - 1] == c[|c| - 1] && c[|c| - 1] in c;
    forall x | x in text ensures x != '\r' && x != '\n' {
      assert x in "bytes " || x in a || x in "-" || x in b || x in "/" || x in c;
    }
  }

  lemma ContentRangeIsRead(r: Range, total: nat)
    requires 0 <= r.first <= r.last <= INT_MAX && total <= INT_MAX
    ensures ReadContentRange(ContentRangeText(r, total)) == Some((r.first, r.last, total as int))
  {
    hide Number, ToInt, Split;
    var a, b, c := Number(r.first), Number(r.last), Number(total);
    var text := ContentRangeText(r, total);
    assert text[6..] == (a + "-" + b) + "/" + c && "bytes " <= text;
    SplitInTwo(a + "-" + b, '/', c);
    SplitInTwo(a, '-', b);
    NumberRoundTrip(r.first);
    NumberRoundTrip(r.last);
    NumberRoundTrip(total);
  }

  lemma SplitInTwo(a: Bytes, sep: char, b: Bytes)
    requires sep !in a && sep !in b
    ensures Split(a + [sep] + b, sep) == [a, b]
  {
    hide IndexOf;
    var text := a + [sep] + b;
    IndexAfter(a, sep, b);
    NoIndex(b, sep);
    assert text[..|a|] == a && text[|a| + 1..] == b;
    assert Split(b, sep) == [b];
    assert [a] + [b] == [a, b];
  }

  lemma PartFieldsAreWellFormed(contentType: Bytes, r: Range, total: nat)
    requires IsFieldValue(contentType) && 0 <= r.first <= r.last
    ensures forall i :: 0 <= i < 2 ==> WfField(PartFields(contentType, r, total)[i])
  {
    hide ContentRangeText, WfField, IsFieldValue, IsLineText;
    ContentRangeIsValue(r, total);
    ContentTypeIsName();
    ContentRangeIsName();
    LineIsWellFormed("Content-Type", contentType);
    LineIsWellFormed("Content-Range", ContentRangeText(r, total));
  }

  /** A block of header lines is read as its fields, and what follows the blank line is left. */
  lemma BlockIsRead(fields: seq<Field>, rest: Bytes)
    requires fields != [] && forall i :: 0 <= i < |fields| ==> WfField(fields[i])
    ensures ReadHeaderBlock(LinesText(FieldText(fields[0]), fields[1..]) + "\r\n\r\n" + rest) == Some((Bound(fields, map[]), rest))
  {
    hide WfField, FieldText, IndexOf, Lines, ParseHeaderLines, Bound;
    var block := LinesText(FieldText(fields[0]), fields[1..]);
    var text := block + "\r\n\r\n" + rest;
    FieldTextIsLine(fields[0]);
    BlankLineAt(FieldText(fields[0]), fields[1..], rest);
    LinesAreRead(FieldText(fields[0]), fields[1..]);
    FieldsAreBound(fields, map[]);
    assert text[..|block|] == block && text[|block| + 4..] == rest;
  }

  lemma PartFieldsBound(contentType: Bytes, r: Range, total: nat)
    requires 0 <= r.first <= r.last
    ensures var headers := Bound(PartFields(contentType, r, total), map[]);
            Header(headers, "content-type") == contentType && Header(headers, "content-range") == ContentRangeText(r, total)
  {
    hide ContentRangeText, Bound;
    var fields := PartFields(contentType, r, total);
    assert SameName("Content-Type", "content-type") && SameName("Content-Range", "content-range") && !SameName("Content-Range", "content-type");
    assert LastNamed(fields, 0, "content-type") && LastNamed(fields, 1, "content-range");
    BoundLast(fields, map[], 0, "content-type");
    BoundLast(fields, map[], 1, "content-range");
  }

  // ----- multipart bodies -----

  /** The part that holds one range of the file. */
  function PartOf(contentType: Bytes, content: Bytes, r: Range): PartRead
    requires 0 <= r.first <= r.last < |content|
  {
    PartRead(contentType, r.first, r.last, |content|, content[r.first..r.last + 1])
  }

  function PartsOf(contentType: Bytes, content: Bytes, ranges: seq<Range>): (parts: seq<PartRead>)
    requires InFile(ranges, |content|)
    ensures |parts| == |ranges| && forall i :: 0 <= i < |parts| ==> parts[i] == PartOf(contentType, content, ranges[i])
  {
    seq(|ranges|, i requires 0 <= i < |ranges| => PartOf(contentType, content, ranges[i]))
  }

  lemma PartHeaderIs(contentType: Bytes, r: Range, total: nat)
    requires 0 <= r.first <= r.last
    ensures var fields := PartFields(contentType, r, total);
            PartHeader(contentType, r, total) == LinesText(FieldText(fields[0]), fields[1..]) + "\r\n\r\n"
  {
    hide Number, FieldText;
    var fields := PartFields(contentType, r, total);
    assert fields[1..] == [fields[1]] && fields[1..][1..] == [];
    TypeLabel();
    RangeLabel();
    FieldTextIs("Content-Type", "Content-Type: ", contentType, contentType, "");
    assert "" + contentType == contentType;
    FieldTextIs("Content-Range", "Content-Range: bytes ", ContentRangeText(r, total), ContentRange(r, total), "bytes ");
    assert "bytes " + ContentRange(r, total) == ContentRangeText(r, total);
    TwoLines("Content-Type: ", contentType, "Content-Range: bytes ", ContentRange(r, total));
  }

  lemma FieldTextIs(name: Bytes, lead: Bytes, value: Bytes, rest: Bytes, unit: Bytes)
    requires lead == name + ": " + unit && value == unit + rest
    ensures FieldText(Field(name, " ", value, "")) == lead + rest
  {
  }

  lemma TwoLines(t: Bytes, typ: Bytes, r: Bytes, range: Bytes)
    ensures t + typ + "\r\n" + r + range + "\r\n" + "\r\n" == (t + typ) + "\r\n" + (r + range) + "\r\n\r\n"
  {
  }

  /** A part is read as what it was written from. */
  lemma PartIsRead(contentType: Bytes, content: Bytes, r: Range, rest: Bytes)
    requires IsFieldValue(contentType) && 0 <= r.first <= r.last < |content| <= INT_MAX
    ensures ReadPart(PartHeader(contentType, r, |content|) + (Slice(content, r) + "\r\n" + rest)) == Some((PartOf(contentType, content, r), rest))
  {
    hide ReadHeaderBlock, ReadContentRange, ContentRangeText, PartHeader, FieldText, WfField, Bound, IsFieldValue, Header;
    var fields := PartFields(contentType, r, |content|);
    var tail := Slice(content, r) + "\r\n" + rest;
    PartHeaderIs(contentType, r, |content|);
    PartFieldsAreWellFormed(contentType, r, |content|);
    BlockIsRead(fields, tail);
    PartFieldsBound(contentType, r, |content|);
    ContentRangeIsRead(r, |content|);
    var n := r.last - r.first + 1;
    assert tail[..n] == Slice(content, r) && tail[n..n + 2] == "\r\n" && tail[n + 2..] == rest;
  }

  lemma {:induction false} PartsCons(boundary: Bytes, contentType: Bytes, content: Bytes, ranges: seq<Range>)
    requires ranges != [] && InFile(ranges, |content|)
    ensures Parts(boundary, contentType, content, ranges)
         == Part(boundary, contentType, content, ranges[0]) + Parts(boundary, contentType, content, ranges[1..])
    decreases |ranges|
  {
    hide Part;
    var n := |ranges| - 1;
    if n > 0 {
      PartsCons(boundary, contentType, content, ranges[..n]);
      assert ranges[..n][1..] == ranges[1..][..n - 1];
    } else {
      assert ranges[..0] == [] && ranges[1..] == [];
    }
  }

  /** A body with at least one part starts with a delimiter line, and is not the closing one. */
  lemma BodyUnfolds(boundary: Bytes, contentType: Bytes, content: Bytes, ranges: seq<Range>)
    requires ranges != [] && InFile(ranges, |content|)
    ensures var line := "--" + boundary + "\r\n";
            var body := MultipartBody(boundary, contentType, content, ranges);
            && line <= body && body != "--" + boundary + "--\r\n"
            && body[|line|..] == PartHeader(contentType, ranges[0], |content|)
                                 + (Slice(content, ranges[0]) + "\r\n" + MultipartBody(boundary, contentType, content, ranges[1..]))
  {
    hide Parts, PartHeader, Slice;
    PartsCons(boundary, contentType, content, ranges);
    var line := "--" + boundary + "\r\n";
    var body := MultipartBody(boundary, contentType, content, ranges);
    var after := PartHeader(contentType, ranges[0], |content|)
                 + (Slice(content, ranges[0]) + "\r\n" + MultipartBody(boundary, contentType, content, ranges[1..]));
    assert body == line + after;
    assert body[|boundary| + 2] == '\r';
  }

  /** A multipart body is read as one part for each range, in order, and nothing else. */
  lemma {:induction false} BodyIsRead(boundary: Bytes, contentType: Bytes, content: Bytes, ranges: seq<Range>)
    requires IsFieldValue(contentType) && InFile(ranges, |content|) && |content| <= INT_MAX
    ensures ReadParts(MultipartBody(boundary, contentType, content, ranges), boundary) == Some(PartsOf(contentType, content, ranges))
    decreases |ranges|
  {
    hide IsFieldValue, ReadPart, PartHeader, Slice, Part;
    var body := MultipartBody(boundary, contentType, content, ranges);
    if ranges == [] {
      assert body == "--" + boundary + "--\r\n";
    } else {
      var more := MultipartBody(boundary, contentType, content, ranges[1..]);
      BodyUnfolds(boundary, contentType, content, ranges);
      PartIsRead(contentType, content, ranges[0], more);
      BodyIsRead(boundary, contentType, content, ranges[1..]);
      assert PartsOf(contentType, content, ranges) == [PartOf(contentType, content, ranges[0])] + PartsOf(contentType, content, ranges[1..]);
    }
  }

  // ----- whole responses -----

  /** The status line, the headers and the body. */
  function ReadResponse(text: Bytes): Option<(Bytes, Headers, Bytes)> {
    var end := IndexOf(text, "\r\n\r\n", 0);
    if end < 0 || Lines(text[..end]) == [] then None
    else
      var lines := Lines(text[..end]);
      Some((lines[0], ParseHeaderLines(lines[1..], map[]), text[end + 4..]))
  }

  /** Header lines, each with its line end. */
  function AdditionalText(fields: seq<Field>): Bytes {
    if fields == [] then "" else FieldText(fields[0]) + "\r\n" + AdditionalText(fields[1..])
  }

  lemma {:induction false} LinesTextIs(line: Bytes, fields: seq<Field>)
    ensures LinesText(line, fields) + "\r\n" == line + "\r\n" + AdditionalText(fields)
    decreases |fields|
  {
    hide FieldText;
    if fields != [] {
      LinesTextIs(FieldText(fields[0]), fields[1..]);
    }
  }

  lemma {:induction false} AdditionalAppend(a: seq<Field>, b: seq<Field>)
    ensures AdditionalText(a + b) == AdditionalText(a) + AdditionalText(b)
    decreases |a|
  {
    hide FieldText;
    if a == [] {
      assert a + b == b;
    } else {
      assert (a + b)[1..] == a[1..] + b;
      AdditionalAppend(a[1..], b);
    }
  }

  /** A status line and header lines are read, and the body is left. */
  lemma ResponseHeadIsRead(status: Bytes, fields: seq<Field>, body: Bytes)
    requires status != "" && IsLineText(status)
    requires fields != [] && forall i :: 0 <= i < |fields| ==> WfField(fields[i])
    ensures ReadResponse(status + "\r\n" + AdditionalText(fields) + "\r\n" + body) == Some((status + "\r\n", Bound(fields, map[]), body))
  {
    hide WfField, FieldText, IndexOf, Lines, ParseHeaderLines, Bound, AdditionalText, IsLineText;
    var head := LinesText(status, fields);
    var text := head + "\r\n\r\n" + body;
    LinesTextIs(status, fields);
    TwoLineEnds(status, AdditionalText(fields), head, body);
    BlankLineAt(status, fields, body);
    LinesAreRead(status, fields);
    FieldsAreBound(fields, map[]);
    assert ReadLines(status, fields) == [status + "\r\n"] + ReadLines(FieldText(fields[0]), fields[1..]);
    assert ReadLines(status, fields)[1..] == ReadLines(FieldText(fields[0]), fields[1..]);
    assert text[..|head|] == head && text[|head| + 4..] == body;
  }

  lemma TwoLineEnds(status: Bytes, lines: Bytes, head: Bytes, body: Bytes)
    requires head + "\r\n" == status + "\r\n" + lines
    ensures head + "\r\n\r\n" + body == status + "\r\n" + lines + "\r\n" + body
  {
    assert head + "\r\n\r\n" + body == (head + "\r\n") + "\r\n" + body;
  }

  /** The headers that a response adds to those of the application. */
  function OwnFields(contentType: Bytes, length: nat, range: Option<Bytes>): seq<Field> {
    [Field("Accept-Ranges", " ", "bytes", ""), Field("Content-Type", " ", contentType, ""), Field("Content-Length", " ", Number(length), "")]
    + if range.Some? then [Field("Content-Range", " ", range.value, "")] else []
  }

  /** The application's own headers leave the ones of the response alone. */
  predicate Harmless(additional: seq<Field>) {
    && (forall i :: 0 <= i < |additional| ==> WfField(additional[i]))
    && Unnamed(additional, "content-type") && Unnamed(additional, "content-length") && Unnamed(additional, "content-range")
  }

  /** One header line as it is written. */
  function LineOf(name: Bytes, value: Bytes): Bytes {
    name + ": " + value + "\r\n"
  }

  lemma OneLine(name: Bytes, value: Bytes)
    ensures AdditionalText([Field(name, " ", value, "")]) == LineOf(name, value)
  {
    var f := Field(name, " ", value, "");
    assert [f][1..] == [] && AdditionalText([]) == "";
    assert FieldText(f) == name + ": " + value;
  }

  lemma OwnText(contentType: Bytes, length: nat, range: Option<Bytes>)
    ensures AdditionalText(OwnFields(contentType, length, range))
         == LineOf("Accept-Ranges", "bytes") + LineOf("Content-Type", contentType) + LineOf("Content-Length", Number(length))
            + if range.Some? then LineOf("Content-Range", range.value) else ""
  {
    hide Number, LineOf, AdditionalText;
    var a, b, c := Field("Accept-Ranges", " ", "bytes", ""), Field("Content-Type", " ", contentType, ""), Field("Content-Length", " ", Number(length), "");
    OneLine("Accept-Ranges", "bytes");
    OneLine("Content-Type", contentType);
    OneLine("Content-Length", Number(length));
    AdditionalAppend([a], [b]);
    AdditionalAppend([a] + [b], [c]);
    assert [a] + [b] + [c] == [a, b, c];
    if range.Some? {
      OneLine("Content-Range", range.value);
      AdditionalAppend([a, b, c], [Field("Content-Range", " ", range.value, "")]);
    } else {
      assert [a, b, c] + [] == [a, b, c];
    }
  }

  lemma LineIsWellFormed(name: Bytes, value: Bytes)
    requires IsLineText(name) && ':' !in name && IsFieldValue(value)
    ensures WfField(Field(name, " ", value, ""))
  {
  }

  lemma NumberIsValue(n: nat)
    ensures IsFieldValue(Number(n))
  {
    var digits := Number(n);
    assert digits[0] in digits && digits[|digits| - 1] in digits;
  }

  lemma AcceptRangesIsName()
    ensures IsLineText("Accept-Ranges") && ':' !in "Accept-Ranges" && IsFieldValue("bytes")
  {
  }

  lemma ContentTypeIsName()
    ensures IsLineText("Content-Type") && ':' !in "Content-Type"
  {
  }

  lemma ContentLengthIsName()
    ensures IsLineText("Content-Length") && ':' !in "Content-Length"
  {
  }

  lemma ContentRangeIsName()
    ensures IsLineText("Content-Range") && ':' !in "Content-Range"
  {
  }

  lemma OwnFieldsAreWellFormed(contentType: Bytes, length: nat, range: Option<Bytes>)
    requires IsFieldValue(contentType) && (range.Some? ==> IsFieldValue(range.value))
    ensures forall i :: 0 <= i < |OwnFields(contentType, length, range)| ==> WfField(OwnFields(contentType, length, range)[i])
  {
    hide Number, WfField, IsFieldValue, IsLineText;
    NumberIsValue(length);
    AcceptRangesIsName();
    ContentTypeIsName();
    ContentLengthIsName();
    ContentRangeIsName();
    LineIsWellFormed("Accept-Ranges", "bytes");
    LineIsWellFormed("Content-Type", contentType);
    LineIsWellFormed("Content-Length", Number(length));
    if range.Some? {
      LineIsWellFormed("Content-Range", range.value);
    }
  }

  /** The response's own headers are found, whatever the application adds. */
  lemma OwnFieldsAreFound(contentType: Bytes, length: nat, range: Option<Bytes>, additional: seq<Field>)
    requires Harmless(additional)
    ensures var headers := Bound(OwnFields(contentType, length, range) + additional, map[]);
            && Header(headers, "content-type") == contentType && Header(headers, "content-length") == Number(length)
            && (range.Some? ==> Header(headers, "content-range") == range.value)
  {
    hide Number, Bound, WfField, SameName;
    var fields := OwnFields(contentType, length, range) + additional;
    Names();
    assert forall j :: |OwnFields(contentType, length, range)| <= j < |fields| ==> fields[j] == additional[j - |OwnFields(contentType, length, range)|];
    assert LastNamed(fields, 1, "content-type") && LastNamed(fields, 2, "content-length");
    BoundLast(fields, map[], 1, "content-type");
    BoundLast(fields, map[], 2, "content-length");
    if range.Some? {
      assert LastNamed(fields, 3, "content-range");
      BoundLast(fields, map[], 3, "content-range");
    }
  }

  lemma Names()
    ensures SameName("Content-Type", "content-type") && SameName("Content-Length", "content-length") && SameName("Content-Range", "content-range")
    ensures !SameName("Content-Length", "content-type") && !SameName("Content-Range", "content-type") && !SameName("Content-Range", "content-length")
  {
    assert "Content-Range"[8] == 'R' && "content-length"[8] == 'l';
  }

  /** What the client makes of a response: the answer to one range, or to several. */
  lemma SingleIsRead(contentType: Bytes, content: Bytes, r: Range, additional: seq<Field>)
    requires IsFieldValue(contentType) && Harmless(additional) && 0 <= r.first <= r.last < |content| <= INT_MAX
    ensures var read := ReadResponse(SingleHeaders(contentType, r, |content|, AdditionalText(additional)) + Slice(content, r));
            && read.Some? && read.value.0 == "HTTP/1.1 206 Partial Content\r\n" && read.value.2 == content[r.first..r.last + 1]
            && Header(read.value.1, "content-type") == contentType
            && ToInt(Header(read.value.1, "content-length"), 10) == Some(|read.value.2|)
            && ReadContentRange(Header(read.value.1, "content-range")) == Some((r.first, r.last, |content| as int))
  {
    hide ReadContentRange, ContentRangeText, WfField, Bound, IsFieldValue, Header, AdditionalText, ReadResponse, Harmless, Number, OwnFields, ToInt;
    StatusLines();
    var value, n := ContentRangeText(r, |content|), r.last - r.first + 1;
    var own := OwnFields(contentType, n, Some(value));
    var fields := own + additional;
    ContentRangeIsValue(r, |content|);
    ContentRangeIsRead(r, |content|);
    OwnFieldsAreWellFormed(contentType, n, Some(value));
    OwnFieldsAreFound(contentType, n, Some(value), additional);
    OwnText(contentType, n, Some(value));
    AdditionalAppend(own, additional);
    AllWellFormed(contentType, n, Some(value), additional);
    ResponseHeadIsRead("HTTP/1.1 206 Partial Content", fields, Slice(content, r));
    NumberRoundTrip(n);
    SingleText(contentType, r, |content|, AdditionalText(additional));
  }

  lemma AllWellFormed(contentType: Bytes, length: nat, range: Option<Bytes>, additional: seq<Field>)
    requires Harmless(additional) && IsFieldValue(contentType) && (range.Some? ==> IsFieldValue(range.value))
    ensures var fields := OwnFields(contentType, length, range) + additional;
            fields != [] && forall i :: 0 <= i < |fields| ==> WfField(fields[i])
  {
    hide WfField, IsFieldValue, Number;
    OwnFieldsAreWellFormed(contentType, length, range);
  }

  lemma StatusLines()
    ensures "HTTP/1.1 206 Partial Content" + "\r\n" == "HTTP/1.1 206 Partial Content\r\n"
    ensures IsLineText("HTTP/1.1 206 Partial Content")
  {
  }

  lemma AcceptLine()
    ensures "Accept-Ranges: bytes\r\n" == LineOf("Accept-Ranges", "bytes")
  {
    assert "Accept-Ranges" + ": " == "Accept-Ranges: ";
    assert "bytes" + "\r\n" == "bytes\r\n";
  }

  lemma TypeLabel()
    ensures "Content-Type: " == "Content-Type" + ": "
  {
  }

  lemma LengthLabel()
    ensures "Content-Length: " == "Content-Length" + ": "
  {
  }

  lemma RangeLabel()
    ensures "Content-Range: bytes " == "Content-Range" + ": " + "bytes "
  {
  }

  lemma MultipartLabel()
    ensures "Content-Type: multipart/byteranges; boundary=" == "Content-Type: " + "multipart/byteranges; boundary="
  {
  }

  lemma LineIs(name: Bytes, lead: Bytes, value: Bytes)
    requires lead == name + ": "
    ensures LineOf(name, value) == lead + value + "\r\n"
  {
  }

  /** Where the lines of a header block are cut does not matter. */
  lemma FourLines(status: Bytes, ranges: Bytes, t: Bytes, typ: Bytes, l: Bytes, length: Bytes, r: Bytes, range: Bytes, additional: Bytes, end: Bytes)
    ensures status + ranges + t + typ + end + l + length + end + r + range + end + additional + end
         == status + ((ranges + (t + typ + end) + (l + length + end) + (r + range + end)) + additional) + end
  {
    var a, b, c := t + typ + end, l + length + end, r + range + end;
    assert status + ranges + t + typ + end == status + ranges + a;
    assert status + ranges + a + l + length + end == status + ranges + a + b;
    assert status + ranges + a + b + r + range + end == status + ranges + a + b + c;
  }

  lemma SingleText(contentType: Bytes, r: Range, total: nat, additional: Bytes)
    requires 0 <= r.first <= r.last
    ensures SingleHeaders(contentType, r, total, additional)
         == "HTTP/1.1 206 Partial Content" + "\r\n"
            + (AdditionalText(OwnFields(contentType, r.last - r.first + 1, Some(ContentRangeText(r, total)))) + additional) + "\r\n"
  {
    hide Number, AdditionalText, OwnFields, LineOf;
    var length, range := Number(r.last - r.first + 1), ContentRange(r, total);
    OwnText(contentType, r.last - r.first + 1, Some(ContentRangeText(r, total)));
    StatusLines();
    AcceptLine();
    TypeLabel();
    LengthLabel();
    RangeLine(r, total);
    LineIs("Content-Type", "Content-Type: ", contentType);
    LineIs("Content-Length", "Content-Length: ", length);
    FourLines("HTTP/1.1 206 Partial Content\r\n", "Accept-Ranges: bytes\r\n", "Content-Type: ", contentType, "Content-Length: ", length,
              "Content-Range: bytes ", range, additional, "\r\n");
  }

  lemma RangeLine(r: Range, total: nat)
    requires 0 <= r.first <= r.last
    ensures LineOf("Content-Range", ContentRangeText(r, total)) == "Content-Range: bytes " + ContentRange(r, total) + "\r\n"
  {
    hide Number;
    RangeLabel();
    RangeLineIs("Content-Range", "bytes ", "Content-Range: bytes ", ContentRangeText(r, total), r, total);
  }

  lemma RangeLineIs(name: Bytes, unit: Bytes, lead: Bytes, text: Bytes, r: Range, total: nat)
    requires 0 <= r.first <= r.last && lead == name + ": " + unit && text == unit + Number(r.first) + "-" + Number(r.last) + "/" + Number(total)
    ensures LineOf(name, text) == lead + ContentRange(r, total) + "\r\n"
  {
    hide Number;
    assert text == unit + ContentRange(r, total);
  }

  lemma MultipartText(boundary: Bytes, length: nat, additional: Bytes)
    ensures MultipartHeaders(boundary, length, additional)
         == "HTTP/1.1 206 Partial Content" + "\r\n"
            + (AdditionalText(OwnFields("multipart/byteranges; boundary=" + boundary, length, None)) + additional) + "\r\n"
  {
    hide Number, AdditionalText, OwnFields, LineOf;
    var typ := "multipart/byteranges; boundary=" + boundary;
    OwnText(typ, length, None);
    StatusLines();
    AcceptLine();
    TypeLabel();
    LengthLabel();
    MultipartLabel();
    LineIs("Content-Type", "Content-Type: ", typ);
    LineIs("Content-Length", "Content-Length: ", Number(length));
    ThreeLines("HTTP/1.1 206 Partial Content\r\n", "Accept-Ranges: bytes\r\n", "Content-Type: ", "multipart/byteranges; boundary=", boundary,
               "Content-Length: ", Number(length), additional, "\r\n");
  }

  lemma ThreeLines(status: Bytes, ranges: Bytes, t: Bytes, typ: Bytes, boundary: Bytes, l: Bytes, length: Bytes, additional: Bytes, end: Bytes)
    ensures status + ranges + (t + typ) + boundary + end + l + length + end + additional + end
         == status + ((ranges + (t + (typ + boundary) + end) + (l + length + end) + "") + additional) + end
  {
    var a, b := t + (typ + boundary) + end, l + length + end;
    assert status + ranges + (t + typ) + boundary + end == status + ranges + a;
    assert status + ranges + a + l + length + end == status + ranges + a + b;
  }

  lemma MultipartIsRead(boundary: Bytes, contentType: Bytes, content: Bytes, ranges: seq<Range>, additional: seq<Field>)
    requires IsFieldValue(contentType) && IsFieldValue("multipart/byteranges; boundary=" + boundary) && Harmless(additional)
    requires InFile(ranges, |content|) && |content| <= INT_MAX
    requires |MultipartBody(boundary, contentType, content, ranges)| <= INT_MAX
    ensures var body := MultipartBody(boundary, contentType, content, ranges);
            var read := ReadResponse(MultipartHeaders(boundary, |body|, AdditionalText(additional)) + body);
            && read.Some? && read.value.0 == "HTTP/1.1 206 Partial Content\r\n" && read.value.2 == body
            && Header(read.value.1, "content-type") == "multipart/byteranges; boundary=" + boundary
            && ToInt(Header(read.value.1, "content-length"), 10) == Some(|read.value.2|)
            && ReadParts(read.value.2, boundary) == Some(PartsOf(contentType, content, ranges))
  {
    hide WfField, Bound, IsFieldValue, Header, AdditionalText, ReadResponse, Harmless, Number, OwnFields, ToInt, ReadParts, MultipartBody;
    StatusLines();
    var body, typ := MultipartBody(boundary, contentType, content, ranges), "multipart/byteranges; boundary=" + boundary;
    var fields := OwnFields(typ, |body|, None) + additional;
    OwnFieldsAreFound(typ, |body|, None, additional);
    AdditionalAppend(OwnFields(typ, |body|, None), additional);
    AllWellFormed(typ, |body|, None, additional);
    ResponseHeadIsRead("HTTP/1.1 206 Partial Content", fields, body);
    NumberRoundTrip(|body|);
    MultipartText(boundary, |body|, AdditionalText(additional));
    BodyIsRead(boundary, contentType, content, ranges);
  }

  /**
   What a client reads from the response to any ranges of a file: status 206, a Content-Length that is the length of the
   body, and the requested bytes with their places in the file, one range as the body and several as parts in order.
   */
  lemma ResponseIsRead(boundary: Bytes, contentType: Bytes, content: Bytes, ranges: seq<Range>, additional: seq<Field>)
    requires ranges != [] && InFile(ranges, |content|) && |content| <= INT_MAX && Harmless(additional)
    requires IsFieldValue(contentType) && IsFieldValue("multipart/byteranges; boundary=" + boundary)
    requires |MultipartBody(boundary, contentType, content, ranges)| <= INT_MAX
    ensures var read := ReadResponse(Response(boundary, contentType, content, ranges, AdditionalText(additional)));
            && read.Some? && read.value.0 == "HTTP/1.1 206 Partial Content\r\n"
            && ToInt(Header(read.value.1, "content-length"), 10) == Some(|read.value.2|)
            && if |ranges| == 1 then
                 && read.value.2 == content[ranges[0].first..ranges[0].last + 1] && Header(read.value.1, "content-type") == contentType
                 && ReadContentRange(Header(read.value.1, "content-range")) == Some((ranges[0].first, ranges[0].last, |content| as int))
               else
                 && Header(read.value.1, "content-type") == "multipart/byteranges; boundary=" + boundary
                 && ReadParts(read.value.2, boundary) == Some(PartsOf(contentType, content, ranges))
  {
    hide ReadResponse, ReadParts, ReadContentRange, ToInt, Header, Harmless, IsFieldValue, MultipartHeaders, SingleHeaders, MultipartBody, AdditionalText;
    if |ranges| == 1 {
      SingleIsRead(contentType, content, ranges[0], additional);
    } else {
      MultipartIsRead(boundary, contentType, content, ranges, additional);
    }
  }
}
