/**
 writeFileRanges: the 206 response. The Content-Length is computed before anything is written;
 it has to equal the number of body bytes that follow the headers. Section 4.1 of RFC 7233.
 */
module RangeWriter {
  import opened ByteRanges
  import opened ServerSocket
  import opened Text
  import opened Wrappers

  const BLOCK_SIZE: nat := 4096

  /** A random-access QIODevice. */
  class Device {
    const content: Bytes
    var pos: nat

    constructor (content: Bytes)
      ensures this.content == content && pos == 0
    {
      this.content := content;
      pos := 0;
    }

    method Seek(p: nat)
      modifies this
      ensures pos == p
    {
      pos := p;
    }

    function AtEnd(): bool
      reads this
    {
      pos >= |content|
    }

    /** At most `max` bytes from the current position. */
    method Read(max: nat) returns (block: Bytes)
      requires pos <= |content|
      modifies this
      ensures old(pos) <= pos <= |content| && block == content[old(pos)..pos]
      ensures pos == Min(old(pos) + max, |content|)
    {
      var end := Min(pos + max, |content|);
      block := content[pos..end];
      pos := end;
    }
  }

  function Slice(content: Bytes, r: Range): Bytes
    requires 0 <= r.first <= r.last < |content|
  {
    content[r.first..r.last + 1]
  }

  predicate InFile(ranges: seq<Range>, fileSize: nat) {
    forall r :: r in ranges ==> 0 <= r.first <= r.last < fileSize
  }

  function ContentRange(r: Range, fileSize: nat): Bytes
    requires 0 <= r.first <= r.last
  {
    Number(r.first) + "-" + Number(r.last) + "/" + Number(fileSize)
  }

  function PartHeader(contentType: Bytes, r: Range, fileSize: nat): Bytes
    requires 0 <= r.first <= r.last
  {
    "Content-Type: " + contentType + "\r\n" + "Content-Range: bytes " + ContentRange(r, fileSize) + "\r\n" + "\r\n"
  }

  function Delimiter(boundary: Bytes): Bytes {
    "--" + boundary
  }

  /** One body part, from its delimiter to the line break before the next one. */
  function Part(boundary: Bytes, contentType: Bytes, content: Bytes, r: Range): Bytes
    requires 0 <= r.first <= r.last < |content|
  {
    Delimiter(boundary) + CRLF + PartHeader(contentType, r, |content|) + Slice(content, r) + CRLF
  }

  function Parts(boundary: Bytes, contentType: Bytes, content: Bytes, ranges: seq<Range>): Bytes
    requires InFile(ranges, |content|)
  {
    if ranges == [] then ""
    else
      var n := |ranges| - 1;
      Parts(boundary, contentType, content, ranges[..n]) + Part(boundary, contentType, content, ranges[n])
  }

  /** A multipart/byteranges body: the parts in order, then the closing delimiter. */
  function MultipartBody(boundary: Bytes, contentType: Bytes, content: Bytes, ranges: seq<Range>): Bytes
    requires InFile(ranges, |content|)
  {
    Parts(boundary, contentType, content, ranges) + Delimiter(boundary) + "--" + CRLF
  }

  function SingleHeaders(contentType: Bytes, r: Range, fileSize: nat, additional: Bytes): Bytes
    requires 0 <= r.first <= r.last
  {
    "HTTP/1.1 206 Partial Content\r\n" + "Accept-Ranges: bytes\r\n" +
    "Content-Type: " + contentType + "\r\n" +
    "Content-Length: " + Number(r.last - r.first + 1) + "\r\n" +
    "Content-Range: bytes " + ContentRange(r, fileSize) + "\r\n" + additional + "\r\n"
  }

  function MultipartHeaders(boundary: Bytes, length: nat, additional: Bytes): Bytes {
    "HTTP/1.1 206 Partial Content\r\n" + "Accept-Ranges: bytes\r\n" +
    "Content-Type: multipart/byteranges; boundary=" + boundary + "\r\n" +
    "Content-Length: " + Number(length) + "\r\n" + additional + "\r\n"
  }

  /** The whole response: headers whose Content-Length is the length of what follows, then the body. */
  function Response(boundary: Bytes, contentType: Bytes, content: Bytes, ranges: seq<Range>, additional: Bytes): Bytes
    requires ranges != [] && InFile(ranges, |content|)
  {
    if |ranges| == 1 then
      SingleHeaders(contentType, ranges[0], |content|, additional) + Slice(content, ranges[0])
    else
      var body := MultipartBody(boundary, contentType, content, ranges);
      MultipartHeaders(boundary, |body|, additional) + body
  }

  /** The length loop: it never looks at the bytes it counts. */
  method PrecomputeLength(boundary: Bytes, contentType: Bytes, content: Bytes, ranges: seq<Range>) returns (length: int)
    requires |ranges| >= 2 && InFile(ranges, |content|)
    ensures length == |MultipartBody(boundary, contentType, content, ranges)|
  {
    hide Number;
    var headerStart := "Content-Type: " + contentType + "\r\nContent-Range: bytes ";
    var headerEnd := "/" + Number(|content|) + "\r\n\r\n";
    length := 0;
    var boundaryPrefixLen := 2 + |boundary|;
    length := length + boundaryPrefixLen + 2;
    var i := 0;
    while i < |ranges|
      invariant 0 <= i <= |ranges|
      invariant length == |Parts(boundary, contentType, content, ranges[..i])| + if i < |ranges| then boundaryPrefixLen + 2 else -2
    {
      var range := ranges[i];
      assert ranges[..i + 1][..i] == ranges[..i];
      length := length + |headerStart|;
      length := length + |Number(range.first)| + 1 + |Number(range.last)|;
      length := length + |headerEnd|;
      length := length + (range.last - range.first + 1);
      if i != |ranges| - 1 {
        length := length + 2 + boundaryPrefixLen + 2;
      }
      i := i + 1;
    }
    assert ranges[..|ranges|] == ranges;
    length := length + 2 + boundaryPrefixLen + 4;
  }

  /** Writing one part: the text written and the text pending stay what they should be. */
  lemma PartStep(out: Bytes, pending: Bytes, start: Bytes, parts: Bytes, delimiter: Bytes, header: Bytes, slice: Bytes)
    requires out + pending == start + parts + delimiter
    ensures out + (pending + CRLF + header) + slice + (CRLF + delimiter)
         == start + (parts + (delimiter + CRLF + header + slice + CRLF)) + delimiter
  {
    assert out + (pending + CRLF + header) + slice + (CRLF + delimiter)
        == (out + pending) + (CRLF + header + slice + CRLF + delimiter);
    assert (start + parts + delimiter) + (CRLF + header + slice + CRLF + delimiter)
        == start + (parts + (delimiter + CRLF + header + slice + CRLF)) + delimiter;
  }

  /** The socket's output side. */
  class RangeWriter {
    var out: Bytes

    constructor ()
      ensures out == ""
    {
      out := "";
    }

    method Write(data: Bytes)
      modifies this
      ensures out == old(out) + data
    {
      out := out + data;
    }

    static lemma SliceGrows(content: Bytes, from: nat, mid: nat, to: nat)
      requires from <= mid <= to <= |content|
      ensures content[from..mid] + content[mid..to] == content[from..to]
    {
    }

    /** Copy one range in blocks. */
    method WriteRange(device: Device, range: Range)
      requires 0 <= range.first <= range.last < |device.content|
      modifies this, device
      ensures out == old(out) + Slice(device.content, range)
    {
      device.Seek(range.first);
      var totalRead, toRead := 0, range.last - range.first + 1;
      while !device.AtEnd() && toRead > totalRead
        invariant 0 <= totalRead <= toRead
        invariant device.pos == range.first + totalRead
        invariant out == old(out) + device.content[range.first..range.first + totalRead]
        decreases toRead - totalRead
      {
        var block := device.Read(Min(toRead - totalRead, BLOCK_SIZE));
        if |block| <= 0 {
          break;
        }
        var before := totalRead;
        totalRead := totalRead + |block|;
        Write(block);
        SliceGrows(device.content, range.first, range.first + before, range.first + totalRead);
      }
    }

    method WriteFileRanges(device: Device, ranges: seq<Range>, contentType: Bytes, boundary: Bytes, additional: Bytes)
      requires ranges != [] && InFile(ranges, |device.content|)
      modifies this, device
      ensures out == old(out) + Response(boundary, contentType, device.content, ranges, additional)
    {
      hide SingleHeaders, MultipartHeaders, MultipartBody, Slice;
      if |ranges| == 1 {
        Write(SingleHeaders(contentType, ranges[0], |device.content|, additional));
        WriteRange(device, ranges[0]);
      } else {
        var length := PrecomputeLength(boundary, contentType, device.content, ranges);
        WriteParts(device, ranges, contentType, boundary, MultipartHeaders(boundary, length, additional));
      }
    }

    /** The parts, each preceded by what is left to write from before it. */
    method WriteParts(device: Device, ranges: seq<Range>, contentType: Bytes, boundary: Bytes, responseHeaders: Bytes)
      requires InFile(ranges, |device.content|)
      modifies this, device
      ensures out == old(out) + responseHeaders + MultipartBody(boundary, contentType, device.content, ranges)
    {
      hide Number, PartHeader, Slice;
      ghost var start := out + responseHeaders;
      var headers := responseHeaders + "--" + boundary;
      var i := 0;
      while i < |ranges|
        invariant 0 <= i <= |ranges|
        invariant out + headers == start + Parts(boundary, contentType, device.content, ranges[..i]) + Delimiter(boundary)
      {
        var range := ranges[i];
        assert ranges[..i + 1][..i] == ranges[..i];
        PartStep(out, headers, start, Parts(boundary, contentType, device.content, ranges[..i]), Delimiter(boundary),
                 PartHeader(contentType, range, |device.content|), Slice(device.content, range));
        headers := headers + "\r\n" + PartHeader(contentType, range, |device.content|);
        Write(headers);
        headers := "";
        WriteRange(device, range);
        headers := "\r\n" + ("--" + boundary);
        i := i + 1;
      }
      assert ranges[..|ranges|] == ranges;
      ghost var parts := Parts(boundary, contentType, device.content, ranges);
      assert start + parts + Delimiter(boundary) + "--\r\n" == start + (parts + Delimiter(boundary) + "--" + CRLF);
      headers := headers + "--\r\n";
      Write(headers);
    }
  }

  // ----- the length stays small -----

  /** What the parts cost besides the file's own bytes. */
  function Overhead(boundary: Bytes, contentType: Bytes, fileSize: nat, ranges: seq<Range>): nat
    requires InFile(ranges, fileSize)
  {
    if ranges == [] then |Delimiter(boundary)| + 4
    else
      var n := |ranges| - 1;
      Overhead(boundary, contentType, fileSize, ranges[..n])
      + |Delimiter(boundary)| + 4 + |PartHeader(contentType, ranges[n], fileSize)|
  }

  /** Ranges in normal form do not overlap, so the payload of all parts together fits in the file. */
  lemma {:induction false} LengthBound(boundary: Bytes, contentType: Bytes, content: Bytes, ranges: seq<Range>)
    requires Normal(ranges, |content|)
    ensures var used := if ranges == [] then 0 else ranges[|ranges| - 1].last + 1;
            |MultipartBody(boundary, contentType, content, ranges)| <= used + Overhead(boundary, contentType, |content|, ranges)
            && used <= |content|
  {
    hide PartHeader;
    if ranges != [] {
      var n := |ranges| - 1;
      LengthBound(boundary, contentType, content, ranges[..n]);
      assert n > 0 ==> ranges[n - 1].last < ranges[n].first;
      assert ranges[n] in ranges;
    }
  }

  /**
   No 32-bit overflow in the length whenever the file and the part headers fit 32 bits together; the number written as
   Content-Length then reads back as the length of the body.
   */
  lemma LengthFitsInt(boundary: Bytes, contentType: Bytes, content: Bytes, ranges: seq<Range>)
    requires Normal(ranges, |content|)
    requires |content| + Overhead(boundary, contentType, |content|, ranges) <= INT_MAX
    ensures var length := |MultipartBody(boundary, contentType, content, ranges)|;
            length <= INT_MAX && ToInt(Number(length), 10) == Some(length)
  {
    hide PartHeader, ToInt, Number;
    LengthBound(boundary, contentType, content, ranges);
    NumberRoundTrip(|MultipartBody(boundary, contentType, content, ranges)|);
  }

  /** The payload of part `i` is exactly the requested slice of the file. */
  lemma {:induction false} PartCarriesSlice(boundary: Bytes, contentType: Bytes, content: Bytes, ranges: seq<Range>, i: nat)
    requires InFile(ranges, |content|) && i < |ranges|
    ensures var at := |Parts(boundary, contentType, content, ranges[..i])| + |Delimiter(boundary)| + 2
                      + |PartHeader(contentType, ranges[i], |content|)|;
            var body := MultipartBody(boundary, contentType, content, ranges);
            at + |Slice(content, ranges[i])| <= |body| && body[at..at + |Slice(content, ranges[i])|] == Slice(content, ranges[i])
  {
    hide PartHeader;
    var before := Parts(boundary, contentType, content, ranges[..i]);
    var part := Part(boundary, contentType, content, ranges[i]);
    PartsPrefix(boundary, contentType, content, ranges, i);
    var body := MultipartBody(boundary, contentType, content, ranges);
    var at := |Delimiter(boundary)| + 2 + |PartHeader(contentType, ranges[i], |content|)|;
    var n := |Slice(content, ranges[i])|;
    assert part[at..at + n] == Slice(content, ranges[i]);
    assert body[|before|..|before| + |part|] == part;
    assert body[|before| + at..|before| + at + n] == part[at..at + n];
  }

  lemma {:induction false} PartsPrefix(boundary: Bytes, contentType: Bytes, content: Bytes, ranges: seq<Range>, i: nat)
    requires InFile(ranges, |content|) && i < |ranges|
    ensures Parts(boundary, contentType, content, ranges[..i]) + Part(boundary, contentType, content, ranges[i])
         <= Parts(boundary, contentType, content, ranges)
    decreases |ranges|
  {
    hide Part;
    var n := |ranges| - 1;
    if i < n {
      var front := ranges[..n];
      PartsPrefix(boundary, contentType, content, front, i);
      assert front[..i] == ranges[..i];
    }
  }
}
