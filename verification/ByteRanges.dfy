/**
 determineFileRanges: which byte ranges of a file a Range header asks for, sorted and coalesced in place.
 Sections 2.1 and 4.1 of RFC 7233.
 */
module ByteRanges {
  import opened ServerSocket
  import opened Text
  import opened Wrappers

  /** The longest gap, in bytes, that is filled in rather than sent as two parts. */
  const MULTIPART_OVERHEAD := 86
  const MAX_SPECS := 5

  datatype Range = Range(first: int, last: int)

  datatype FileRange = InvalidRange | FullFile | ValidRanges(ranges: seq<Range>)

  /** A byte-range-spec; an end that is not written is -1. */
  datatype Spec = Spec(start: int, end: int)

  function Max(a: int, b: int): int {
    if a < b then b else a
  }

  function Min(a: int, b: int): int {
    if a < b then a else b
  }

  // ----- reading the header -----

  function ParseEnd(text: Bytes): Option<int> {
    if text == "" then Some(-1) else ToInt(text, 10)
  }

  /** One spec between commas; None when it is malformed. */
  function ParseSpec(text: Bytes): Option<Spec> {
    var parts := Split(Trimmed(text), '-');
    if |parts| != 2 then None
    else
      match (ParseEnd(parts[0]), ParseEnd(parts[1]))
      case (Some(start), Some(end)) => if start < 0 && end < 0 then None else Some(Spec(start, end))
      case _ => None
  }

  /** The range a spec selects in a file, if there is one. */
  function Resolve(spec: Spec, fileSize: int): Option<Range> {
    var start := if spec.start < 0 && spec.end >= 0 then Max(0, fileSize - spec.end) else spec.start;
    var end := if (spec.start < 0) != (spec.end < 0) then fileSize - 1 else spec.end;
    if start > end || start >= fileSize then None else Some(Range(start, Min(end, fileSize - 1)))
  }

  /** The selected ranges in header order; None when any spec is malformed. */
  function ResolveAll(specs: seq<Bytes>, fileSize: int): Option<seq<Range>> {
    if specs == [] then Some([])
    else
      match (ResolveAll(specs[..|specs| - 1], fileSize), ParseSpec(specs[|specs| - 1]))
      case (Some(ranges), Some(spec)) =>
        Some(ranges + match Resolve(spec, fileSize) case Some(r) => [r] case None => [])
      case _ => None
  }

  // ----- sorting and coalescing -----

  predicate Less(a: Range, b: Range) {
    a.first < b.first || (a.first == b.first && a.last < b.last)
  }

  function Insert(r: Range, sorted: seq<Range>): seq<Range> {
    if sorted == [] || !Less(sorted[0], r) then [r] + sorted else [sorted[0]] + Insert(r, sorted[1..])
  }

  /** std::sort on pairs. */
  function Sort(ranges: seq<Range>): seq<Range> {
    if ranges == [] then [] else Insert(ranges[0], Sort(ranges[1..]))
  }

  function Merge(a: Range, b: Range): Range {
    Range(a.first, Max(a.last, b.last))
  }

  predicate Mergeable(a: Range, b: Range) {
    b.first <= a.last + 1 + MULTIPART_OVERHEAD
  }

  function Coalesce(ranges: seq<Range>): seq<Range>
    decreases |ranges|
  {
    if |ranges| <= 1 then ranges
    else if Mergeable(ranges[0], ranges[1]) then Coalesce([Merge(ranges[0], ranges[1])] + ranges[2..])
    else [ranges[0]] + Coalesce(ranges[1..])
  }

  /** The sum of the gap test after a range fits an int. */
  predicate SumFits(r: Range) {
    r.last + 1 + MULTIPART_OVERHEAD <= INT_MAX
  }

  /** Every sum computed while coalescing fits an int. */
  predicate SumsFit(ranges: seq<Range>)
    decreases |ranges|
  {
    |ranges| <= 1 ||
    (SumFits(ranges[0])
     && if Mergeable(ranges[0], ranges[1]) then SumsFit([Merge(ranges[0], ranges[1])] + ranges[2..]) else SumsFit(ranges[1..]))
  }

  /** No gap test overflows for these specs. */
  predicate SpecsFit(specs: seq<Bytes>, fileSize: int) {
    ResolveAll(specs, fileSize).Some? ==> SumsFit(Sort(ResolveAll(specs, fileSize).value))
  }

  function RangesOfSpecs(specs: seq<Bytes>, fileSize: int): FileRange {
    match ResolveAll(specs, fileSize)
    case None => InvalidRange
    case Some(found) =>
      var ranges := Coalesce(Sort(found));
      if ranges == [] || |specs| > MAX_SPECS then InvalidRange
      else if |ranges| == 1 && ranges[0] == Range(0, fileSize - 1) then FullFile
      else ValidRanges(ranges)
  }

  predicate IsRangeChar(c: char) {
    '0' <= c <= '9' || c == '-' || c == ',' || c == ' ' || c == '\t'
  }

  predicate HeaderFits(header: Option<Bytes>, fileSize: int) {
    && header.Some?
    && "bytes=" <= Trimmed(header.value)
    && !(exists c | c in Trimmed(header.value)[6..] :: !IsRangeChar(c))
    ==> SpecsFit(Split(Trimmed(header.value)[6..], ','), fileSize)
  }

  function FileRangesOf(header: Option<Bytes>, fileSize: int): FileRange {
    match header
    case None => FullFile
    case Some(value) =>
      var trimmed := Trimmed(value);
      if !("bytes=" <= trimmed) || exists c | c in trimmed[6..] :: !IsRangeChar(c) then FullFile
      else RangesOfSpecs(Split(trimmed[6..], ','), fileSize)
  }

  method DetermineFileRanges(header: Option<Bytes>, fileSize: int) returns (r: FileRange)
    requires 0 <= fileSize <= INT_MAX && HeaderFits(header, fileSize)
    ensures r == FileRangesOf(header, fileSize)
  {
    hide ToInt, Trimmed, Split, Sort, Coalesce, Resolve, SumsFit;
    if header == None {
      return FullFile;
    }
    var trimmed := Trimmed(header.value);
    if !("bytes=" <= trimmed) || exists c | c in trimmed[6..] :: !IsRangeChar(c) {
      return FullFile;
    }
    var specs := Split(trimmed[6..], ',');
    var requested := CollectRanges(specs, fileSize);
    if |requested| > 1 {
      requested := SortAndCoalesce(requested);
    } else {
      FewNeedNoSorting(requested);
    }
    if requested == [] || |specs| > MAX_SPECS {
      return InvalidRange;
    }
    if |requested| == 1 && requested[0].first == 0 && requested[0].last == fileSize - 1 {
      return FullFile;
    }
    return ValidRanges(requested);
  }

  /** The loop over the specs: a malformed one clears what was found and stops. */
  method CollectRanges(specs: seq<Bytes>, fileSize: int) returns (requested: seq<Range>)
    ensures requested == ResolveAll(specs, fileSize).GetOr([])
  {
    hide ToInt, Trimmed, Split;
    requested := [];
    var i := 0;
    while i < |specs|
      invariant 0 <= i <= |specs|
      invariant ResolveAll(specs[..i], fileSize) == Some(requested)
    {
      assert specs[..i + 1][..i] == specs[..i];
      var spec := ParseSpec(specs[i]);
      if spec == None {
        ghost var bad := ResolveAll(specs[..i + 1], fileSize);
        assert bad == None;
        MalformedSpoilsAll(specs, i + 1, fileSize);
        return [];
      }
      var start, end := spec.value.start, spec.value.end;
      if start < 0 && end >= 0 {
        start := Max(0, fileSize - end);
        end := fileSize - 1;
      } else if start >= 0 && end < 0 {
        end := fileSize - 1;
      }
      if start <= end && start < fileSize {
        requested := requested + [Range(start, Min(end, fileSize - 1))];
      } else {
        assert requested + [] == requested;
      }
      i := i + 1;
    }
    assert specs[..|specs|] == specs;
  }

  lemma {:induction false} MalformedSpoilsAll(specs: seq<Bytes>, i: nat, fileSize: int)
    requires i <= |specs| && ResolveAll(specs[..i], fileSize) == None
    ensures ResolveAll(specs, fileSize) == None
    decreases |specs|
  {
    hide ParseSpec, Resolve;
    if i == |specs| {
      assert specs[..i] == specs;
    } else {
      var front := specs[..|specs| - 1];
      assert front[..i] == specs[..i];
      MalformedSpoilsAll(front, i, fileSize);
    }
  }

  lemma FewNeedNoSorting(ranges: seq<Range>)
    requires |ranges| <= 1
    ensures Coalesce(Sort(ranges)) == ranges
  {
  }

  /** Sort, then merge neighbours in place until every gap is too long to fill. */
  method SortAndCoalesce(found: seq<Range>) returns (ranges: seq<Range>)
    requires SumsFit(Sort(found))
    ensures ranges == Coalesce(Sort(found))
  {
    hide Sort;
    ranges := Sort(found);
    var i := 0;
    while i < |ranges| - 1
      invariant 0 <= i
      invariant ranges != [] ==> i < |ranges|
      invariant ranges == [] ==> i == 0
      invariant Coalesce(Sort(found)) == ranges[..i] + Coalesce(ranges[i..])
      invariant SumsFit(ranges[i..])
      decreases |ranges| - i
    {
      var current, next := ranges[i], ranges[i + 1];
      assert SumFits(current);
      if next.first <= current.last + 1 + MULTIPART_OVERHEAD {
        ghost var merged := [Merge(current, next)] + ranges[i + 2..];
        assert ranges[i..][2..] == ranges[i + 2..];
        ghost var before := ranges;
        ranges := ranges[..i] + [Range(current.first, Max(current.last, next.last))] + ranges[i + 2..];
        assert ranges[i..] == merged && ranges[..i] == before[..i];
      } else {
        assert ranges[i..][1..] == ranges[i + 1..];
        assert ranges[..i + 1] == ranges[..i] + [current];
        i := i + 1;
      }
    }
    assert |ranges[i..]| <= 1;
    assert ranges[..i] + ranges[i..] == ranges;
  }

  // ----- what a header asks for -----

  /** A byte of the file that a spec selects: section 2.1 of RFC 7233. */
  predicate Selects(spec: Spec, fileSize: int, b: int) {
    && 0 <= b < fileSize
    && if spec.start < 0 then b >= fileSize - spec.end
       else if spec.end < 0 then b >= spec.start
       else spec.start <= b <= spec.end
  }

  predicate Wanted(specs: seq<Bytes>, fileSize: int, b: int) {
    exists i :: 0 <= i < |specs| && ParseSpec(specs[i]).Some? && Selects(ParseSpec(specs[i]).value, fileSize, b)
  }

  predicate Holds(r: Range, b: int) {
    r.first <= b <= r.last
  }

  predicate Covers(ranges: seq<Range>, b: int) {
    exists r :: r in ranges && Holds(r, b)
  }

  /** Between two covered bytes with at most 86 bytes between them. */
  ghost predicate InShortGap(ranges: seq<Range>, b: int) {
    exists lo, hi :: Covers(ranges, lo) && Covers(ranges, hi) && lo < b < hi && hi - lo - 1 <= MULTIPART_OVERHEAD
  }

  ghost predicate Closure(ranges: seq<Range>, b: int) {
    Covers(ranges, b) || InShortGap(ranges, b)
  }

  predicate Ordered(ranges: seq<Range>) {
    && (forall r :: r in ranges ==> r.first <= r.last)
    && forall i, j :: 0 <= i < j < |ranges| ==> ranges[i].first <= ranges[j].first
  }

  /** The normal form: in the file, in order, and more than 86 bytes apart. */
  predicate Normal(ranges: seq<Range>, fileSize: int) {
    && (forall r :: r in ranges ==> 0 <= r.first <= r.last < fileSize)
    && forall i, j :: 0 <= i < j < |ranges| ==> ranges[i].last + 1 + MULTIPART_OVERHEAD < ranges[j].first
  }

  lemma ResolveIsSelected(spec: Spec, fileSize: int)
    requires !(spec.start < 0 && spec.end < 0)
    ensures match Resolve(spec, fileSize)
            case Some(r) => 0 <= r.first <= r.last < fileSize && forall b :: Holds(r, b) <==> Selects(spec, fileSize, b)
            case None => forall b :: !Selects(spec, fileSize, b)
  {
  }

  /** The ranges found hold exactly the wanted bytes. */
  lemma {:induction false} ResolveAllIsWanted(specs: seq<Bytes>, fileSize: int)
    requires ResolveAll(specs, fileSize).Some?
    ensures var found := ResolveAll(specs, fileSize).value;
            && (forall r :: r in found ==> 0 <= r.first <= r.last < fileSize)
            && forall b :: Covers(found, b) <==> Wanted(specs, fileSize, b)
  {
    hide ParseSpec, Resolve, Selects, Holds, Wanted;
    NothingWanted(fileSize);
    if specs != [] {
      var n := |specs| - 1;
      var front := specs[..n];
      ResolveAllIsWanted(front, fileSize);
      var found, before := ResolveAll(specs, fileSize).value, ResolveAll(front, fileSize).value;
      var spec := ParseSpec(specs[n]).value;
      SpecHasAnEnd(specs[n]);
      ResolveIsSelected(spec, fileSize);
      forall b
        ensures Covers(found, b) <==> Wanted(specs, fileSize, b)
      {
        assert forall r :: r in found <==> r in before || Resolve(spec, fileSize) == Some(r);
        WantedSnoc(specs, fileSize, b);
      }
    }
  }

  lemma NothingWanted(fileSize: int)
    ensures forall b :: !Wanted([], fileSize, b)
  {
  }

  /** Wanted by the last spec, or by those before it. */
  lemma WantedSnoc(specs: seq<Bytes>, fileSize: int, b: int)
    requires specs != [] && ParseSpec(specs[|specs| - 1]).Some?
    ensures Wanted(specs, fileSize, b) <==>
              Wanted(specs[..|specs| - 1], fileSize, b) || Selects(ParseSpec(specs[|specs| - 1]).value, fileSize, b)
  {
    hide ParseSpec, Selects;
    var front, spec := specs[..|specs| - 1], ParseSpec(specs[|specs| - 1]).value;
    if Wanted(front, fileSize, b) {
      var i :| 0 <= i < |front| && ParseSpec(front[i]).Some? && Selects(ParseSpec(front[i]).value, fileSize, b);
      assert specs[i] == front[i];
    }
    if Wanted(specs, fileSize, b) && !Selects(spec, fileSize, b) {
      var i :| 0 <= i < |specs| && ParseSpec(specs[i]).Some? && Selects(ParseSpec(specs[i]).value, fileSize, b);
      assert front[i] == specs[i];
    }
  }

  lemma SpecHasAnEnd(text: Bytes)
    requires ParseSpec(text).Some?
    ensures !(ParseSpec(text).value.start < 0 && ParseSpec(text).value.end < 0)
  {
    hide ToInt, Trimmed, Split;
  }

  // ----- sorting -----

  lemma {:induction false} InsertKeeps(r: Range, sorted: seq<Range>)
    ensures forall x :: x in Insert(r, sorted) <==> x == r || x in sorted
  {
    if sorted != [] && Less(sorted[0], r) {
      InsertKeeps(r, sorted[1..]);
      assert sorted == [sorted[0]] + sorted[1..];
    }
  }

  lemma {:induction false} InsertOrdered(r: Range, sorted: seq<Range>)
    requires Ordered(sorted) && r.first <= r.last
    ensures Ordered(Insert(r, sorted))
  {
    InsertKeeps(r, sorted);
    if sorted != [] && Less(sorted[0], r) {
      InsertOrdered(r, sorted[1..]);
      InsertKeeps(r, sorted[1..]);
      var rest := Insert(r, sorted[1..]);
      assert forall i :: 0 <= i < |rest| ==> rest[i] in rest;
    }
  }

  lemma {:induction false} SortOrdered(ranges: seq<Range>)
    requires forall r :: r in ranges ==> r.first <= r.last
    ensures Ordered(Sort(ranges))
    ensures forall x :: x in Sort(ranges) <==> x in ranges
  {
    if ranges != [] {
      SortOrdered(ranges[1..]);
      InsertOrdered(ranges[0], Sort(ranges[1..]));
      InsertKeeps(ranges[0], Sort(ranges[1..]));
      assert ranges == [ranges[0]] + ranges[1..];
    }
  }

  // ----- coalescing -----

  /** What the merged list covers: what was covered, and the gap between the two. */
  lemma MergedCovers(ranges: seq<Range>, merged: seq<Range>)
    requires |ranges| >= 2 && Ordered(ranges)
    requires merged == [Merge(ranges[0], ranges[1])] + ranges[2..]
    ensures Covers(ranges, ranges[0].last) && Covers(ranges, ranges[1].first)
    ensures forall t :: Covers(merged, t) <==> Covers(ranges, t) || ranges[0].last < t < ranges[1].first
  {
    var x, y := ranges[0], ranges[1];
    var m := Merge(x, y);
    assert ranges == [x, y] + ranges[2..];
    assert x in ranges && y in ranges && m in merged;
    assert Holds(x, x.last) && Holds(y, y.first);
    forall t
      ensures Covers(merged, t) <==> Covers(ranges, t) || x.last < t < y.first
    {
      assert Holds(m, t) <==> Holds(x, t) || Holds(y, t) || x.last < t < y.first;
      assert Covers(merged, t) <==> Holds(m, t) || Covers(ranges[2..], t);
      assert Covers(ranges, t) <==> Holds(x, t) || Holds(y, t) || Covers(ranges[2..], t);
    }
  }

  /** Merging two neighbours adds only the bytes of a short gap, so it does not change the closure. */
  lemma MergeKeepsClosure(ranges: seq<Range>, merged: seq<Range>, b: int)
    requires |ranges| >= 2 && Ordered(ranges) && Mergeable(ranges[0], ranges[1])
    requires merged == [Merge(ranges[0], ranges[1])] + ranges[2..]
    ensures Closure(merged, b) <==> Closure(ranges, b)
  {
    hide Covers, Ordered, Merge;
    MergedCovers(ranges, merged);
    var x, y := ranges[0].last, ranges[1].first;
    if x < b < y {
      assert InShortGap(ranges, b);
    } else if InShortGap(merged, b) && !Covers(ranges, b) {
      var lo, hi :| Covers(merged, lo) && Covers(merged, hi) && lo < b < hi && hi - lo - 1 <= MULTIPART_OVERHEAD;
      var lo' := if Covers(ranges, lo) then lo else y;
      var hi' := if Covers(ranges, hi) then hi else x;
      assert Covers(ranges, lo') && Covers(ranges, hi') && lo' < b < hi';
    }
    if InShortGap(ranges, b) {
      assert InShortGap(merged, b);
    }
  }

  lemma FirstIsLeast(ranges: seq<Range>, t: int)
    requires ranges != [] && Ordered(ranges) && Covers(ranges, t)
    ensures ranges[0].first <= t
  {
    var r :| r in ranges && Holds(r, t);
    var i :| 0 <= i < |ranges| && ranges[i] == r;
    assert i > 0 ==> ranges[0].first <= ranges[i].first;
  }

  /** A gap too long to fill separates the first range from the rest. */
  lemma SplitClosure(ranges: seq<Range>, b: int)
    requires |ranges| >= 2 && Ordered(ranges) && !Mergeable(ranges[0], ranges[1])
    ensures Closure(ranges, b) <==> Holds(ranges[0], b) || Closure(ranges[1..], b)
  {
    var x, rest := ranges[0], ranges[1..];
    assert ranges == [x] + rest;
    assert x in ranges;
    assert Ordered(rest);
    assert forall t :: Covers(ranges, t) <==> Holds(x, t) || Covers(rest, t);
    if InShortGap(ranges, b) && !Holds(x, b) {
      var lo, hi :| Covers(ranges, lo) && Covers(ranges, hi) && lo < b < hi && hi - lo - 1 <= MULTIPART_OVERHEAD;
      if Covers(rest, lo) {
        FirstIsLeast(rest, lo);
      }
      if Covers(rest, hi) {
        FirstIsLeast(rest, hi);
      }
      assert InShortGap(rest, b);
    }
    if InShortGap(rest, b) {
      assert InShortGap(ranges, b);
    }
  }

  /** Coalescing an ordered list gives a normal form with the same first byte that covers exactly the closure. */
  lemma {:induction false} CoalesceIsClosure(ranges: seq<Range>)
    requires Ordered(ranges)
    ensures var c := Coalesce(ranges);
            && (c == [] <==> ranges == [])
            && (ranges != [] ==> c[0].first == ranges[0].first)
            && (forall r :: r in c ==> r.first <= r.last)
            && (forall i, j :: 0 <= i < j < |c| ==> c[i].last + 1 + MULTIPART_OVERHEAD < c[j].first)
            && (forall b :: Covers(c, b) <==> Closure(ranges, b))
    decreases |ranges|
  {
    hide Merge;
    if |ranges| <= 1 {
      forall b
        ensures Covers(ranges, b) <==> Closure(ranges, b)
      {
        if InShortGap(ranges, b) {
          assert Holds(ranges[0], b);
        }
      }
      assert forall r :: r in ranges ==> r.first <= r.last;
    } else if Mergeable(ranges[0], ranges[1]) {
      var merged := [Merge(ranges[0], ranges[1])] + ranges[2..];
      MergedOrdered(ranges);
      CoalesceIsClosure(merged);
      forall b
        ensures Covers(Coalesce(ranges), b) <==> Closure(ranges, b)
      {
        MergeKeepsClosure(ranges, merged, b);
      }
    } else {
      CoalesceSplit(ranges);
    }
  }

  lemma MergedOrdered(ranges: seq<Range>)
    requires |ranges| >= 2 && Ordered(ranges)
    ensures Ordered([Merge(ranges[0], ranges[1])] + ranges[2..])
    ensures Merge(ranges[0], ranges[1]).first == ranges[0].first
  {
    assert ranges[0] in ranges && ranges[1] in ranges;
    assert forall r :: r in ranges[2..] ==> r in ranges;
  }

  lemma CoalesceSplit(ranges: seq<Range>)
    requires |ranges| >= 2 && Ordered(ranges) && !Mergeable(ranges[0], ranges[1])
    ensures var c := Coalesce(ranges);
            && c != [] && c[0].first == ranges[0].first
            && (forall r :: r in c ==> r.first <= r.last)
            && (forall i, j :: 0 <= i < j < |c| ==> c[i].last + 1 + MULTIPART_OVERHEAD < c[j].first)
            && (forall b :: Covers(c, b) <==> Closure(ranges, b))
    decreases |ranges|, 0
  {
    hide Covers, Closure, Mergeable, InShortGap, Holds;
    var x, rest := ranges[0], ranges[1..];
    assert Ordered(rest) by { TailOrdered(ranges); }
    CoalesceIsClosure(rest);
    var tail := Coalesce(rest);
    assert Coalesce(ranges) == [x] + tail;
    FarApart(ranges);
    PrependApart(x, tail);
    forall b
      ensures Covers([x] + tail, b) <==> Closure(ranges, b)
    {
      SplitClosure(ranges, b);
      CoversCons(x, tail, b);
    }
  }

  lemma TailOrdered(ranges: seq<Range>)
    requires ranges != [] && Ordered(ranges)
    ensures Ordered(ranges[1..])
  {
    assert forall r :: r in ranges[1..] ==> r in ranges;
  }

  lemma FarApart(ranges: seq<Range>)
    requires |ranges| >= 2 && Ordered(ranges) && !Mergeable(ranges[0], ranges[1])
    ensures ranges[0].first <= ranges[0].last && ranges[0].last + 1 + MULTIPART_OVERHEAD < ranges[1].first
  {
    assert ranges[0] in ranges && ranges[0].first <= ranges[1].first;
  }

  lemma PrependApart(x: Range, tail: seq<Range>)
    requires x.first <= x.last && (tail != [] ==> x.last + 1 + MULTIPART_OVERHEAD < tail[0].first)
    requires forall r :: r in tail ==> r.first <= r.last
    requires forall i, j :: 0 <= i < j < |tail| ==> tail[i].last + 1 + MULTIPART_OVERHEAD < tail[j].first
    ensures var c := [x] + tail;
            (forall r :: r in c ==> r.first <= r.last)
            && forall i, j :: 0 <= i < j < |c| ==> c[i].last + 1 + MULTIPART_OVERHEAD < c[j].first
  {
    var c := [x] + tail;
    forall i, j | 0 <= i < j < |c|
      ensures c[i].last + 1 + MULTIPART_OVERHEAD < c[j].first
    {
      if i == 0 && j > 1 {
        assert tail[0] in tail && tail[0].last + 1 + MULTIPART_OVERHEAD < tail[j - 1].first;
      } else if i > 0 {
        assert c[i] == tail[i - 1] && c[j] == tail[j - 1];
      }
    }
  }

  lemma CoversCons(x: Range, tail: seq<Range>, b: int)
    ensures Covers([x] + tail, b) <==> Holds(x, b) || Covers(tail, b)
  {
    assert x in [x] + tail;
    assert forall r :: r in [x] + tail <==> r == x || r in tail;
  }

  // ----- uniqueness -----

  predicate Apart(ranges: seq<Range>) {
    && (forall r :: r in ranges ==> r.first <= r.last)
    && forall i, j :: 0 <= i < j < |ranges| ==> ranges[i].last + 1 + MULTIPART_OVERHEAD < ranges[j].first
  }

  /** Two lists of ranges that are apart and cover the same bytes are the same list. */
  lemma {:induction false} ApartIsUnique(a: seq<Range>, b: seq<Range>)
    requires Apart(a) && Apart(b)
    requires forall t :: Covers(a, t) <==> Covers(b, t)
    ensures a == b
    decreases |a|
  {
    hide Covers, Holds, Apart;
    HeadCovered(a);
    HeadCovered(b);
    if a != [] && b != [] {
      HeadsAgree(a, b);
      TailCovers(a);
      TailCovers(b);
      TailApart(a);
      TailApart(b);
      ApartIsUnique(a[1..], b[1..]);
      assert a == [a[0]] + a[1..] && b == [b[0]] + b[1..];
    }
  }

  lemma TailApart(a: seq<Range>)
    requires a != [] && Apart(a)
    ensures Apart(a[1..])
  {
    assert forall r :: r in a[1..] ==> r in a;
  }

  lemma HeadCovered(a: seq<Range>)
    requires Apart(a)
    ensures if a == [] then forall t :: !Covers(a, t) else Covers(a, a[0].first)
  {
    if a != [] {
      assert a[0] in a;
      assert Holds(a[0], a[0].first);
    }
  }

  lemma TailCovers(a: seq<Range>)
    requires a != [] && Apart(a)
    ensures forall t :: Covers(a[1..], t) <==> Covers(a, t) && t > a[0].last
  {
    assert a == [a[0]] + a[1..];
    assert a[0] in a;
    forall t
      ensures Covers(a[1..], t) <==> Covers(a, t) && t > a[0].last
    {
      if Covers(a[1..], t) {
        var r :| r in a[1..] && Holds(r, t);
        var i :| 0 <= i < |a[1..]| && a[1..][i] == r;
        assert a[i + 1] == r;
      }
    }
  }

  /** The first range of `a` is no longer than the first of `b`, and starts no earlier. */
  lemma HeadsAgree(a: seq<Range>, b: seq<Range>)
    requires a != [] && b != [] && Apart(a) && Apart(b)
    requires forall t :: Covers(a, t) ==> Covers(b, t)
    requires forall t :: Covers(b, t) ==> Covers(a, t)
    ensures a[0].first == b[0].first && a[0].last == b[0].last
  {
    LeastCovered(a);
    LeastCovered(b);
    assert a[0] in a && b[0] in b;
    assert Holds(a[0], a[0].first) && Holds(b[0], b[0].first);
    assert Covers(a, a[0].first) && Covers(b, b[0].first);
    AfterHead(a);
    AfterHead(b);
    HeadHoldsCovers(b, a[0].last + 1);
    HeadHoldsCovers(a, b[0].last + 1);
  }

  lemma HeadHoldsCovers(a: seq<Range>, t: int)
    requires a != []
    ensures Holds(a[0], t) ==> Covers(a, t)
  {
    assert a[0] in a;
  }

  lemma LeastCovered(a: seq<Range>)
    requires a != [] && Apart(a)
    ensures forall t :: Covers(a, t) ==> a[0].first <= t
  {
    assert a[0] in a;
    forall t | Covers(a, t)
      ensures a[0].first <= t
    {
      var r :| r in a && Holds(r, t);
      var i :| 0 <= i < |a| && a[i] == r;
      assert i > 0 ==> a[0].last < a[i].first;
    }
  }

  lemma AfterHead(a: seq<Range>)
    requires a != [] && Apart(a)
    ensures !Covers(a, a[0].last + 1)
  {
  }

  // ----- the result -----

  /** The bytes sent for a list of specs: the wanted ones, and those in a gap of at most 86 bytes between two wanted ones. */
  ghost predicate Sent(specs: seq<Bytes>, fileSize: int, b: int) {
    || Wanted(specs, fileSize, b)
    || exists lo, hi :: Wanted(specs, fileSize, lo) && Wanted(specs, fileSize, hi) && lo < b < hi && hi - lo - 1 <= MULTIPART_OVERHEAD
  }

  lemma SentIsCovered(specs: seq<Bytes>, fileSize: int)
    requires ResolveAll(specs, fileSize).Some?
    ensures var ranges := Coalesce(Sort(ResolveAll(specs, fileSize).value));
            && Apart(ranges) && Normal(ranges, fileSize)
            && forall b :: Covers(ranges, b) <==> Sent(specs, fileSize, b)
  {
    hide Sort, Coalesce, ResolveAll, Wanted, Covers;
    var found := ResolveAll(specs, fileSize).value;
    ResolveAllIsWanted(specs, fileSize);
    SortOrdered(found);
    var sorted := Sort(found);
    SameMembersSameCover(found, sorted);
    CoalesceIsClosure(sorted);
    var ranges := Coalesce(sorted);
    forall r | r in ranges
      ensures 0 <= r.first <= r.last < fileSize
    {
      InRangesCovered(ranges, r);
      WantedInFile(specs, fileSize);
    }
  }

  lemma SameMembersSameCover(a: seq<Range>, b: seq<Range>)
    requires forall r :: r in a <==> r in b
    ensures forall t :: Covers(a, t) <==> Covers(b, t)
  {
  }

  lemma InRangesCovered(ranges: seq<Range>, r: Range)
    requires r in ranges && r.first <= r.last
    ensures Covers(ranges, r.first) && Covers(ranges, r.last)
  {
    assert Holds(r, r.first) && Holds(r, r.last);
  }

  lemma WantedInFile(specs: seq<Bytes>, fileSize: int)
    ensures forall b :: Wanted(specs, fileSize, b) ==> 0 <= b < fileSize
  {
  }

  predicate Malformed(specs: seq<Bytes>) {
    exists text :: text in specs && ParseSpec(text).None?
  }

  lemma {:induction false} MalformedIsNone(specs: seq<Bytes>, fileSize: int)
    ensures ResolveAll(specs, fileSize).None? <==> Malformed(specs)
  {
    hide ParseSpec, Resolve;
    if specs != [] {
      var n := |specs| - 1;
      MalformedIsNone(specs[..n], fileSize);
      assert specs == specs[..n] + [specs[n]];
      assert specs[n] in specs;
    }
  }

  lemma FewRangesCover(ranges: seq<Range>)
    ensures ranges == [] ==> forall b :: !Covers(ranges, b)
    ensures |ranges| == 1 ==> forall b :: Covers(ranges, b) <==> Holds(ranges[0], b)
    ensures ranges != [] && ranges[0].first <= ranges[0].last ==> Covers(ranges, ranges[0].first)
  {
    if ranges != [] {
      assert ranges[0] in ranges;
      assert ranges[0].first <= ranges[0].last ==> Holds(ranges[0], ranges[0].first);
    }
  }

  ghost predicate WholeFileSent(specs: seq<Bytes>, fileSize: int) {
    fileSize > 0 && forall b :: 0 <= b < fileSize ==> Sent(specs, fileSize, b)
  }

  /**
   The answer to a list of specs, in terms of what the specs ask for: an error exactly when one is malformed, nothing is
   wanted or there are more than five; otherwise the full file exactly when every byte of it is sent, and else the ranges
   in normal form that cover exactly the bytes sent.
   */
  lemma RangesAreExact(specs: seq<Bytes>, fileSize: int)
    requires fileSize >= 0 && SpecsFit(specs, fileSize)
    ensures var answer := RangesOfSpecs(specs, fileSize);
            && (answer.InvalidRange? <==> Malformed(specs) || |specs| > MAX_SPECS || forall b :: !Wanted(specs, fileSize, b))
            && (answer.FullFile? <==> !answer.InvalidRange? && WholeFileSent(specs, fileSize))
            && (answer.ValidRanges? ==>
                  && answer.ranges != [] && Normal(answer.ranges, fileSize)
                  && forall b :: Covers(answer.ranges, b) <==> Sent(specs, fileSize, b))
  {
    hide Sort, Coalesce, ResolveAll, Wanted, ParseSpec, Covers, Malformed;
    MalformedIsNone(specs, fileSize);
    if ResolveAll(specs, fileSize).Some? {
      SentIsCovered(specs, fileSize);
      var ranges := Coalesce(Sort(ResolveAll(specs, fileSize).value));
      FewRangesCover(ranges);
      if ranges == [] {
        forall b
          ensures !Wanted(specs, fileSize, b)
        {
          assert !Sent(specs, fileSize, b);
        }
      } else {
        assert ranges[0] in ranges;
        SomethingWanted(specs, fileSize, ranges[0].first);
        WantedInFile(specs, fileSize);
        var whole := [Range(0, fileSize - 1)];
        FewRangesCover(whole);
        if WholeFileSent(specs, fileSize) {
          ApartIsUnique(ranges, whole);
        }
      }
    }
  }

  lemma SomethingWanted(specs: seq<Bytes>, fileSize: int, b: int)
    requires Sent(specs, fileSize, b)
    ensures exists w :: Wanted(specs, fileSize, w)
  {
  }

  /** The order of the specs in the header does not matter. */
  lemma OrderDoesNotMatter(a: seq<Bytes>, b: seq<Bytes>, fileSize: int)
    requires fileSize >= 0 && multiset(a) == multiset(b) && SpecsFit(a, fileSize) && SpecsFit(b, fileSize)
    ensures RangesOfSpecs(a, fileSize) == RangesOfSpecs(b, fileSize)
  {
    hide Sort, Coalesce, ResolveAll, Wanted, ParseSpec, Covers;
    SameSpecsWantSame(a, b, fileSize);
    MalformedIsNone(a, fileSize);
    MalformedIsNone(b, fileSize);
    assert |a| == |multiset(a)| == |multiset(b)| == |b|;
    if ResolveAll(a, fileSize).Some? {
      SentIsCovered(a, fileSize);
      SentIsCovered(b, fileSize);
      var ra, rb := Coalesce(Sort(ResolveAll(a, fileSize).value)), Coalesce(Sort(ResolveAll(b, fileSize).value));
      assert forall t :: Sent(a, fileSize, t) <==> Sent(b, fileSize, t);
      ApartIsUnique(ra, rb);
    }
  }

  lemma SameSpecsWantSame(a: seq<Bytes>, b: seq<Bytes>, fileSize: int)
    requires multiset(a) == multiset(b)
    ensures Malformed(a) <==> Malformed(b)
    ensures forall t :: Wanted(a, fileSize, t) <==> Wanted(b, fileSize, t)
  {
    hide ParseSpec, Selects;
    assert forall text :: text in a <==> text in multiset(a);
    assert forall text :: text in b <==> text in multiset(b);
    WantedByMember(a, fileSize);
    WantedByMember(b, fileSize);
  }

  lemma WantedByMember(specs: seq<Bytes>, fileSize: int)
    ensures forall t :: Wanted(specs, fileSize, t) <==>
              exists text :: text in specs && ParseSpec(text).Some? && Selects(ParseSpec(text).value, fileSize, t)
  {
    hide ParseSpec, Selects;
  }

  // ----- 32-bit sums -----

  /** The sums fit exactly when those of all ranges but the last do. */
  lemma {:induction false} SumsFitExactly(ranges: seq<Range>)
    ensures SumsFit(ranges) <==> forall i :: 0 <= i < |ranges| - 1 ==> SumFits(ranges[i])
    decreases |ranges|
  {
    if |ranges| > 1 {
      var merged := [Merge(ranges[0], ranges[1])] + ranges[2..];
      if Mergeable(ranges[0], ranges[1]) {
        SumsFitExactly(merged);
        assert forall i :: 2 <= i < |ranges| ==> merged[i - 1] == ranges[i];
        if forall i :: 0 <= i < |merged| - 1 ==> SumFits(merged[i]) {
          assert |ranges| > 2 ==> SumFits(merged[0]) && SumFits(ranges[1]);
          forall i | 2 <= i < |ranges| - 1 ensures SumFits(ranges[i]) {
            assert SumFits(merged[i - 1]);
          }
        }
      } else {
        SumsFitExactly(ranges[1..]);
        if forall i :: 0 <= i < |ranges[1..]| - 1 ==> SumFits(ranges[1..][i]) {
          forall i | 1 <= i < |ranges| - 1 ensures SumFits(ranges[i]) {
            assert SumFits(ranges[1..][i - 1]);
          }
        }
      }
    }
  }

  /** They do for every header when the file is at least 86 bytes smaller than the largest int. */
  lemma SmallFileFits(specs: seq<Bytes>, fileSize: int)
    requires 0 <= fileSize <= INT_MAX - MULTIPART_OVERHEAD
    ensures SpecsFit(specs, fileSize)
  {
    hide Sort, ResolveAll, SumsFit, Wanted, Covers;
    if ResolveAll(specs, fileSize).Some? {
      var found := ResolveAll(specs, fileSize).value;
      ResolveAllIsWanted(specs, fileSize);
      SortOrdered(found);
      SumsFitExactly(Sort(found));
      forall i | 0 <= i < |Sort(found)| ensures SumFits(Sort(found)[i]) {
        assert Sort(found)[i] in Sort(found);
      }
    }
  }

  /** A spec written with decimal numbers is read as those numbers. */
  lemma WrittenSpec(start: nat, end: nat)
    requires start <= INT_MAX && end <= INT_MAX
    ensures ParseSpec(Number(start) + "-" + Number(end)) == Some(Spec(start, end))
  {
    hide ToInt, Trimmed, Split, Number;
    var a, b := Number(start), Number(end);
    var text := a + "-" + b;
    assert text[0] == a[0] && a[0] in a && text[|text| - 1] == b[|b| - 1] && b[|b| - 1] in b;
    TrimmedKeeps(text);
    NumberRoundTrip(start);
    NumberRoundTrip(end);
    SplitAtDash(a, b);
    assert ParseEnd(a) == Some(start) && ParseEnd(b) == Some(end);
  }

  lemma SplitAtDash(a: Bytes, b: Bytes)
    requires '-' !in a && '-' !in b
    ensures Split(a + "-" + b, '-') == [a, b]
  {
    hide IndexOf, At;
    var text := a + "-" + b;
    IndexAfter(a, '-', b);
    NoIndex(b, '-');
    assert a + ['-'] + b == text;
    assert text[..|a|] == a && text[|a| + 1..] == b;
    assert ['-'] == "-";
    assert Split(b, '-') == [b];
    assert [a] + [b] == [a, b];
  }

  function Written(r: Range): Bytes
    requires 0 <= r.first && 0 <= r.last
  {
    Number(r.first) + "-" + Number(r.last)
  }

  /** For any two ranges of a file, in order, the gap test overflows exactly when the first one ends too close to the largest int. */
  lemma TwoRangesOverflow(a: Range, b: Range, fileSize: int)
    requires 0 <= a.first <= a.last < fileSize <= INT_MAX && 0 <= b.first <= b.last < fileSize && Less(a, b)
    ensures SpecsFit([Written(a), Written(b)], fileSize) <==> a.last + 1 + MULTIPART_OVERHEAD <= INT_MAX
  {
    hide ParseSpec, Number;
    hide ToInt, Trimmed, Split;
    var specs := [Written(a), Written(b)];
    WrittenSpec(a.first, a.last);
    WrittenSpec(b.first, b.last);
    assert specs[..1] == [Written(a)] && specs[..1][..0] == [];
    assert Resolve(Spec(a.first, a.last), fileSize) == Some(a) && Resolve(Spec(b.first, b.last), fileSize) == Some(b);
    assert ResolveAll([], fileSize) == Some([]);
    assert [] + [a] == [a] && [a] + [b] == [a, b];
    assert ResolveAll(specs[..1], fileSize) == Some([a]);
    assert ResolveAll(specs, fileSize) == Some([a, b]);
    assert Sort([b]) == [b] by { assert [b][1..] == []; }
    assert [a, b][1..] == [b];
    assert Sort([a, b]) == Insert(a, [b]) == [a, b];
    SumsFitExactly([a, b]);
  }

  /** A header on which it does, for a file of the largest size. */
  lemma GapTestOverflows()
    ensures !SpecsFit([Written(Range(2147483600, 2147483640)), Written(Range(2147483610, 2147483646))], INT_MAX)
  {
    hide SpecsFit, Number;
    TwoRangesOverflow(Range(2147483600, 2147483640), Range(2147483610, 2147483646), INT_MAX);
  }
}
