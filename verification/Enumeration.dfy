/**
 Enumeration of undocumented opcodes: the run-length encoding of the opcode
 space, the walker, and the split over the cores of one type.
 */
module Enumeration {
  import opened Bytes

  /** Is a word documented? */
  type Documented = nat -> bool

  // ---------------------------------------------------------------------
  // What should be executed
  // ---------------------------------------------------------------------

  /** The undocumented words of [a, b), in order. */
  function Undocumented(doc: Documented, a: nat, b: nat): seq<nat>
    requires a <= b
  {
    if a == b then [] else Undocumented(doc, a, b - 1) + if doc(b - 1) then [] else [b - 1]
  }

  /** It holds every undocumented word exactly once and no documented word. */
  lemma {:induction false} UndocumentedIsExact(doc: Documented, a: nat, b: nat)
    requires a <= b
    ensures forall x :: x in Undocumented(doc, a, b) <==> a <= x < b && !doc(x)
    ensures forall i, j :: 0 <= i < j < |Undocumented(doc, a, b)| ==> Undocumented(doc, a, b)[i] < Undocumented(doc, a, b)[j]
  {
    if a < b {
      UndocumentedIsExact(doc, a, b - 1);
      var l := Undocumented(doc, a, b - 1);
      forall i | 0 <= i < |l|
        ensures l[i] < b - 1
      {
        assert l[i] in l;
      }
    }
  }

  lemma {:induction false} UndocumentedJoin(doc: Documented, a: nat, b: nat, c: nat)
    requires a <= b <= c
    ensures Undocumented(doc, a, c) == Undocumented(doc, a, b) + Undocumented(doc, b, c)
  {
    if b == c {
      assert Undocumented(doc, a, b) + [] == Undocumented(doc, a, b);
    } else {
      UndocumentedJoin(doc, a, b, c - 1);
      var x, y := Undocumented(doc, a, b), Undocumented(doc, b, c - 1);
      var z: seq<nat> := if doc(c - 1) then [] else [c - 1];
      assert x + (y + z) == x + y + z;
    }
  }

  lemma {:induction false} NothingIn(doc: Documented, a: nat, b: nat)
    requires a <= b && forall x :: a <= x < b ==> doc(x)
    ensures Undocumented(doc, a, b) == []
  {
    if a < b {
      NothingIn(doc, a, b - 1);
    }
  }

  // ---------------------------------------------------------------------
  // Ranges
  // ---------------------------------------------------------------------

  /** Where range k starts. */
  function Start(ranges: seq<nat>, k: nat): (p: nat)
    requires k <= |ranges|
  {
    if k == 0 then 0 else Start(ranges, k - 1) + ranges[k - 1]
  }

  /** Words x of range k are documented exactly in the odd ranges. */
  ghost predicate RangeOk(doc: Documented, ranges: seq<nat>, k: nat)
    requires k < |ranges|
  {
    forall x :: Start(ranges, k) <= x < Start(ranges, k + 1) ==> (doc(x) <==> k % 2 == 1)
  }

  /** The ranges cover [0, total), undocumented first, alternating. */
  ghost predicate Encodes(doc: Documented, ranges: seq<nat>, total: nat) {
    && Start(ranges, |ranges|) == total
    && forall k :: 0 <= k < |ranges| ==> RangeOk(doc, ranges, k)
  }

  lemma {:induction false} StartPrefix(ranges: seq<nat>, r: nat, k: nat)
    requires k <= |ranges|
    ensures Start(ranges + [r], k) == Start(ranges, k)
    decreases k
  {
    if k > 0 {
      StartPrefix(ranges, r, k - 1);
    }
  }

  lemma {:induction false} StartMonotone(ranges: seq<nat>, j: nat, k: nat)
    requires j <= k <= |ranges|
    ensures Start(ranges, j) <= Start(ranges, k)
    decreases k
  {
    if j < k {
      StartMonotone(ranges, j, k - 1);
    }
  }

  /** Closing a range keeps the encoding. */
  lemma CloseRange(doc: Documented, ranges: seq<nat>, last: nat, i: nat)
    requires Encodes(doc, ranges, last) && last <= i
    requires forall x :: last <= x < i ==> (doc(x) <==> |ranges| % 2 == 1)
    ensures Encodes(doc, ranges + [i - last], i)
  {
    var r := ranges + [i - last];
    StartPrefix(ranges, i - last, |ranges|);
    forall k | 0 <= k < |r|
      ensures RangeOk(doc, r, k)
    {
      StartPrefix(ranges, i - last, k);
      if k < |ranges| {
        assert RangeOk(doc, ranges, k);
        StartPrefix(ranges, i - last, k + 1);
      }
    }
  }

  /** All lengths fit the file's integer width. */
  predicate Fit(ranges: seq<nat>, limit: nat) {
    forall k :: 0 <= k < |ranges| ==> ranges[k] < limit
  }

  /** The split points before word i: closed ranges, whether a gap is being
      skipped, and where the open range began. */
  datatype Splits = Splits(ranges: seq<nat>, skip: bool, last: nat)

  function SplitsAt(doc: Documented, i: nat): (s: Splits)
    ensures s.last <= i
  {
    if i == 0 then Splits([], true, 0)
    else
      var s := SplitsAt(doc, i - 1);
      if doc(i - 1) == s.skip then Splits(s.ranges + [i - 1 - s.last], !s.skip, i - 1) else s
  }

  /** The closed ranges, and the open one closed at end. */
  function AllRanges(doc: Documented, end: nat): seq<nat> {
    SplitsAt(doc, end).ranges + [end - SplitsAt(doc, end).last]
  }

  lemma {:induction false} SplitsEncode(doc: Documented, i: nat)
    ensures var s := SplitsAt(doc, i);
      && Encodes(doc, s.ranges, s.last)
      && (s.skip <==> |s.ranges| % 2 == 0)
      && (forall x :: s.last <= x < i ==> (doc(x) <==> !s.skip))
      && (i > 0 ==> (doc(i - 1) <==> !s.skip))
  {
    if i > 0 {
      SplitsEncode(doc, i - 1);
      var s := SplitsAt(doc, i - 1);
      if doc(i - 1) == s.skip {
        CloseRange(doc, s.ranges, s.last, i - 1);
      }
    }
  }

  /** list_encoding_gaps: the ranges file, or None when one of its assertions
      or the conversion of a length to bytes fails. */
  method ListEncodingGaps(doc: Documented, end: nat, limit: nat, firstIsGap: bool) returns (file: Option<seq<nat>>)
    requires 0 < end
    ensures file.Some? ==> Encodes(doc, file.value, end) && |file.value| % 2 == 1 && Fit(file.value, limit)
    ensures file.Some? <==> ((firstIsGap ==> !doc(0)) && !doc(end - 1) && Fit(AllRanges(doc, end), limit))
  {
    hide Encodes;
    ghost var final := SplitsAt(doc, end);
    SplitsEncode(doc, end);
    if firstIsGap && doc(0) {
      return None;
    }
    var currentlySkip, lastSplit: nat, ranges: seq<nat> := true, 0, [];
    for i := 0 to end
      invariant Splits(ranges, currentlySkip, lastSplit) == SplitsAt(doc, i)
      invariant Fit(ranges, limit)
    {
      if doc(i) == currentlySkip {
        var skip := i - lastSplit;
        if skip >= limit {
          TooLong(doc, i + 1, end, limit, |ranges|);
          return None;
        }
        ranges := ranges + [skip];
        currentlySkip := !currentlySkip;
        lastSplit := i;
      }
    }
    if !currentlySkip {
      // Nothing is written for the last range, so the sum falls short.
      return None;
    }
    var skip := end - lastSplit;
    if skip >= limit {
      assert AllRanges(doc, end)[|ranges|] == skip;
      return None;
    }
    CloseRange(doc, ranges, lastSplit, end);
    return Some(ranges + [skip]);
  }

  /** A range once written stays written. */
  lemma {:induction false} TooLong(doc: Documented, i: nat, end: nat, limit: nat, k: nat)
    requires i <= end && k < |SplitsAt(doc, i).ranges| && SplitsAt(doc, i).ranges[k] >= limit
    ensures k < |SplitsAt(doc, end).ranges| && SplitsAt(doc, end).ranges[k] >= limit
    ensures !Fit(AllRanges(doc, end), limit)
    decreases end
  {
    if i < end {
      TooLong(doc, i, end - 1, limit, k);
    }
    assert AllRanges(doc, end)[k] == SplitsAt(doc, end).ranges[k];
  }

  // ---------------------------------------------------------------------
  // One worker
  // ---------------------------------------------------------------------

  function Clamp(i: nat, start: nat, end: nat): (c: nat)
    requires start <= end
    ensures start <= c <= end
  {
    if i < start then start else if i < end then i else end
  }

  /** Progress reports never go back and never exceed the slice. */
  predicate Monotone(h: seq<nat>, top: nat) {
    && (forall i, j :: 0 <= i < j < |h| ==> h[i] <= h[j])
    && forall i :: 0 <= i < |h| ==> h[i] <= top
  }

  lemma MonotoneNone(top: nat)
    ensures Monotone([], top)
  {
  }

  lemma ClampIs(i: nat, start: nat, end: nat)
    requires start <= end
    ensures Clamp(i, start, end) == if i < start then start else if i < end then i else end
  {
  }

  /** The first loop: skip whole ranges that end before the slice. */
  method SkipTo(ranges: seq<nat>, start: nat) returns (index: nat, i: nat, curRangeUndef: bool)
    requires ranges != [] && start <= Start(ranges, |ranges|)
    ensures index < |ranges| && i == Start(ranges, index) && i <= start <= Start(ranges, index + 1)
    ensures curRangeUndef <==> index % 2 == 0
  {
    index, i, curRangeUndef := 0, 0, true;
    while i + ranges[index] < start
      invariant index < |ranges| && i == Start(ranges, index) && i <= start
      invariant curRangeUndef <==> index % 2 == 0
      decreases |ranges| - index
    {
      i := i + ranges[index];
      index := index + 1;
      curRangeUndef := !curRangeUndef;
    }
  }

  /** The worker on [start, end): the words it runs, in order, and the
      progress values it reports (before they are cut to 32 bits). Every
      access to ranges is within bounds. */
  method Worker(ranges: seq<nat>, start: nat, end: nat, ghost doc: Documented, ghost total: nat)
    returns (executed: seq<nat>, progress: seq<nat>)
    requires Encodes(doc, ranges, total) && ranges != [] && start <= end <= total
    ensures executed == Undocumented(doc, start, end)
    ensures Monotone(progress, end - start)
    ensures start < end ==> progress != [] && progress[|progress| - 1] == end - start
  {
    hide RangeOk, Undocumented, Start, Monotone, Clamp, Reports;
    var index: nat, i: nat, curRangeUndef := SkipTo(ranges, start);
    executed, progress := [], [];
    ghost var at := start;
    assert Undocumented(doc, start, start) == [] by { NothingIn(doc, start, start); }
    assert Monotone([], end - start) by { MonotoneNone(end - start); }
    assert at == Clamp(i, start, end) by { ClampIs(i, start, end); }
    while i < end
      invariant start <= at <= end && at == Clamp(i, start, end) && (i >= end ==> at == end)
      invariant index <= |ranges|
      invariant i < end ==> i == Start(ranges, index)
      invariant i < start ==> index < |ranges| && start <= Start(ranges, index + 1)
      invariant curRangeUndef <==> index % 2 == 0
      invariant executed == Undocumented(doc, start, at)
      invariant Monotone(progress, end - start)
      invariant progress != [] ==> progress[|progress| - 1] == at - start
      invariant progress == [] ==> at == start
      decreases |ranges| - index
    {
      assert index < |ranges|;
      assert start <= Start(ranges, index + 1) by { NextStart(ranges, index); }
      assert RangeOk(doc, ranges, index);
      var more, reports;
      i, more, reports := WalkRange(doc, ranges, index, i, start, end, curRangeUndef);
      ghost var next := Clamp(i, start, end);
      UndocumentedJoin(doc, start, at, next);
      executed := executed + more;
      JoinReports(progress, reports, at - start, next - start, end - start);
      progress := progress + reports;
      index := index + 1;
      curRangeUndef := !curRangeUndef;
      at := next;
      ClampIs(i, start, end);
    }
  }

  /** One round of the outer loop: range index, then a progress report. */
  method WalkRange(ghost doc: Documented, ranges: seq<nat>, index: nat, i0: nat, start: nat, end: nat, undef: bool)
    returns (i: nat, executed: seq<nat>, reports: seq<nat>)
    requires index < |ranges| && (undef <==> index % 2 == 0) && RangeOk(doc, ranges, index)
    requires start <= end && i0 == Start(ranges, index) < end && start <= Start(ranges, index + 1)
    ensures i >= start && Clamp(i0, start, end) <= Clamp(i, start, end)
    ensures i < end ==> i == Start(ranges, index + 1)
    ensures executed == Undocumented(doc, Clamp(i0, start, end), Clamp(i, start, end))
    ensures Reports(reports, Clamp(i0, start, end) - start, Clamp(i, start, end) - start)
    ensures reports != [] && reports[|reports| - 1] == Clamp(i, start, end) - start
  {
    hide RangeOk, Undocumented, Start;
    NextStart(ranges, index);
    if undef {
      i, executed, reports := RunRange(doc, ranges, index, i0, start, end);
    } else {
      i, executed, reports := i0 + ranges[index], [], [];
      AllDocumented(doc, ranges, index, Clamp(i0, start, end), Clamp(i, start, end));
    }
    reports := reports + [(if i < end then i else end) - start];
  }

  /** The inner loop over one undocumented range. */
  method RunRange(ghost doc: Documented, ranges: seq<nat>, index: nat, i0: nat, start: nat, end: nat)
    returns (i: nat, executed: seq<nat>, reports: seq<nat>)
    requires index < |ranges| && index % 2 == 0 && RangeOk(doc, ranges, index)
    requires start <= end && i0 == Start(ranges, index) < end && start <= Start(ranges, index + 1)
    ensures i == (if Start(ranges, index + 1) < end then Start(ranges, index + 1) else end)
    ensures executed == Undocumented(doc, Clamp(i0, start, end), Clamp(Start(ranges, index + 1), start, end))
    ensures Reports(reports, Clamp(i0, start, end) - start, Clamp(Start(ranges, index + 1), start, end) - start)
  {
    hide Start;
    ghost var rangeEnd := Start(ranges, index + 1);
    assert rangeEnd == i0 + ranges[index] by { NextStart(ranges, index); }
    i, executed, reports := i0, [], [];
    var rangeStart := i;
    if i < start {
      i := start;
    }
    ghost var from := i;
    while i < rangeStart + ranges[index]
      invariant from <= i <= rangeEnd && i <= end
      invariant executed == Undocumented(doc, from, i)
      invariant Reports(reports, from - start, i - start)
      decreases rangeEnd - i
    {
      if i >= end {
        break;
      }
      if i % 0x4_0000 == 0 {
        reports := reports + [(if i < end then i else end) - start];
      }
      executed := executed + [i];
      i := i + 1;
    }
  }

  lemma NextStart(ranges: seq<nat>, k: nat)
    requires k < |ranges|
    ensures Start(ranges, k + 1) == Start(ranges, k) + ranges[k]
  {
  }

  /** Ascending values between lo and hi. */
  predicate Reports(h: seq<nat>, lo: nat, hi: nat) {
    && lo <= hi
    && (forall i, j :: 0 <= i < j < |h| ==> h[i] <= h[j])
    && forall i :: 0 <= i < |h| ==> lo <= h[i] <= hi
  }

  lemma JoinReports(h: seq<nat>, r: seq<nat>, lo: nat, hi: nat, top: nat)
    requires Monotone(h, top) && Reports(r, lo, hi) && hi <= top && (h != [] ==> h[|h| - 1] <= lo)
    ensures Monotone(h + r, top)
  {
    var a := h + r;
    forall i, j | 0 <= i < j < |a|
      ensures a[i] <= a[j]
    {
      if i < |h| && j >= |h| {
        assert h[i] <= h[|h| - 1];
      }
    }
  }

  lemma AllDocumented(doc: Documented, ranges: seq<nat>, k: nat, a: nat, b: nat)
    requires k < |ranges| && k % 2 == 1 && RangeOk(doc, ranges, k)
    requires Start(ranges, k) <= a <= b && (a < b ==> b <= Start(ranges, k + 1))
    ensures Undocumented(doc, a, b) == []
  {
    NothingIn(doc, a, b);
  }

  // ---------------------------------------------------------------------
  // All cores of a type
  // ---------------------------------------------------------------------

  /** First word of the slice of core j. */
  function SliceStart(end: nat, count: nat, j: nat): nat
    requires 0 < count
  {
    (end + 1) / count * j
  }

  function SliceEnd(end: nat, count: nat, j: nat): nat
    requires 0 < count
  {
    if j + 1 == count then end else SliceStart(end, count, j + 1)
  }

  lemma ChunkBound(end: nat, count: nat, j: nat)
    requires 0 < count <= end + 1 && j < count
    ensures SliceStart(end, count, j) <= SliceEnd(end, count, j) <= end
    ensures 1 <= (end + 1) / count
  {
    var q := (end + 1) / count;
    assert q * count <= end + 1;
    QuotientPositive(end + 1, count);
    MulMonotone(q, j + 1, count);
    if j + 1 < count {
      MulMonotone(q, j + 2, count);
      assert q * (j + 1) + q == q * (j + 2);
    }
    assert q * j + q == q * (j + 1);
  }

  function SliceLength(end: nat, count: nat, j: nat): nat
    requires 0 < count <= end + 1 && j < count
  {
    ChunkBound(end, count, j);
    SliceEnd(end, count, j) - SliceStart(end, count, j)
  }

  lemma QuotientPositive(x: nat, d: nat)
    requires 0 < d <= x
    ensures 1 <= x / d
  {
    assert x == d * (x / d) + x % d;
  }

  lemma MulMonotone(q: nat, a: nat, b: nat)
    requires a <= b
    ensures q * a <= q * b
  {
  }

  /** What the first n cores run, one after the other. */
  function RunByAll(doc: Documented, end: nat, count: nat, n: nat): seq<nat>
    requires 0 < count <= end + 1 && n <= count
  {
    if n == 0 then []
    else
      ChunkBound(end, count, n - 1);
      RunByAll(doc, end, count, n - 1) + Undocumented(doc, SliceStart(end, count, n - 1), SliceEnd(end, count, n - 1))
  }

  /** Together the cores run exactly the undocumented words, each once. */
  lemma {:induction false} SlicesTile(doc: Documented, end: nat, count: nat, n: nat)
    requires 0 < count <= end + 1 && n <= count
    ensures n < count ==> SliceStart(end, count, n) <= end
    ensures RunByAll(doc, end, count, n) == Undocumented(doc, 0, if n == count then end else SliceStart(end, count, n))
  {
    hide Undocumented;
    if n < count {
      ChunkBound(end, count, n);
    }
    if n == 0 {
      assert SliceStart(end, count, 0) == 0;
      NothingIn(doc, 0, 0);
    } else {
      SlicesTile(doc, end, count, n - 1);
      ChunkBound(end, count, n - 1);
      UndocumentedJoin(doc, 0, SliceStart(end, count, n - 1), SliceEnd(end, count, n - 1));
    }
  }

  /** The words of one core type are covered exactly, for any core count. */
  lemma EnumerationIsExact(doc: Documented, end: nat, count: nat)
    requires 0 < count <= end + 1
    ensures RunByAll(doc, end, count, count) == Undocumented(doc, 0, end)
    ensures forall x: nat :: x in RunByAll(doc, end, count, count) <==> x < end && !doc(x)
    ensures var l := RunByAll(doc, end, count, count);
      forall i, j :: 0 <= i < j < |l| ==> l[i] != l[j]
  {
    hide Undocumented, RunByAll;
    SlicesTile(doc, end, count, count);
    UndocumentedIsExact(doc, 0, end);
  }

  /** Every core of one type walks its slice of the same ranges file: the
      words run on the type, core after core, and each core's last report. */
  method RunCoreType(ranges: seq<nat>, end: nat, count: nat, ghost doc: Documented)
    returns (executed: seq<nat>, reports: seq<nat>)
    requires Encodes(doc, ranges, end) && ranges != []
    requires 0 < count <= end + 1
    ensures executed == Undocumented(doc, 0, end)
    ensures |reports| == count && forall j :: 0 <= j < count ==> reports[j] == SliceLength(end, count, j)
  {
    hide Encodes, Undocumented, Monotone, SliceStart, SliceEnd;
    executed, reports := [], [];
    for j := 0 to count
      invariant executed == RunByAll(doc, end, count, j)
      invariant |reports| == j && forall k :: 0 <= k < j ==> reports[k] == SliceLength(end, count, k)
    {
      ChunkBound(end, count, j);
      var start, stop := SliceStart(end, count, j), SliceEnd(end, count, j);
      var words, progress := Worker(ranges, start, stop, doc, end);
      executed := executed + words;
      reports := reports + [if progress == [] then 0 else progress[|progress| - 1]];
      assert start == stop ==> reports[j] == 0 by { EmptySlice(progress, stop - start); }
    }
    SlicesTile(doc, end, count, count);
  }

  lemma EmptySlice(h: seq<nat>, top: nat)
    requires Monotone(h, top)
    ensures h != [] ==> h[|h| - 1] <= top
  {
  }

  // ---------------------------------------------------------------------
  // Progress totals
  // ---------------------------------------------------------------------

  /** Lengths of the first n slices. */
  function Lengths(end: nat, count: nat, n: nat): (ls: seq<nat>)
    requires 0 < count <= end + 1 && n <= count
    ensures |ls| == n
    ensures forall j :: 0 <= j < n ==> ls[j] == SliceLength(end, count, j)
  {
    if n == 0 then [] else Lengths(end, count, n - 1) + [SliceLength(end, count, n - 1)]
  }

  lemma {:induction false} LengthsSum(end: nat, count: nat, n: nat)
    requires 0 < count <= end + 1 && n <= count
    ensures Sum(Lengths(end, count, n)) == if n == count then end else SliceStart(end, count, n)
  {
    hide Sum;
    if n == 0 {
      assert SliceStart(end, count, 0) == 0;
      assert Sum([]) == 0 by { SumNone(); }
    } else {
      LengthsSum(end, count, n - 1);
      ChunkBound(end, count, n - 1);
      SumSnoc(Lengths(end, count, n - 1), SliceLength(end, count, n - 1));
    }
  }

  lemma SumNone()
    ensures Sum([]) == 0
  {
  }

  lemma {:induction false} SumBelow(a: seq<nat>, b: seq<nat>)
    requires |a| == |b| && forall j :: 0 <= j < |a| ==> a[j] <= b[j]
    ensures Sum(a) <= Sum(b)
    ensures Sum(a) == Sum(b) <==> a == b
  {
    if a != [] {
      SumBelow(a[1..], b[1..]);
      if Sum(a) == Sum(b) {
        assert a[1..] == b[1..] && a[0] == b[0];
        assert a == [a[0]] + a[1..] && b == [b[0]] + b[1..];
      }
    }
  }

  /** The 32-bit progress field holds every slice once there are two cores. */
  lemma SliceFitsField(count: nat, j: nat)
    requires 2 <= count <= 256 && j < count
    ensures SliceLength(U32, count, j) < U32
  {
    var q := (U32 + 1) / count;
    ChunkBound(U32, count, j);
    assert q <= (U32 + 1) / 2 by { QuotientShrinks(U32 + 1, count); }
    if j + 1 < count {
      assert SliceLength(U32, count, j) == q * (j + 1) - q * j == q;
    } else {
      MulMonotone(q, 1, j);
      assert SliceLength(U32, count, j) == U32 - q * j;
    }
  }

  lemma QuotientShrinks(x: nat, count: nat)
    requires 2 <= count
    ensures x / count <= x / 2
  {
    var q := x / count;
    assert q * count <= x;
    MulMonotone(q, 2, count);
  }

  /** With two or more cores, the summed progress reaches the whole space
      exactly when every worker has covered its slice. */
  lemma FinishedIff(count: nat, ps: seq<nat>)
    requires 2 <= count <= 256 && |ps| == count
    requires forall j :: 0 <= j < count ==> ps[j] <= SliceLength(U32, count, j)
    ensures forall j :: 0 <= j < count ==> ps[j] % U32 == ps[j]
    ensures Sum(ps) >= U32 <==> forall j :: 0 <= j < count ==> ps[j] == SliceLength(U32, count, j)
  {
    hide Sum;
    var ls := Lengths(U32, count, count);
    LengthsSum(U32, count, count);
    SumBelow(ps, ls);
    forall j | 0 <= j < count
      ensures ps[j] % U32 == ps[j]
    {
      SliceFitsField(count, j);
    }
    if forall j :: 0 <= j < count ==> ps[j] == SliceLength(U32, count, j) {
      assert ps == ls;
    }
  }

  /** A lone core wraps to zero at the end, so its type is never finished. */
  lemma LoneCoreNeverFinishes(p: nat)
    requires p <= SliceLength(U32, 1, 0)
    ensures SliceLength(U32, 1, 0) == U32
    ensures !(p % U32 >= U32)
    ensures p == U32 ==> p % U32 == 0
  {
    hide SliceLength;
    LoneSlice();
  }

  lemma LoneSlice()
    ensures SliceLength(U32, 1, 0) == U32
  {
    ChunkBound(U32, 1, 0);
    assert SliceStart(U32, 1, 0) == 0;
  }
}
