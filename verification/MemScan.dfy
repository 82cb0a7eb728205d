/**
 The memory-change scan: which byte runs of a list of mappings differ from
 their initial contents, and how they are recorded.
 */
module MemScan {
  import opened Bytes
  import opened ResultCodec
  import opened ResultRoundTrip
  import Bits

  /** A mapping: its address, its initial bytes (val) and its current bytes (rw). */
  datatype Mapping = Mapping(start: nat, val: seq<byte>, rw: seq<byte>)

  predicate MappingsOk(ms: seq<Mapping>) {
    forall m :: 0 <= m < |ms| ==> |ms[m].val| == |ms[m].rw|
  }

  /** The next mapping of the list starts where this one ends, modulo 2^64. */
  predicate Adjacent(a: Mapping, b: Mapping) {
    b.start == (a.start + |a.val|) % U64
  }

  // ---------------------------------------------------------------------
  // Cells and runs
  // ---------------------------------------------------------------------

  /** One byte of memory; joined says that a run may continue into it. */
  datatype Cell = Cell(addr: nat, was: byte, now: byte, joined: bool)

  function MappingCells(mp: Mapping, joined: bool): (c: seq<Cell>)
    requires |mp.val| == |mp.rw|
    ensures |c| == |mp.val|
  {
    seq(|mp.val|, i requires 0 <= i < |mp.val| =>
      Cell((mp.start + i) % U64, mp.val[i], mp.rw[i], i > 0 || joined))
  }

  /** May a run go on from mapping m - 1 into mapping m? */
  predicate JoinsPrevious(ms: seq<Mapping>, m: nat)
    requires m < |ms|
  {
    m > 0 && ms[m - 1].val != [] && Adjacent(ms[m - 1], ms[m])
  }

  /** All bytes of the mappings, in scan order. */
  function Cells(ms: seq<Mapping>): seq<Cell>
    requires MappingsOk(ms)
  {
    if ms == [] then []
    else
      var k := |ms| - 1;
      Cells(ms[..k]) + MappingCells(ms[k], JoinsPrevious(ms, k))
  }

  /** Addresses of the mappings are 64-bit, and none is empty. */
  predicate ProperMappings(ms: seq<Mapping>) {
    forall m :: 0 <= m < |ms| ==> ms[m].start < U64 && ms[m].val != []
  }

  /** The address behind a, in 64 bits. */
  function NextAddress(a: nat): nat {
    (a + 1) % 0x1_0000_0000_0000_0000
  }

  lemma NextSum(start: nat, i: nat)
    ensures NextAddress((start + i) % U64) == (start + i + 1) % U64
  {
  }

  /** Within a mapping every cell follows the one before it. */
  lemma InsideMapping(mp: Mapping, joined: bool, i: nat)
    requires |mp.val| == |mp.rw| && 0 < i < |mp.val|
    ensures var c := MappingCells(mp, joined);
      c[i].joined && c[i].addr == NextAddress(c[i - 1].addr)
  {
    hide NextAddress;
    NextSum(mp.start, i - 1);
  }

  /** The first cell of a mapping follows the last one of a nonempty mapping
      exactly when the two are adjacent. */
  lemma AtStart(a: Mapping, b: Mapping, j: bool, joined: bool)
    requires |a.val| == |a.rw| && |b.val| == |b.rw| && a.val != [] && b.val != [] && b.start < U64
    ensures MappingCells(b, joined)[0].joined == joined
    ensures Adjacent(a, b) <==> MappingCells(b, joined)[0].addr == NextAddress(MappingCells(a, j)[|a.val| - 1].addr)
  {
    hide NextAddress;
    NextSum(a.start, |a.val| - 1);
  }

  /** A run may continue into a cell exactly when it follows the cell before it
      in the address space. */
  lemma {:induction false} JoinedIsNext(ms: seq<Mapping>, k: nat)
    requires MappingsOk(ms) && ProperMappings(ms) && 0 < k < |Cells(ms)|
    ensures Cells(ms)[k].joined <==> Cells(ms)[k].addr == NextAddress(Cells(ms)[k - 1].addr)
    decreases |ms|
  {
    hide Cells, MappingCells, NextAddress, Adjacent;
    if ms == [] {
      NoCells();
      return;
    }
    var n := |ms| - 1;
    CellsSnoc(ms);
    var prev, own := Cells(ms[..n]), MappingCells(ms[n], JoinsPrevious(ms, n));
    if k < |prev| {
      JoinedIsNext(ms[..n], k);
    } else if k > |prev| {
      assert Cells(ms)[k] == own[k - |prev|] && Cells(ms)[k - 1] == own[k - 1 - |prev|];
      InsideMapping(ms[n], JoinsPrevious(ms, n), k - |prev|);
    } else {
      assert n > 0 by { if n == 0 { NoCells(); } }
      CellsSnoc(ms[..n]);
      assert ms[..n][n - 1] == ms[n - 1];
      AtStart(ms[n - 1], ms[n], JoinsPrevious(ms[..n], n - 1), JoinsPrevious(ms, n));
    }
  }

  lemma NoCells()
    ensures Cells([]) == []
  {
  }

  predicate Differs(c: Cell) {
    c.now != c.was
  }

  /** A run that reaches e does not continue into cell e. */
  predicate Stops(c: seq<Cell>, e: nat) {
    e >= |c| || !Differs(c[e]) || !c[e].joined
  }

  /** The end of the run that has reached b. */
  function RunEnd(c: seq<Cell>, b: nat): (e: nat)
    requires b <= |c|
    ensures b <= e <= |c| && Stops(c, e)
    ensures forall k :: b <= k < e ==> !Stops(c, k)
    decreases |c| - b
  {
    if Stops(c, b) then b else RunEnd(c, b + 1)
  }

  datatype Run = Run(from: nat, to: nat)

  /** The runs of differing cells from index p on. */
  function Runs(c: seq<Cell>, p: nat): seq<Run>
    decreases |c| - p
  {
    if p >= |c| then []
    else if !Differs(c[p]) then Runs(c, p + 1)
    else [Run(p, RunEnd(c, p + 1))] + Runs(c, RunEnd(c, p + 1))
  }

  /** What it means to be a maximal run. */
  ghost predicate Maximal(c: seq<Cell>, r: Run) {
    && r.from < r.to <= |c|
    && (forall k :: r.from <= k < r.to ==> Differs(c[k]))
    && (forall k :: r.from < k < r.to ==> c[k].joined)
    && (r.from == 0 || !Differs(c[r.from - 1]) || !c[r.from].joined)
    && Stops(c, r.to)
  }

  /** The recursion yields exactly the maximal runs at or after p, in order,
      and every differing cell lies in one of them. */
  lemma {:induction false} RunsAreMaximal(c: seq<Cell>, p: nat)
    requires p == 0 || p >= |c| || !Differs(c[p - 1]) || !c[p].joined || !Differs(c[p])
    ensures IsRunList(c, p, Runs(c, p))
    decreases |c| - p
  {
    hide IsRunList, RunEnd;
    if p >= |c| {
      NoRuns(c, p);
    } else {
      if !Differs(c[p]) {
        RunsAreMaximal(c, p + 1);
        SkipRun(c, p, Runs(c, p + 1));
      } else {
        var e := RunEnd(c, p + 1);
        RunsAreMaximal(c, e);
        FirstRun(c, p, e);
        ConsRun(c, p, e, Runs(c, e));
      }
    }
  }

  lemma NoRuns(c: seq<Cell>, p: nat)
    requires p >= |c|
    ensures IsRunList(c, p, [])
  {
  }

  lemma SkipRun(c: seq<Cell>, p: nat, rs: seq<Run>)
    requires p < |c| && !Differs(c[p]) && IsRunList(c, p + 1, rs)
    ensures IsRunList(c, p, rs)
  {
    hide Maximal;
    forall k | p <= k < |c| && Differs(c[k])
      ensures InSome(rs, k)
    {
      assert p + 1 <= k;
    }
  }

  /** Conversely, every maximal run is recorded. */
  lemma MaximalRunsAreListed(c: seq<Cell>, r: Run)
    requires Maximal(c, r)
    ensures r in Runs(c, 0)
  {
    hide Runs;
    RunsAreMaximal(c, 0);
    var rs := Runs(c, 0);
    assert InSome(rs, r.from);
    var i :| 0 <= i < |rs| && rs[i].from <= r.from < rs[i].to;
    assert Maximal(c, rs[i]);
    assert rs[i] == r;
  }

  /** rs are the maximal runs at or after p, in order, and every differing cell lies in one. */
  ghost predicate IsRunList(c: seq<Cell>, p: nat, rs: seq<Run>) {
    && (forall i :: 0 <= i < |rs| ==> p <= rs[i].from && Maximal(c, rs[i]))
    && (forall i, j :: 0 <= i < j < |rs| ==> rs[i].to <= rs[j].from)
    && (forall k :: p <= k < |c| && Differs(c[k]) ==> InSome(rs, k))
  }

  ghost predicate InSome(rs: seq<Run>, k: nat) {
    exists i :: 0 <= i < |rs| && rs[i].from <= k < rs[i].to
  }

  lemma FirstRun(c: seq<Cell>, p: nat, e: nat)
    requires p < |c| && Differs(c[p]) && e == RunEnd(c, p + 1)
    requires p == 0 || !Differs(c[p - 1]) || !c[p].joined
    ensures Maximal(c, Run(p, e))
  {
    forall k | p <= k < e
      ensures Differs(c[k]) && (p < k ==> c[k].joined)
    {
      if p < k { assert !Stops(c, k); }
    }
  }

  lemma ConsRun(c: seq<Cell>, p: nat, e: nat, rest: seq<Run>)
    requires p < e && Maximal(c, Run(p, e)) && IsRunList(c, e, rest)
    ensures IsRunList(c, p, [Run(p, e)] + rest)
  {
    hide Maximal;
    var rs := [Run(p, e)] + rest;
    assert rs[0] == Run(p, e) && forall i :: 0 < i < |rs| ==> rs[i] == rest[i - 1];
    forall k | p <= k < |c| && Differs(c[k])
      ensures InSome(rs, k)
    {
      if k < e {
        assert rs[0].from <= k < rs[0].to;
      } else {
        assert InSome(rest, k);
        var i :| 0 <= i < |rest| && rest[i].from <= k < rest[i].to;
        assert rs[i + 1] == rest[i];
      }
    }
  }

  // ---------------------------------------------------------------------
  // What is recorded of a run
  // ---------------------------------------------------------------------

  const FNV_BASIS: nat := 2166136261
  const FNV_PRIME: nat := 16777619

  /** One step of FNV-1a, 32 bit. */
  function FnvStep(h: nat, b: byte): (h': nat)
    requires h < U32
    ensures h' < U32
  {
    (Bits.Xor(h, b) * FNV_PRIME) % U32
  }

  /** The current bytes of cells [a, b). */
  function Nows(c: seq<Cell>, a: nat, b: nat): (s: seq<byte>)
    requires a <= b <= |c|
    ensures |s| == b - a
    ensures forall k :: 0 <= k < b - a ==> s[k] == c[a + k].now
  {
    if a == b then [] else Nows(c, a, b - 1) + [c[b - 1].now]
  }

  /** FNV-1a of a byte string. */
  function Fnv(s: seq<byte>): (h: nat)
    ensures h < U32
  {
    if s == [] then FNV_BASIS else FnvStep(Fnv(s[..|s| - 1]), s[|s| - 1])
  }

  /** The constants, and the order of the two operations: undoing the
      multiplication by its inverse, then the exclusive or, gives the byte back. */
  lemma FnvIs(s: seq<byte>, b: byte)
    ensures Fnv([]) == 0x811c_9dc5
    ensures Fnv(s + [b]) < 0x1_0000_0000
    ensures Bits.Xor((Fnv(s + [b]) * 899433627) % 0x1_0000_0000, Fnv(s)) == b
    ensures Fnv(s + [b]) == (Bits.Xor(Fnv(s), b) * 16777619) % 0x1_0000_0000
  {
    hide Fnv;
    FnvSnoc(s, b);
    assert Fnv([]) == 0x811c_9dc5 by { FnvStart(); }
    var x := Bits.Xor(Fnv(s), b);
    Bits.XorFits(Fnv(s), b);
    assert Fnv(s + [b]) == (x * 16777619) % 0x1_0000_0000;
    Unmultiply(x);
    Bits.XorUndo(Fnv(s), b);
  }

  lemma FnvStart()
    ensures Fnv([]) == 0x811c_9dc5
  {
  }

  /** 899433627 is the inverse of the prime. */
  lemma Unmultiply(x: nat)
    requires x < 0x1_0000_0000
    ensures (x * 16777619) % 0x1_0000_0000 * 899433627 % 0x1_0000_0000 == x
  {
    var p := x * 16777619;
    var q, r := p / 0x1_0000_0000, p % 0x1_0000_0000;
    assert r == p - q * 0x1_0000_0000;
    var k := 3513497 * x - q * 899433627;
    assert r * 899433627 == x + k * 0x1_0000_0000;
    Reduce(r * 899433627, k, x);
  }

  lemma Reduce(n: nat, k: int, x: nat)
    requires n == x + k * 0x1_0000_0000 && x < 0x1_0000_0000
    ensures n % 0x1_0000_0000 == x
  {
  }

  /** A recorded change describes a run; bytes after the first n of val are stale. */
  ghost predicate Describes(c: seq<Cell>, r: Run, m: MemChange) {
    && r.from < r.to <= |c|
    && m.start == c[r.from].addr
    && m.n == r.to - r.from
    && m.val[..Min(m.n, 16)] == Nows(c, r.from, r.to)[..Min(m.n, 16)]
    && m.checksum == Fnv(Nows(c, r.from, r.to))
  }

  ghost predicate Described(c: seq<Cell>, rs: seq<Run>, ms: seq<MemChange>) {
    |ms| <= |rs| && forall k :: 0 <= k < |ms| ==> Describes(c, rs[k], ms[k])
  }

  // ---------------------------------------------------------------------
  // Positions of the scan
  // ---------------------------------------------------------------------

  /** Index of the first cell of mapping m. */
  ghost function Base(ms: seq<Mapping>, m: nat): nat
    requires MappingsOk(ms) && m <= |ms|
  {
    |Cells(ms[..m])|
  }

  lemma {:induction false} CellsOfMapping(ms: seq<Mapping>, m: nat)
    requires MappingsOk(ms) && m < |ms|
    ensures Base(ms, m + 1) == Base(ms, m) + |ms[m].val| <= |Cells(ms)|
    ensures forall i :: 0 <= i < |ms[m].val| ==>
      Cells(ms)[Base(ms, m) + i] == MappingCells(ms[m], JoinsPrevious(ms, m))[i]
    decreases |ms|
  {
    hide MappingCells, JoinsPrevious, Cells;
    var k := |ms| - 1;
    CellsSnoc(ms);
    if m == k {
      assert ms[..m + 1] == ms;
    } else {
      CellsOfMapping(ms[..k], m);
      assert ms[..k][..m] == ms[..m] && ms[..k][..m + 1] == ms[..m + 1];
      assert JoinsPrevious(ms[..k], m) == JoinsPrevious(ms, m) by { SamePrevious(ms, k, m); }
    }
  }

  lemma CellsSnoc(ms: seq<Mapping>)
    requires MappingsOk(ms) && ms != []
    ensures var k := |ms| - 1;
      && |MappingCells(ms[k], JoinsPrevious(ms, k))| == |ms[k].val|
      && Cells(ms) == Cells(ms[..k]) + MappingCells(ms[k], JoinsPrevious(ms, k))
  {
    hide JoinsPrevious;
  }

  lemma SamePrevious(ms: seq<Mapping>, k: nat, m: nat)
    requires m < k <= |ms|
    ensures JoinsPrevious(ms[..k], m) == JoinsPrevious(ms, m)
  {
  }

  lemma BaseEnd(ms: seq<Mapping>)
    requires MappingsOk(ms)
    ensures Base(ms, 0) == 0 && Base(ms, |ms|) == |Cells(ms)|
  {
    assert ms[..0] == [] && ms[..|ms|] == ms;
  }

  /** No run continues over an empty mapping. */
  lemma {:induction false} EmptyBreaks(ms: seq<Mapping>, m: nat)
    requires MappingsOk(ms) && m < |ms| && ms[m].val == []
    ensures Stops(Cells(ms), Base(ms, m + 1))
    decreases |ms| - m
  {
    BaseEnd(ms);
    if m + 1 < |ms| {
      CellsOfMapping(ms, m + 1);
      if ms[m + 1].val == [] {
        EmptyBreaks(ms, m + 1);
      } else {
        assert Cells(ms)[Base(ms, m + 1) + 0] == MappingCells(ms[m + 1], JoinsPrevious(ms, m + 1))[0];
      }
    }
  }

  /** The look-ahead at the end of mapping m decides whether a run goes on. */
  lemma Boundary(ms: seq<Mapping>, m: nat)
    requires MappingsOk(ms) && m < |ms| && ms[m].val != []
    ensures !Stops(Cells(ms), Base(ms, m + 1)) <==>
      m + 1 < |ms| && Adjacent(ms[m], ms[m + 1]) && ms[m + 1].val != [] && ms[m + 1].rw[0] != ms[m + 1].val[0]
  {
    hide Cells;
    BaseEnd(ms);
    if m + 1 < |ms| {
      CellsOfMapping(ms, m + 1);
      if ms[m + 1].val == [] {
        EmptyBreaks(ms, m + 1);
      } else {
        assert Cells(ms)[Base(ms, m + 1) + 0] == MappingCells(ms[m + 1], JoinsPrevious(ms, m + 1))[0];
      }
    }
  }

  // ---------------------------------------------------------------------
  // The scan
  // ---------------------------------------------------------------------

  /** memcmp_common_prefix: chunks of 512 first, then byte by byte. */
  method CommonPrefix(a: seq<byte>, b: seq<byte>) returns (i: nat)
    requires |a| == |b|
    ensures i <= |a|
    ensures forall k :: 0 <= k < i ==> a[k] == b[k]
    ensures i < |a| ==> a[i] != b[i]
  {
    i := 0;
    var n := |a|;
    while n - i >= 512
      invariant i <= n
      invariant forall k :: 0 <= k < i ==> a[k] == b[k]
    {
      if a[i..i + 512] == b[i..i + 512] {
        assert forall k :: i <= k < i + 512 ==> a[k] == a[i..i + 512][k - i] == b[i..i + 512][k - i] == b[k];
        i := i + 512;
      } else {
        break;
      }
    }
    while i < n && a[i] == b[i]
      invariant i <= n
      invariant forall k :: 0 <= k < i ==> a[k] == b[k]
    {
      i := i + 1;
    }
  }

  /** The locals of the scan: is a range open, its start, captured bytes,
      length and checksum, and the changes recorded so far. */
  datatype Acc = Acc(started: bool, start: nat, val: Capture, len: nat, sum: nat, changes: seq<MemChange>)

  /** An open range covers cells [a, p) of one run and its accumulators agree. */
  ghost predicate Open(c: seq<Cell>, a: nat, p: nat, acc: Acc) {
    && a <= p <= |c|
    && (forall k :: a <= k < p ==> Differs(c[k]))
    && (forall k :: a < k < p ==> c[k].joined)
    && acc.started && acc.len == p - a
    && acc.val[..Cap(acc.len)] == Nows(c, a, p)[..Cap(acc.len)]
    && acc.sum == Fnv(Nows(c, a, p))
  }

  /** The accumulators after one more byte. */
  function Absorb(acc: Acc, b: byte): Acc
    requires acc.sum < U32
  {
    acc.(val := if acc.len < CUT_AT then acc.val[acc.len := b] else acc.val,
         len := acc.len + 1,
         sum := FnvStep(acc.sum, b))
  }

  lemma OpenStep(c: seq<Cell>, a: nat, p: nat, acc: Acc)
    requires Open(c, a, p, acc) && p < |c| && Differs(c[p]) && (p > a ==> c[p].joined)
    ensures acc.sum < U32
    ensures Open(c, a, p + 1, Absorb(acc, c[p].now))
  {
    hide Fnv;
    var s, s', b := Nows(c, a, p), Nows(c, a, p + 1), c[p].now;
    assert s' == s + [b];
    FnvSnoc(s, b);
    CaptureStep(acc.val, s, b);
  }

  lemma FnvSnoc(s: seq<byte>, b: byte)
    ensures Fnv(s + [b]) == FnvStep(Fnv(s), b)
  {
    assert (s + [b])[..|s|] == s;
  }

  /** One more byte in the capture buffer keeps it equal to the captured prefix. */
  lemma CaptureStep(val: Capture, s: seq<byte>, b: byte)
    requires val[..Cap(|s|)] == s[..Cap(|s|)]
    ensures var val' := if |s| < CUT_AT then val[|s| := b] else val;
      val'[..Cap(|s| + 1)] == (s + [b])[..Cap(|s| + 1)]
  {
    if |s| < CUT_AT {
      assert val[|s| := b][..|s| + 1] == val[..|s|] + [b];
      assert s[..|s|] == s;
    } else {
      assert (s + [b])[..CUT_AT] == s[..CUT_AT];
    }
  }

  /** The cells from base on are those of the mapping. */
  ghost predicate CellsAt(c: seq<Cell>, base: nat, mp: Mapping, joined: bool)
    requires |mp.val| == |mp.rw|
  {
    base + |mp.val| <= |c| && c[base..base + |mp.val|] == MappingCells(mp, joined)
  }

  lemma CellOf(c: seq<Cell>, base: nat, mp: Mapping, joined: bool, i: nat)
    requires |mp.val| == |mp.rw| && CellsAt(c, base, mp, joined) && i < |mp.val|
    ensures base + i < |c| && c[base + i] == Cell((mp.start + i) % U64, mp.val[i], mp.rw[i], i > 0 || joined)
  {
    assert c[base..base + |mp.val|][i] == c[base + i];
  }

  lemma CellsAtBase(ms: seq<Mapping>, m: nat)
    requires MappingsOk(ms) && m < |ms|
    ensures CellsAt(Cells(ms), Base(ms, m), ms[m], JoinsPrevious(ms, m))
    ensures Base(ms, m + 1) == Base(ms, m) + |ms[m].val| <= |Cells(ms)|
  {
    hide Cells;
    CellsOfMapping(ms, m);
    var c, b := Cells(ms), Base(ms, m);
    forall i | 0 <= i < |ms[m].val|
      ensures c[b..b + |ms[m].val|][i] == MappingCells(ms[m], JoinsPrevious(ms, m))[i]
    {
      assert c[b + i] == MappingCells(ms[m], JoinsPrevious(ms, m))[i];
    }
  }

  /** Consume differing bytes of a mapping. */
  method ConsumeDiff(mp: Mapping, i0: nat, acc0: Acc, ghost c: seq<Cell>, ghost base: nat, ghost joined: bool, ghost a: nat)
    returns (i: nat, acc: Acc)
    requires |mp.val| == |mp.rw| && i0 < |mp.val| && mp.rw[i0] != mp.val[i0]
    requires CellsAt(c, base, mp, joined) && Open(c, a, base + i0, acc0)
    requires base + i0 > a ==> i0 > 0 || joined
    ensures i0 < i <= |mp.val|
    ensures i < |mp.val| ==> mp.rw[i] == mp.val[i]
    ensures Open(c, a, base + i, acc)
    ensures acc.start == acc0.start && acc.changes == acc0.changes
  {
    hide Open, CellsAt, Absorb;
    i, acc := i0, acc0;
    while i < |mp.val| && mp.rw[i] != mp.val[i]
      invariant i0 <= i <= |mp.val|
      invariant i == i0 ==> mp.rw[i] != mp.val[i]
      invariant base + i > a ==> i > 0 || joined
      invariant Open(c, a, base + i, acc)
      invariant acc.start == acc0.start && acc.changes == acc0.changes
    {
      CellOf(c, base, mp, joined, i);
      OpenStep(c, a, base + i, acc);
      assert Absorb(acc, mp.rw[i]).start == acc.start && Absorb(acc, mp.rw[i]).changes == acc.changes by { AbsorbKeeps(acc, mp.rw[i]); }
      acc := Absorb(acc, mp.rw[i]);
      i := i + 1;
    }
  }

  lemma AbsorbKeeps(acc: Acc, b: byte)
    requires acc.sum < U32
    ensures Absorb(acc, b).start == acc.start && Absorb(acc, b).changes == acc.changes
  {
  }

  /** Where the scan stands at cell p: what is recorded so far describes the
      first runs, and the remaining ones start at p, or at a for an open range. */
  ghost predicate Tracks(c: seq<Cell>, cap: nat, p: nat, acc: Acc, a: nat) {
    && |acc.changes| < cap && Described(c, Runs(c, 0), acc.changes)
    && p <= |c|
    && (if acc.started then
          && a < |c| && Differs(c[a]) && Open(c, a, p, acc)
          && acc.start == c[a].addr
          && Runs(c, a) == Runs(c, 0)[|acc.changes|..]
        else Runs(c, p) == Runs(c, 0)[|acc.changes|..])
  }

  /** An open range is carried into mapping m only if the run goes on there. */
  ghost predicate Carry(ms: seq<Mapping>, m: nat, acc: Acc, a: nat)
    requires MappingsOk(ms) && m <= |ms|
  {
    acc.started ==>
      && a < Base(ms, m) && !Stops(Cells(ms), Base(ms, m))
      && m < |ms| && ms[m].val != [] && ms[m].rw[0] != ms[m].val[0] && JoinsPrevious(ms, m)
  }

  /** Equal bytes can be skipped. */
  lemma {:induction false} SkipEqual(c: seq<Cell>, p: nat, q: nat)
    requires p <= q <= |c|
    requires forall k :: p <= k < q ==> !Differs(c[k])
    ensures Runs(c, p) == Runs(c, q)
    decreases q - p
  {
    if p < q {
      SkipEqual(c, p + 1, q);
    }
  }

  lemma {:induction false} RunEndIs(c: seq<Cell>, b: nat, p: nat)
    requires b <= p <= |c| && Stops(c, p)
    requires forall k :: b <= k < p ==> !Stops(c, k)
    ensures RunEnd(c, b) == p
    decreases p - b
  {
    if b < p {
      RunEndIs(c, b + 1, p);
    }
  }

  /** Skip equal bytes; at a differing byte open a range. */
  method SkipAndStart(mp: Mapping, i0: nat, acc0: Acc, ghost c: seq<Cell>, ghost base: nat, ghost joined: bool, ghost cap: nat)
    returns (i: nat, acc: Acc)
    requires |mp.val| == |mp.rw| && i0 <= |mp.val| && CellsAt(c, base, mp, joined)
    requires !acc0.started && Tracks(c, cap, base + i0, acc0, 0)
    ensures i0 <= i <= |mp.val|
    ensures Tracks(c, cap, base + i, acc, base + i)
    ensures acc.started <==> i < |mp.val|
    ensures i < |mp.val| ==> mp.rw[i] != mp.val[i]
  {
    hide CellsAt, Described, Runs;
    var eq := CommonPrefix(mp.rw[i0..], mp.val[i0..]);
    i, acc := i0 + eq, acc0;
    forall k | base + i0 <= k < base + i
      ensures k < |c| && !Differs(c[k])
    {
      var j := k - base;
      CellOf(c, base, mp, joined, j);
      assert mp.rw[j] == mp.rw[i0..][j - i0] == mp.val[i0..][j - i0] == mp.val[j];
    }
    assert base + i <= |c| by { CellsAtBound(c, base, mp, joined); }
    SkipEqual(c, base + i0, base + i);
    if i < |mp.val| {
      assert mp.rw[i] == mp.rw[i0..][eq] && mp.val[i] == mp.val[i0..][eq];
      CellOf(c, base, mp, joined, i);
      acc := acc.(started := true, start := (mp.start + i) % U64, len := 0, sum := FNV_BASIS);
    }
  }

  lemma CellsAtBound(c: seq<Cell>, base: nat, mp: Mapping, joined: bool)
    requires |mp.val| == |mp.rw| && CellsAt(c, base, mp, joined)
    ensures base + |mp.val| <= |c|
  {
  }

  /** Flushing a finished range records the next run. */
  lemma Flush(c: seq<Cell>, cap: nat, p: nat, acc: Acc, a: nat)
    requires Tracks(c, cap, p, acc, a) && acc.started
    requires a < p && Stops(c, p)
    ensures var changes' := acc.changes + [MemChange(acc.start, acc.len, acc.val, acc.sum)];
      && Described(c, Runs(c, 0), changes')
      && (|changes'| < cap ==> Tracks(c, cap, p, acc.(changes := changes', started := false), a))
  {
    hide Fnv, Nows;
    var rs := Runs(c, 0);
    var changes' := acc.changes + [MemChange(acc.start, acc.len, acc.val, acc.sum)];
    RunEndIs(c, a + 1, p);
    assert Runs(c, a) == [Run(a, p)] + Runs(c, p);
    assert rs[|acc.changes|] == rs[|acc.changes|..][0] == Run(a, p);
    assert rs[|acc.changes| + 1..] == rs[|acc.changes|..][1..];
    assert Describes(c, Run(a, p), changes'[|acc.changes|]);
  }

  /** The scan of one mapping, with a look at the next one of the list. */
  method ScanMapping(mapping: Mapping, next: Option<Mapping>, cap: nat, acc0: Acc,
                     ghost ms: seq<Mapping>, ghost m: nat, ghost a0: nat)
    returns (acc: Acc, endLogging: bool, ghost a: nat)
    requires MappingsOk(ms) && m < |ms| && mapping == ms[m]
    requires next == if m + 1 < |ms| then Some(ms[m + 1]) else None
    requires Tracks(Cells(ms), cap, Base(ms, m), acc0, a0) && Carry(ms, m, acc0, a0)
    ensures endLogging ==> |acc.changes| == cap && Described(Cells(ms), Runs(Cells(ms), 0), acc.changes)
    ensures !endLogging ==> Tracks(Cells(ms), cap, Base(ms, m + 1), acc, a) && Carry(ms, m + 1, acc, a)
  {
    hide Cells, Runs, Described, CellsAt, Adjacent, Base, Tracks, Open, Stops;
    ghost var c, base, joined := Cells(ms), Base(ms, m), JoinsPrevious(ms, m);
    CellsAtBase(ms, m);
    acc, a, endLogging := acc0, a0, false;
    var i: nat := 0;
    while i < |mapping.val|
      invariant i <= |mapping.val|
      invariant Tracks(c, cap, base + i, acc, a)
      invariant acc.started ==> i == 0 && a < base && mapping.val != [] && mapping.rw[0] != mapping.val[0] && joined
      decreases |mapping.val| - i
    {
      if !acc.started {
        ClosedAnywhere(c, cap, base + i, acc, a, 0);
        i, acc := SkipAndStart(mapping, i, acc, c, base, joined, cap);
        a := base + i;
        if i >= |mapping.val| { break; }
      }
      ghost var p := base + i;
      TracksOpen(c, cap, p, acc, a);
      ghost var before := acc;
      i, acc := ConsumeDiff(mapping, i, acc, c, base, joined, a);
      TracksOn(c, cap, p, before, base + i, acc, a);
      if i < |mapping.val| {
        StopsAtEqual(c, base, mapping, joined, i);
      } else {
        Boundary(ms, m);
        if next.Some? && Adjacent(mapping, next.value) && |next.value.val| > 0 && next.value.rw[0] != next.value.val[0] {
          // Keep the range open across the boundary.
          break;
        }
      }
      Flush(c, cap, base + i, acc, a);
      acc := acc.(changes := acc.changes + [MemChange(acc.start, acc.len, acc.val, acc.sum)], started := false);
      if |acc.changes| >= cap {
        endLogging := true;
        break;
      }
    }
  }

  lemma StopsAtEqual(c: seq<Cell>, base: nat, mp: Mapping, joined: bool, i: nat)
    requires |mp.val| == |mp.rw| && CellsAt(c, base, mp, joined) && i < |mp.val| && mp.rw[i] == mp.val[i]
    ensures Stops(c, base + i)
  {
    CellOf(c, base, mp, joined, i);
  }

  lemma ClosedAnywhere(c: seq<Cell>, cap: nat, p: nat, acc: Acc, a: nat, a': nat)
    requires Tracks(c, cap, p, acc, a) && !acc.started
    ensures Tracks(c, cap, p, acc, a')
  {
  }

  lemma TracksOpen(c: seq<Cell>, cap: nat, p: nat, acc: Acc, a: nat)
    requires Tracks(c, cap, p, acc, a) && acc.started
    ensures Open(c, a, p, acc) && a <= p
  {
  }

  lemma TracksOn(c: seq<Cell>, cap: nat, p: nat, acc: Acc, p': nat, acc': Acc, a: nat)
    requires Tracks(c, cap, p, acc, a) && acc.started && p < p'
    requires Open(c, a, p', acc') && acc'.start == acc.start && acc'.changes == acc.changes
    ensures Tracks(c, cap, p', acc', a) && acc'.started && a < p'
  {
  }

  /** The scan over the given mappings followed by the automatic ones. */
  method Scan(mappings: seq<Mapping>, autoMappings: seq<Mapping>, cap: nat, stale: Capture)
    returns (changes: seq<MemChange>)
    requires MappingsOk(mappings + autoMappings)
    requires 0 < cap
    ensures var c := Cells(mappings + autoMappings);
      && Described(c, Runs(c, 0), changes)
      && |changes| == Min(cap, |Runs(c, 0)|)
  {
    hide Cells, Runs, Open, Described, Stops;
    ghost var ms := mappings + autoMappings;
    ghost var c := Cells(ms);
    var acc := Acc(false, 0, stale, 0, 0, []);
    var endLogging := false;
    ghost var a: nat := 0;
    BaseEnd(ms);
    assert Described(c, Runs(c, 0), []) by { NothingDescribed(c); }
    assert Runs(c, 0)[0..] == Runs(c, 0);
    var total := |mappings| + |autoMappings|;
    for m := 0 to total
      invariant endLogging ==> |acc.changes| == cap && Described(c, Runs(c, 0), acc.changes)
      invariant !endLogging ==> Tracks(c, cap, Base(ms, m), acc, a) && Carry(ms, m, acc, a)
    {
      if endLogging {
        break;
      }
      var mapping := if m < |mappings| then mappings[m] else autoMappings[m - |mappings|];
      var next := if m + 1 < |mappings| then Some(mappings[m + 1])
                  else if m + 1 < total then Some(autoMappings[m + 1 - |mappings|]) else None;
      acc, endLogging, a := ScanMapping(mapping, next, cap, acc, ms, m, a);
    }
    if acc.started && !endLogging {
      // The flush behind the loops is never reached.
      assert false;
    }
    changes := acc.changes;
    assert |changes| == Min(cap, |Runs(c, 0)|) by { Complete(c, changes, cap, endLogging); }
  }

  lemma NothingDescribed(c: seq<Cell>)
    ensures Described(c, Runs(c, 0), [])
  {
  }

  lemma Complete(c: seq<Cell>, changes: seq<MemChange>, cap: nat, full: bool)
    requires Described(c, Runs(c, 0), changes)
    requires full ==> |changes| == cap
    requires !full ==> |changes| < cap && Runs(c, |c|) == Runs(c, 0)[|changes|..]
    ensures |changes| == Min(cap, |Runs(c, 0)|)
  {
  }

  // ---------------------------------------------------------------------
  // What equal change lists say about memory
  // ---------------------------------------------------------------------

  /** Same mappings with the same initial contents. */
  predicate SameInitial(a: seq<Mapping>, b: seq<Mapping>) {
    |a| == |b| && forall m :: 0 <= m < |a| ==> a[m].start == b[m].start && a[m].val == b[m].val
  }

  /** Same cells except for their current bytes. */
  ghost predicate SameLayout(c: seq<Cell>, d: seq<Cell>) {
    |c| == |d| && forall k :: 0 <= k < |c| ==> d[k] == c[k].(now := d[k].now)
  }

  /** No address occurs twice. */
  ghost predicate DistinctAddresses(c: seq<Cell>) {
    forall i, j :: 0 <= i < j < |c| ==> c[i].addr != c[j].addr
  }

  lemma {:induction false} LayoutsMatch(a: seq<Mapping>, b: seq<Mapping>)
    requires MappingsOk(a) && MappingsOk(b) && SameInitial(a, b)
    ensures SameLayout(Cells(a), Cells(b))
  {
    if a != [] {
      var k := |a| - 1;
      LayoutsMatch(a[..k], b[..k]);
      assert JoinsPrevious(a, k) == JoinsPrevious(b, k);
      assert a[k].start == b[k].start && a[k].val == b[k].val;
      AppendLayouts(Cells(a[..k]), Cells(b[..k]), MappingCells(a[k], JoinsPrevious(a, k)), MappingCells(b[k], JoinsPrevious(a, k)));
    }
  }

  lemma AppendLayouts(a: seq<Cell>, b: seq<Cell>, a': seq<Cell>, b': seq<Cell>)
    requires SameLayout(a, b) && SameLayout(a', b')
    ensures SameLayout(a + a', b + b')
  {
  }

  /** Pairwise mem_change_equal. */
  ghost predicate ListsEqual(x: seq<MemChange>, y: seq<MemChange>) {
    |x| == |y| && forall k :: 0 <= k < |x| ==> MemChangeEqual(x[k], y[k])
  }

  /** Equal memories always give equal lists, whatever stale bytes the two
      capture buffers held and even when the list was cut off. */
  lemma EqualMemoryEqualLists(ms: seq<Mapping>, x: seq<MemChange>, y: seq<MemChange>)
    requires MappingsOk(ms)
    requires Described(Cells(ms), Runs(Cells(ms), 0), x) && Described(Cells(ms), Runs(Cells(ms), 0), y)
    requires |x| == |y|
    ensures ListsEqual(x, y)
  {
    hide Cells, Runs, Nows, Fnv;
    var c := Cells(ms);
    var rs := Runs(c, 0);
    forall k | 0 <= k < |x|
      ensures MemChangeEqual(x[k], y[k])
    {
      assert Describes(c, rs[k], x[k]) && Describes(c, rs[k], y[k]);
    }
  }

  /** Equal complete lists name the same runs. */
  lemma SameRuns(c: seq<Cell>, d: seq<Cell>, x: seq<MemChange>, y: seq<MemChange>, k: nat)
    requires SameLayout(c, d) && DistinctAddresses(c)
    requires Described(c, Runs(c, 0), x) && Described(d, Runs(d, 0), y) && ListsEqual(x, y)
    requires k < |x|
    ensures Runs(c, 0)[k] == Runs(d, 0)[k]
  {
    hide Runs, Nows, Fnv;
    var r, q := Runs(c, 0)[k], Runs(d, 0)[k];
    assert Describes(c, r, x[k]) && Describes(d, q, y[k]) && MemChangeEqual(x[k], y[k]);
    assert c[r.from].addr == d[q.from].addr == c[q.from].addr;
  }

  /** Conversely, complete lists without runs longer than the capture buffer
      determine the final memory. */
  lemma EqualListsEqualCells(c: seq<Cell>, d: seq<Cell>, x: seq<MemChange>, y: seq<MemChange>)
    requires SameLayout(c, d) && DistinctAddresses(c)
    requires Described(c, Runs(c, 0), x) && Described(d, Runs(d, 0), y) && ListsEqual(x, y)
    requires |x| == |Runs(c, 0)| && |y| == |Runs(d, 0)|
    requires forall k :: 0 <= k < |x| ==> x[k].n <= 16
    ensures c == d
  {
    hide Runs, Fnv, Describes, Maximal;
    RunsAreMaximal(c, 0);
    RunsAreMaximal(d, 0);
    var rs := Runs(c, 0);
    assert rs == Runs(d, 0) by {
      forall k | 0 <= k < |x|
        ensures rs[k] == Runs(d, 0)[k]
      {
        SameRuns(c, d, x, y, k);
      }
    }
    forall k | 0 <= k < |c|
      ensures c[k] == d[k]
    {
      if Differs(c[k]) || Differs(d[k]) {
        assert InSome(rs, k);
        var i :| 0 <= i < |rs| && rs[i].from <= k < rs[i].to;
        SameByte(c, d, rs[i], x[i], y[i], k);
      }
    }
  }

  lemma SameByte(c: seq<Cell>, d: seq<Cell>, r: Run, x: MemChange, y: MemChange, k: nat)
    requires SameLayout(c, d) && Describes(c, r, x) && Describes(d, r, y) && MemChangeEqual(x, y)
    requires x.n <= 16 && r.from <= k < r.to
    ensures c[k] == d[k]
  {
    hide Fnv;
    var j := k - r.from;
    assert Nows(c, r.from, r.to)[..x.n][j] == x.val[..x.n][j] == y.val[..x.n][j] == Nows(d, r.from, r.to)[..x.n][j];
    assert Nows(c, r.from, r.to)[j] == c[r.from + j].now && Nows(d, r.from, r.to)[j] == d[r.from + j].now;
  }

  lemma CellsDetermineMemory(a: seq<Mapping>, b: seq<Mapping>)
    requires MappingsOk(a) && MappingsOk(b) && SameInitial(a, b) && Cells(a) == Cells(b)
    ensures a == b
  {
    hide Cells;
    forall m | 0 <= m < |a|
      ensures a[m] == b[m]
    {
      SameBase(a, b, m);
      CellsOfMapping(a, m);
      CellsOfMapping(b, m);
      forall i | 0 <= i < |a[m].rw|
        ensures a[m].rw[i] == b[m].rw[i]
      {
        assert Cells(a)[Base(a, m) + i] == MappingCells(a[m], JoinsPrevious(a, m))[i];
        assert Cells(b)[Base(b, m) + i] == MappingCells(b[m], JoinsPrevious(b, m))[i];
      }
      assert a[m].rw == b[m].rw;
      assert a[m] == Mapping(a[m].start, a[m].val, a[m].rw) == b[m];
    }
  }

  lemma {:induction false} SameBase(a: seq<Mapping>, b: seq<Mapping>, m: nat)
    requires MappingsOk(a) && MappingsOk(b) && SameInitial(a, b) && m <= |a|
    ensures Base(a, m) == Base(b, m)
  {
    hide Cells;
    BaseEnd(a);
    BaseEnd(b);
    if m > 0 {
      SameBase(a, b, m - 1);
      CellsOfMapping(a, m - 1);
      CellsOfMapping(b, m - 1);
    }
  }

  /** For the same mappings and initial contents at distinct addresses: two
      complete scans with no run over 16 bytes compare equal exactly when
      the final memories are equal. */
  lemma EqualListsIffEqualMemory(a: seq<Mapping>, b: seq<Mapping>, x: seq<MemChange>, y: seq<MemChange>)
    requires MappingsOk(a) && MappingsOk(b) && SameInitial(a, b) && DistinctAddresses(Cells(a))
    requires Described(Cells(a), Runs(Cells(a), 0), x) && |x| == |Runs(Cells(a), 0)|
    requires Described(Cells(b), Runs(Cells(b), 0), y) && |y| == |Runs(Cells(b), 0)|
    requires forall k :: 0 <= k < |x| ==> x[k].n <= 16
    ensures ListsEqual(x, y) <==> a == b
  {
    hide Cells, Runs, Described, ListsEqual;
    if a == b {
      EqualMemoryEqualLists(a, x, y);
    }
    if ListsEqual(x, y) {
      LayoutsMatch(a, b);
      EqualListsEqualCells(Cells(a), Cells(b), x, y);
      CellsDetermineMemory(a, b);
    }
  }
}
