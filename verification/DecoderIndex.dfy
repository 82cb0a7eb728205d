/**
 The instruction decoder: a hash index over a subset of the opcode bits, and
 the proof that it decodes like a scan for the most specific pattern.
 */
module DecoderIndex {
  import opened Bytes

  /** A 32-bit word. */
  datatype Word = Word(v: bv32)

  const ZERO := Word(0)

  /** An instruction encoding: fixed bits (mask) and their values. */
  datatype Pattern = Pattern(name: string, mask: Word, value: Word)

  /** The bits of a word that a mask keeps. */
  function Under(w: Word, mask: Word): Word {
    Word(w.v & mask.v)
  }

  predicate Matches(p: Pattern, w: Word) {
    Under(w, p.mask) == p.value
  }

  /** gen_combined_mask asserts that values only use mask bits. */
  predicate WellFormed(ps: seq<Pattern>) {
    forall i :: 0 <= i < |ps| ==> Under(ps[i].value, ps[i].mask) == ps[i].value
  }

  function Bit(b: nat): Word
    requires b < 32
  {
    Word((1 as bv32) << b)
  }

  function Shr1(x: Word): Word {
    Word(x.v >> 1)
  }

  /** Is bit b set? */
  predicate HasBit(x: Word, b: nat)
    decreases b
  {
    if b == 0 then x.v & 1 == 1 else HasBit(Shr1(x), b - 1)
  }

  /** Number of set bits among the lowest k. */
  function CountBits(m: Word, k: nat): nat {
    if k == 0 then 0 else CountBits(m, k - 1) + if HasBit(m, k - 1) then 1 else 0
  }

  function BitCount(m: Word): nat {
    CountBits(m, 32)
  }

  // ---------------------------------------------------------------------
  // Index bits
  // ---------------------------------------------------------------------

  predicate ValidBits(bits: seq<nat>) {
    forall i :: 0 <= i < |bits| ==> bits[i] < 32
  }

  function AbsMask(bits: seq<nat>): Word
    requires ValidBits(bits)
  {
    if bits == [] then ZERO else OrWord(AbsMask(bits[1..]), Bit(bits[0]))
  }

  /** All numbers whose set bits are among the given positions. */
  function Combinations(bits: seq<nat>): (cs: seq<Word>)
    requires ValidBits(bits)
    ensures cs != []
  {
    if bits == [] then [ZERO]
    else
      var rest := Combinations(bits[1..]);
      rest + WithBit(rest, Bit(bits[0]))
  }

  function WithBit(cs: seq<Word>, b: Word): (r: seq<Word>)
    ensures |r| == |cs|
    ensures forall i :: 0 <= i < |cs| ==> r[i] == OrWord(cs[i], b)
  {
    if cs == [] then [] else [OrWord(cs[0], b)] + WithBit(cs[1..], b)
  }

  function OrWord(x: Word, b: Word): Word {
    Word(x.v | b.v)
  }

  function Without(x: Word, b: Word): Word {
    Word(x.v & !b.v)
  }

  predicate OneBit(t: Word) {
    t.v & (t.v - 1) == 0
  }

  lemma OneHot(b: nat)
    requires b < 32
    ensures OneBit(Bit(b))
  {
  }

  lemma SplitOff(x: Word, t: Word, r: Word)
    requires OneBit(t) && Under(x, OrWord(r, t)) == x
    ensures Under(Without(x, t), r) == Without(x, t)
    ensures x == Without(x, t) || x == OrWord(Without(x, t), t)
  {
  }

  /** Every number below the index mask is one of the combinations. */
  lemma {:induction false} CombinationsComplete(bits: seq<nat>, x: Word)
    requires ValidBits(bits) && Under(x, AbsMask(bits)) == x
    ensures x in Combinations(bits)
  {
    hide Under, OrWord, Without, Bit, OneBit;
    if bits == [] {
      NoBits(x);
    } else {
      var t, r := Bit(bits[0]), AbsMask(bits[1..]);
      OneHot(bits[0]);
      SplitOff(x, t, r);
      CombinationsComplete(bits[1..], Without(x, t));
      InWithBit(Combinations(bits[1..]), t, Without(x, t));
    }
  }

  lemma InWithBit(cs: seq<Word>, b: Word, y: Word)
    requires y in cs
    ensures y in cs + WithBit(cs, b) && OrWord(y, b) in cs + WithBit(cs, b)
  {
    hide OrWord;
    var i :| 0 <= i < |cs| && cs[i] == y;
    assert WithBit(cs, b)[i] == OrWord(y, b);
    assert (cs + WithBit(cs, b))[|cs| + i] == OrWord(y, b);
  }

  lemma NoBits(x: Word)
    requires Under(x, ZERO) == x
    ensures x == ZERO
  {
  }

  /** A word falls into a bucket that its pattern was entered in. */
  lemma MatchReaches(p: Pattern, w: Word, abs: Word)
    requires Under(p.value, p.mask) == p.value && Matches(p, w)
    ensures Slot(p, Under(w, abs), abs) == Under(w, abs)
    ensures Under(Under(w, abs), abs) == Under(w, abs)
  {
  }

  // ---------------------------------------------------------------------
  // Rows and buckets
  // ---------------------------------------------------------------------

  /** All values known for one mask within a bucket. */
  datatype Row = Row(mask: Word, names: map<Word, string>)

  type Table = map<Word, seq<Row>>

  function AddRow(rows: seq<Row>, p: Pattern): seq<Row> {
    if rows == [] then [Row(p.mask, map[p.value := p.name])]
    else if rows[0].mask == p.mask then [Row(p.mask, rows[0].names[p.value := p.name])] + rows[1..]
    else [rows[0]] + AddRow(rows[1..], p)
  }

  function Bucket(t: Table, m: Word): seq<Row> {
    if m in t then t[m] else []
  }

  /** The bucket that combination c puts a pattern in. */
  function Slot(p: Pattern, c: Word, abs: Word): Word {
    Under(OrWord(p.value, Without(c, p.mask)), abs)
  }

  function AddTo(t: Table, p: Pattern, c: Word, abs: Word): Table {
    t[Slot(p, c, abs) := AddRow(Bucket(t, Slot(p, c, abs)), p)]
  }

  function AddAll(t: Table, p: Pattern, cs: seq<Word>, abs: Word): Table {
    if cs == [] then t else AddTo(AddAll(t, p, cs[..|cs| - 1], abs), p, cs[|cs| - 1], abs)
  }

  /** The index over a list of patterns. */
  function Build(ps: seq<Pattern>, cs: seq<Word>, abs: Word): Table {
    if ps == [] then map[] else AddAll(Build(ps[..|ps| - 1], cs, abs), ps[|ps| - 1], cs, abs)
  }

  /** Ahead of all rows that are not more specific, as sorting by bit count
      and reversing does. */
  function InsertRow(r: Row, rows: seq<Row>): seq<Row> {
    if rows == [] || BitCount(rows[0].mask) <= BitCount(r.mask) then [r] + rows
    else [rows[0]] + InsertRow(r, rows[1..])
  }

  function SortRows(rows: seq<Row>): seq<Row> {
    if rows == [] then [] else InsertRow(rows[|rows| - 1], SortRows(rows[..|rows| - 1]))
  }

  /** The first row that knows the word's value under its mask. */
  function Search(rows: seq<Row>, w: Word): Option<string> {
    if rows == [] then None
    else if Under(w, rows[0].mask) in rows[0].names then Some(rows[0].names[Under(w, rows[0].mask)])
    else Search(rows[1..], w)
  }

  // ---------------------------------------------------------------------
  // What a bucket holds
  // ---------------------------------------------------------------------

  ghost predicate MasksDistinct(rows: seq<Row>) {
    forall i, j :: 0 <= i < j < |rows| ==> rows[i].mask != rows[j].mask
  }

  /** The name stored for a mask and value. */
  ghost function Stored(rows: seq<Row>, mask: Word, value: Word): Option<string> {
    if rows == [] then None
    else if rows[0].mask == mask then (if value in rows[0].names then Some(rows[0].names[value]) else None)
    else Stored(rows[1..], mask, value)
  }

  lemma {:induction false} AddRowStores(rows: seq<Row>, p: Pattern, mask: Word, value: Word)
    ensures Stored(AddRow(rows, p), mask, value)
      == if mask == p.mask && value == p.value then Some(p.name) else Stored(rows, mask, value)
  {
    var r := AddRow(rows, p);
    if rows != [] && rows[0].mask != p.mask {
      AddRowStores(rows[1..], p, mask, value);
      assert r[1..] == AddRow(rows[1..], p);
    } else if rows != [] {
      assert r[1..] == rows[1..];
    } else {
      assert r[1..] == [] && Stored([], mask, value) == None;
    }
  }

  /** Adding a row brings in no mask but the pattern's. */
  lemma {:induction false} AddRowMasks(rows: seq<Row>, p: Pattern, i: nat)
    requires i < |AddRow(rows, p)|
    ensures AddRow(rows, p)[i].mask == p.mask || exists j :: 0 <= j < |rows| && rows[j].mask == AddRow(rows, p)[i].mask
  {
    if rows != [] && i > 0 && rows[0].mask != p.mask {
      var rest := rows[1..];
      AddRowMasks(rest, p, i - 1);
      if AddRow(rest, p)[i - 1].mask != p.mask {
        var j :| 0 <= j < |rest| && rest[j].mask == AddRow(rest, p)[i - 1].mask;
        assert rows[j + 1] == rest[j];
      }
    }
  }

  lemma {:induction false} AddRowDistinct(rows: seq<Row>, p: Pattern)
    requires MasksDistinct(rows)
    ensures MasksDistinct(AddRow(rows, p))
  {
    if rows != [] && rows[0].mask != p.mask {
      var tail := rows[1..];
      var rest := AddRow(tail, p);
      AddRowDistinct(tail, p);
      forall i | 0 <= i < |rest|
        ensures rest[i].mask != rows[0].mask
      {
        AddRowMasks(tail, p, i);
        if rest[i].mask != p.mask {
          var j :| 0 <= j < |tail| && tail[j].mask == rest[i].mask;
          assert rows[j + 1] == tail[j];
        }
      }
      DistinctCons(rows[0], rest);
    }
  }

  lemma DistinctCons(r: Row, rest: seq<Row>)
    requires MasksDistinct(rest) && forall i :: 0 <= i < |rest| ==> rest[i].mask != r.mask
    ensures MasksDistinct([r] + rest)
  {
    var all := [r] + rest;
    forall i, j | 0 <= i < j < |all|
      ensures all[i].mask != all[j].mask
    {
      assert all[j] == rest[j - 1];
      if i > 0 { assert all[i] == rest[i - 1]; }
    }
  }

  /** The pattern is entered in bucket m by some combination. */
  ghost predicate Reaches(p: Pattern, cs: seq<Word>, abs: Word, m: Word) {
    exists i :: 0 <= i < |cs| && Slot(p, cs[i], abs) == m
  }

  lemma ReachesOne(p: Pattern, cs: seq<Word>, abs: Word, m: Word)
    requires cs != []
    ensures Reaches(p, cs, abs, m) <==> Reaches(p, cs[..|cs| - 1], abs, m) || Slot(p, cs[|cs| - 1], abs) == m
  {
    hide Slot;
    var k := |cs| - 1;
    if Reaches(p, cs[..k], abs, m) {
      var i :| 0 <= i < k && Slot(p, cs[..k][i], abs) == m;
      assert Slot(p, cs[i], abs) == m;
    }
    if Reaches(p, cs, abs, m) {
      var i :| 0 <= i < |cs| && Slot(p, cs[i], abs) == m;
      if i < k { assert Slot(p, cs[..k][i], abs) == m; }
    }
  }

  lemma NoneReach(p: Pattern, abs: Word, m: Word)
    ensures !Reaches(p, [], abs, m)
  {
  }

  lemma {:induction false} AddAllStores(t: Table, p: Pattern, cs: seq<Word>, abs: Word, m: Word, mask: Word, value: Word)
    ensures Stored(Bucket(AddAll(t, p, cs, abs), m), mask, value)
      == if mask == p.mask && value == p.value && Reaches(p, cs, abs, m) then Some(p.name) else Stored(Bucket(t, m), mask, value)
  {
    hide Slot, AddRow, Stored, Reaches;
    if cs == [] {
      NoneReach(p, abs, m);
    } else {
      var k := |cs| - 1;
      AddAllStores(t, p, cs[..k], abs, m, mask, value);
      var t' := AddAll(t, p, cs[..k], abs);
      AddRowStores(Bucket(t', m), p, mask, value);
      ReachesOne(p, cs, abs, m);
      var z := Slot(p, cs[k], abs);
      assert AddAll(t, p, cs, abs) == t'[z := AddRow(Bucket(t', z), p)];
      assert m != z ==> Bucket(AddAll(t, p, cs, abs), m) == Bucket(t', m);
    }
  }

  lemma {:induction false} AddAllDistinct(t: Table, p: Pattern, cs: seq<Word>, abs: Word)
    requires forall m :: m in t ==> MasksDistinct(t[m])
    ensures forall m :: m in AddAll(t, p, cs, abs) ==> MasksDistinct(AddAll(t, p, cs, abs)[m])
  {
    hide Slot, AddRow, MasksDistinct;
    if cs != [] {
      var k := |cs| - 1;
      AddAllDistinct(t, p, cs[..k], abs);
      var t' := AddAll(t, p, cs[..k], abs);
      var z := Slot(p, cs[k], abs);
      NoRows();
      AddRowDistinct(Bucket(t', z), p);
      assert AddAll(t, p, cs, abs) == t'[z := AddRow(Bucket(t', z), p)];
    }
  }

  /** The last pattern with this mask and value, provided it was entered in bucket m. */
  ghost function LastName(ps: seq<Pattern>, cs: seq<Word>, abs: Word, m: Word, mask: Word, value: Word): Option<string> {
    if ps == [] then None
    else
      var p := ps[|ps| - 1];
      if p.mask == mask && p.value == value && Reaches(p, cs, abs, m) then Some(p.name)
      else LastName(ps[..|ps| - 1], cs, abs, m, mask, value)
  }

  lemma {:induction false} BuildStores(ps: seq<Pattern>, cs: seq<Word>, abs: Word, m: Word, mask: Word, value: Word)
    ensures Stored(Bucket(Build(ps, cs, abs), m), mask, value) == LastName(ps, cs, abs, m, mask, value)
  {
    hide AddAll, Reaches;
    if ps != [] {
      var k := |ps| - 1;
      BuildStores(ps[..k], cs, abs, m, mask, value);
      AddAllStores(Build(ps[..k], cs, abs), ps[k], cs, abs, m, mask, value);
    }
  }

  lemma {:induction false} BuildDistinct(ps: seq<Pattern>, cs: seq<Word>, abs: Word)
    ensures forall m :: m in Build(ps, cs, abs) ==> MasksDistinct(Build(ps, cs, abs)[m])
  {
    hide AddAll, MasksDistinct;
    if ps != [] {
      BuildDistinct(ps[..|ps| - 1], cs, abs);
      AddAllDistinct(Build(ps[..|ps| - 1], cs, abs), ps[|ps| - 1], cs, abs);
    }
  }

  // ---------------------------------------------------------------------
  // Searching the sorted rows
  // ---------------------------------------------------------------------

  ghost predicate Descending(rows: seq<Row>) {
    forall i, j :: 0 <= i < j < |rows| ==> BitCount(rows[i].mask) >= BitCount(rows[j].mask)
  }

  lemma {:induction false} InsertRowFacts(r: Row, rows: seq<Row>)
    requires Descending(rows)
    ensures Descending(InsertRow(r, rows))
    ensures forall x :: x in InsertRow(r, rows) <==> x == r || x in rows
  {
    hide BitCount;
    if rows == [] || BitCount(rows[0].mask) <= BitCount(r.mask) {
      assert forall x :: x in [r] + rows <==> x == r || x in rows;
      var all := [r] + rows;
      forall i, j | 0 <= i < j < |all|
        ensures BitCount(all[i].mask) >= BitCount(all[j].mask)
      {
        assert all[j] == rows[j - 1];
        if i > 0 { assert all[i] == rows[i - 1]; }
      }
    } else {
      InsertRowFacts(r, rows[1..]);
      var rest := InsertRow(r, rows[1..]);
      var all := [rows[0]] + rest;
      assert rows == [rows[0]] + rows[1..];
      assert forall x :: x in rows <==> x == rows[0] || x in rows[1..];
      forall i, j | 0 <= i < j < |all|
        ensures BitCount(all[i].mask) >= BitCount(all[j].mask)
      {
        assert all[j] == rest[j - 1] && rest[j - 1] in rest;
        if i > 0 {
          assert all[i] == rest[i - 1];
        } else if rest[j - 1] != r {
          var n :| 0 <= n < |rows[1..]| && rows[1..][n] == rest[j - 1];
          assert rows[n + 1] == rest[j - 1];
        }
      }
    }
  }

  lemma {:induction false} SortRowsFacts(rows: seq<Row>)
    ensures Descending(SortRows(rows))
    ensures forall x :: x in SortRows(rows) <==> x in rows
  {
    hide BitCount, InsertRow;
    if rows != [] {
      var k := |rows| - 1;
      SortRowsFacts(rows[..k]);
      InsertRowFacts(rows[k], SortRows(rows[..k]));
      assert rows == rows[..k] + [rows[k]];
    }
  }

  lemma {:induction false} SearchFacts(rows: seq<Row>, w: Word)
    requires Descending(rows)
    ensures Search(rows, w).None? <==> forall r :: r in rows ==> Under(w, r.mask) !in r.names
    ensures Search(rows, w).Some? ==> exists r :: r in rows && BestRow(rows, w, r) && Search(rows, w).value == r.names[Under(w, r.mask)]
  {
    hide Under, BitCount;
    if rows != [] {
      assert rows == [rows[0]] + rows[1..];
      if Under(w, rows[0].mask) in rows[0].names {
        assert rows[0] in rows;
        forall r | r in rows
          ensures BitCount(rows[0].mask) >= BitCount(r.mask)
        {
          var i :| 0 <= i < |rows| && rows[i] == r;
        }
        assert BestRow(rows, w, rows[0]);
      } else {
        SearchFacts(rows[1..], w);
        assert forall r :: r in rows <==> r == rows[0] || r in rows[1..];
        if Search(rows[1..], w).Some? {
          var r :| r in rows[1..] && BestRow(rows[1..], w, r) && Search(rows[1..], w).value == r.names[Under(w, r.mask)];
          assert BestRow(rows, w, r);
        }
      }
    }
  }

  /** The row knows the word and no row that does is more specific. */
  ghost predicate BestRow(rows: seq<Row>, w: Word, r: Row) {
    && Under(w, r.mask) in r.names
    && forall q :: q in rows && Under(w, q.mask) in q.names ==> BitCount(r.mask) >= BitCount(q.mask)
  }

  lemma {:induction false} StoredIsMember(rows: seq<Row>, mask: Word, value: Word)
    requires MasksDistinct(rows)
    ensures forall r :: r in rows && r.mask == mask ==>
      Stored(rows, mask, value) == if value in r.names then Some(r.names[value]) else None
    ensures Stored(rows, mask, value).Some? ==> exists r :: r in rows && r.mask == mask && value in r.names
  {
    if rows != [] {
      StoredIsMember(rows[1..], mask, value);
      assert rows == [rows[0]] + rows[1..];
      forall r | r in rows && r.mask == mask
        ensures Stored(rows, mask, value) == if value in r.names then Some(r.names[value]) else None
      {
        var i :| 0 <= i < |rows| && rows[i] == r;
        assert i > 0 ==> rows[i].mask != rows[0].mask;
      }
      if Stored(rows, mask, value).Some? {
        if rows[0].mask == mask {
          assert rows[0] in rows;
        } else {
          var r :| r in rows[1..] && r.mask == mask && value in r.names;
          assert r in rows;
        }
      }
    }
  }

  // ---------------------------------------------------------------------
  // The reference: the most specific match
  // ---------------------------------------------------------------------

  /** p matches, nothing that matches is more specific, and p is the last
      pattern with its mask and value. */
  ghost predicate IsBest(ps: seq<Pattern>, w: Word, i: nat)
    requires i < |ps|
  {
    && Matches(ps[i], w)
    && (forall j :: 0 <= j < |ps| && Matches(ps[j], w) ==> BitCount(ps[j].mask) <= BitCount(ps[i].mask))
    && (forall j :: i < j < |ps| ==> ps[j].mask != ps[i].mask || ps[j].value != ps[i].value)
  }

  lemma {:induction false} LastNameIs(ps: seq<Pattern>, cs: seq<Word>, abs: Word, m: Word, mask: Word, value: Word) returns (i: nat)
    requires LastName(ps, cs, abs, m, mask, value).Some?
    ensures i < |ps| && ps[i].mask == mask && ps[i].value == value
    ensures LastName(ps, cs, abs, m, mask, value).value == ps[i].name
    ensures forall j :: i < j < |ps| ==> ps[j].mask != mask || ps[j].value != value
    ensures Reaches(ps[i], cs, abs, m)
  {
    hide Reaches;
    var k := |ps| - 1;
    if ps[k].mask == mask && ps[k].value == value && Reaches(ps[k], cs, abs, m) {
      i := k;
    } else {
      i := LastNameIs(ps[..k], cs, abs, m, mask, value);
      assert ps[..k][i] == ps[i];
      forall j | i < j < |ps|
        ensures ps[j].mask != mask || ps[j].value != value
      {
        if j < k {
          assert ps[..k][j] == ps[j];
        } else {
          SameReach(ps[i], ps[k], cs, abs, m);
        }
      }
    }
  }

  lemma SameSlot(p: Pattern, q: Pattern, c: Word, abs: Word)
    requires p.mask == q.mask && p.value == q.value
    ensures Slot(p, c, abs) == Slot(q, c, abs)
  {
  }

  /** Which buckets a pattern is in depends on its mask and value only. */
  lemma SameReach(p: Pattern, q: Pattern, cs: seq<Word>, abs: Word, m: Word)
    ensures p.mask == q.mask && p.value == q.value ==> (Reaches(p, cs, abs, m) <==> Reaches(q, cs, abs, m))
  {
    hide Slot;
    if p.mask == q.mask && p.value == q.value {
      forall i | 0 <= i < |cs|
        ensures Slot(p, cs[i], abs) == Slot(q, cs[i], abs)
      {
        SameSlot(p, q, cs[i], abs);
      }
    }
  }

  lemma {:induction false} LastNameExists(ps: seq<Pattern>, cs: seq<Word>, abs: Word, m: Word, i: nat)
    requires i < |ps| && Reaches(ps[i], cs, abs, m)
    ensures LastName(ps, cs, abs, m, ps[i].mask, ps[i].value).Some?
  {
    hide Reaches;
    var k := |ps| - 1;
    if i < k {
      assert ps[..k][i] == ps[i];
      LastNameExists(ps[..k], cs, abs, m, i);
    }
  }

  /** A matching pattern is stored in the word's bucket. */
  lemma MatchIsStored(ps: seq<Pattern>, bits: seq<nat>, w: Word, i: nat)
    requires ValidBits(bits) && WellFormed(ps) && i < |ps| && Matches(ps[i], w)
    ensures var abs := AbsMask(bits);
      Reaches(ps[i], Combinations(bits), abs, Under(w, abs))
  {
    hide Under, Slot, AbsMask, Combinations, Matches;
    var abs, cs, p := AbsMask(bits), Combinations(bits), ps[i];
    MatchReaches(p, w, abs);
    CombinationsComplete(bits, Under(w, abs));
    var c :| 0 <= c < |cs| && cs[c] == Under(w, abs);
    assert Slot(p, cs[c], abs) == Under(w, abs);
  }

  /** The decoder on the built index. */
  function Decode(ps: seq<Pattern>, bits: seq<nat>, w: Word): Option<string>
    requires ValidBits(bits)
  {
    var abs := AbsMask(bits);
    Search(SortRows(Bucket(Build(ps, Combinations(bits), abs), Under(w, abs))), w)
  }

  /** For any index bits the decoder refines the linear scan: it answers None
      exactly when no pattern matches, and otherwise a most specific match,
      the last one among identical encodings. */
  lemma DecodeIsMostSpecific(ps: seq<Pattern>, bits: seq<nat>, w: Word)
    requires ValidBits(bits) && WellFormed(ps)
    ensures Decode(ps, bits, w).None? <==> forall i :: 0 <= i < |ps| ==> !Matches(ps[i], w)
    ensures Decode(ps, bits, w).Some? ==> exists i :: 0 <= i < |ps| && IsBest(ps, w, i) && Decode(ps, bits, w).value == ps[i].name
  {
    hide Under, Build, Combinations, AbsMask, SortRows, Search, Stored, LastName, MasksDistinct, BitCount, Reaches, Matches, WellFormed;
    var abs, cs := AbsMask(bits), Combinations(bits);
    var m := Under(w, abs);
    var rows := Bucket(Build(ps, cs, abs), m);
    assert MasksDistinct(rows) by { BuildDistinct(ps, cs, abs); NoRows(); }
    SortRowsFacts(rows);
    SearchFacts(SortRows(rows), w);
    forall i | 0 <= i < |ps| && Matches(ps[i], w)
      ensures exists r :: r in rows && r.mask == ps[i].mask && Under(w, r.mask) in r.names
    {
      KnownRow(ps, bits, rows, w, i);
    }
    if i :| 0 <= i < |ps| && Matches(ps[i], w) {
      var r :| r in rows && r.mask == ps[i].mask && Under(w, r.mask) in r.names;
      assert Decode(ps, bits, w).Some?;
    }
    if Decode(ps, bits, w).Some? {
      var r :| r in SortRows(rows) && BestRow(SortRows(rows), w, r) && Decode(ps, bits, w).value == r.names[Under(w, r.mask)];
      var i := RowPattern(ps, cs, abs, m, rows, r, w);
      assert IsBest(ps, w, i) by {
        forall j | 0 <= j < |ps| && Matches(ps[j], w)
          ensures BitCount(ps[j].mask) <= BitCount(ps[i].mask)
        {
          var q :| q in rows && q.mask == ps[j].mask && Under(w, q.mask) in q.names;
        }
      }
    }
  }

  lemma NoRows()
    ensures MasksDistinct([])
  {
  }

  lemma KnownRow(ps: seq<Pattern>, bits: seq<nat>, rows: seq<Row>, w: Word, i: nat)
    requires ValidBits(bits) && WellFormed(ps) && i < |ps| && Matches(ps[i], w)
    requires rows == Bucket(Build(ps, Combinations(bits), AbsMask(bits)), Under(w, AbsMask(bits))) && MasksDistinct(rows)
    ensures exists r :: r in rows && r.mask == ps[i].mask && Under(w, r.mask) in r.names
  {
    hide Under, Under, Build, Combinations, AbsMask, Stored, LastName, MasksDistinct, Reaches, WellFormed;
    var abs, cs := AbsMask(bits), Combinations(bits);
    MatchIsStored(ps, bits, w, i);
    LastNameExists(ps, cs, abs, Under(w, abs), i);
    BuildStores(ps, cs, abs, Under(w, abs), ps[i].mask, ps[i].value);
    StoredIsMember(rows, ps[i].mask, ps[i].value);
  }

  /** A row that knows the word stands for the last pattern with that encoding. */
  lemma RowPattern(ps: seq<Pattern>, cs: seq<Word>, abs: Word, m: Word, rows: seq<Row>, r: Row, w: Word) returns (i: nat)
    requires rows == Bucket(Build(ps, cs, abs), m) && MasksDistinct(rows)
    requires r in rows && Under(w, r.mask) in r.names
    ensures i < |ps| && Matches(ps[i], w) && ps[i].mask == r.mask && ps[i].name == r.names[Under(w, r.mask)]
    ensures forall j :: i < j < |ps| ==> ps[j].mask != ps[i].mask || ps[j].value != ps[i].value
  {
    hide Build, Stored, LastName, MasksDistinct, Reaches;
    var value := Under(w, r.mask);
    StoredIsMember(rows, r.mask, value);
    BuildStores(ps, cs, abs, m, r.mask, value);
    i := LastNameIs(ps, cs, abs, m, r.mask, value);
  }
}
