/** Which pattern the decoder names when several masks match with equally many bits. */
module DecoderOrder {
  import opened Bytes
  import opened DecoderIndex

  // ---------------------------------------------------------------------
  // Searching the sorted rows finds the last of the best
  // ---------------------------------------------------------------------

  predicate Knows(r: Row, w: Word) {
    Under(w, r.mask) in r.names
  }

  function NameIn(r: Row, w: Word): string
    requires Knows(r, w)
  {
    r.names[Under(w, r.mask)]
  }

  /** No row of the list that knows the word has more mask bits than r. */
  ghost predicate Tops(rows: seq<Row>, w: Word, r: Row) {
    forall q :: q in rows && Knows(q, w) ==> BitCount(q.mask) <= BitCount(r.mask)
  }

  lemma {:induction false} SearchInsert(r: Row, rows: seq<Row>, w: Word)
    requires Descending(rows)
    ensures Search(InsertRow(r, rows), w) == if Knows(r, w) && Tops(rows, w, r) then Some(NameIn(r, w)) else Search(rows, w)
  {
    hide BitCount, Under;
    if rows == [] || BitCount(rows[0].mask) <= BitCount(r.mask) {
      assert ([r] + rows)[1..] == rows;
      assert Tops(rows, w, r) by {
        forall q | q in rows
          ensures BitCount(q.mask) <= BitCount(r.mask)
        {
          var i :| 0 <= i < |rows| && rows[i] == q;
        }
      }
    } else {
      var rest := rows[1..];
      assert ([rows[0]] + InsertRow(r, rest))[1..] == InsertRow(r, rest);
      SearchInsert(r, rest, w);
      assert forall q :: q in rows <==> q == rows[0] || q in rest;
    }
  }

  /** Row i knows the word, no other that does has more mask bits, and none
      behind it has as many. */
  ghost predicate LastBest(rows: seq<Row>, w: Word, i: nat) {
    && i < |rows| && Knows(rows[i], w)
    && forall j :: 0 <= j < |rows| && Knows(rows[j], w) ==>
         BitCount(rows[j].mask) <= BitCount(rows[i].mask) && (j > i ==> BitCount(rows[j].mask) < BitCount(rows[i].mask))
  }

  lemma {:induction false} SearchSorted(rows: seq<Row>, w: Word)
    ensures Search(SortRows(rows), w).Some? ==> exists i: nat :: LastBest(rows, w, i) && Search(SortRows(rows), w) == Some(NameIn(rows[i], w))
  {
    hide BitCount, Under, InsertRow, Search, Knows, NameIn;
    if rows == [] {
      NothingFound(w);
    } else {
      var k := |rows| - 1;
      var prev, r := rows[..k], rows[k];
      SearchSorted(prev, w);
      SortRowsFacts(prev);
      SearchInsert(r, SortRows(prev), w);
      assert forall j :: 0 <= j < k ==> rows[j] == prev[j] && prev[j] in prev;
      if Knows(r, w) && Tops(SortRows(prev), w, r) {
        assert LastBest(rows, w, k);
      } else if Search(SortRows(prev), w).Some? {
        var i: nat :| LastBest(prev, w, i) && Search(SortRows(prev), w) == Some(NameIn(prev[i], w));
        assert LastBest(rows, w, i) by { KeepsBest(rows, w, i); }
      }
    }
  }

  lemma NothingFound(w: Word)
    ensures Search(SortRows([]), w) == None
  {
  }

  lemma KeepsBest(rows: seq<Row>, w: Word, i: nat)
    requires rows != [] && LastBest(rows[..|rows| - 1], w, i)
    requires !(Knows(rows[|rows| - 1], w) && Tops(SortRows(rows[..|rows| - 1]), w, rows[|rows| - 1]))
    ensures LastBest(rows, w, i)
  {
    hide BitCount, Under, Knows, SortRows;
    var k := |rows| - 1;
    var prev := rows[..k];
    SortRowsFacts(prev);
    assert forall j :: 0 <= j < k ==> rows[j] == prev[j];
    if Knows(rows[k], w) {
      var q :| q in SortRows(prev) && Knows(q, w) && BitCount(q.mask) > BitCount(rows[k].mask);
      assert q in prev;
      var j :| 0 <= j < k && prev[j] == q;
    }
  }

  // ---------------------------------------------------------------------
  // Rows stand in the order in which their masks were entered
  // ---------------------------------------------------------------------

  function Masks(rows: seq<Row>): (ms: seq<Word>)
    ensures |ms| == |rows|
    ensures forall i :: 0 <= i < |rows| ==> ms[i] == rows[i].mask
  {
    if rows == [] then [] else [rows[0].mask] + Masks(rows[1..])
  }

  function WithMask(ms: seq<Word>, m: Word): seq<Word> {
    if m in ms then ms else ms + [m]
  }

  lemma {:induction false} AddRowMasksAre(rows: seq<Row>, p: Pattern)
    ensures Masks(AddRow(rows, p)) == WithMask(Masks(rows), p.mask)
  {
    hide Masks;
    if rows == [] {
      NoMasks();
      MasksCons(Row(p.mask, map[p.value := p.name]), []);
      assert [p.mask] + [] == [p.mask] == [] + [p.mask];
    } else {
      var rest := rows[1..];
      assert rows == [rows[0]] + rest;
      MasksCons(rows[0], rest);
      if rows[0].mask == p.mask {
        MasksCons(Row(p.mask, rows[0].names[p.value := p.name]), rest);
      } else {
        AddRowMasksAre(rest, p);
        MasksCons(rows[0], AddRow(rest, p));
        assert [rows[0].mask] + (Masks(rest) + [p.mask]) == [rows[0].mask] + Masks(rest) + [p.mask];
      }
    }
  }

  lemma NoMasks()
    ensures Masks([]) == []
  {
  }

  lemma MasksCons(r: Row, rows: seq<Row>)
    ensures Masks([r] + rows) == [r.mask] + Masks(rows)
  {
    assert ([r] + rows)[1..] == rows;
  }

  lemma {:induction false} AddAllMasks(t: Table, p: Pattern, cs: seq<Word>, abs: Word, m: Word)
    ensures Masks(Bucket(AddAll(t, p, cs, abs), m))
      == if Reaches(p, cs, abs, m) then WithMask(Masks(Bucket(t, m)), p.mask) else Masks(Bucket(t, m))
  {
    hide Slot, AddRow, Masks, Reaches;
    if cs == [] {
      NoneReach(p, abs, m);
    } else {
      var k := |cs| - 1;
      AddAllMasks(t, p, cs[..k], abs, m);
      var t' := AddAll(t, p, cs[..k], abs);
      AddRowMasksAre(Bucket(t', m), p);
      ReachesOne(p, cs, abs, m);
      var z := Slot(p, cs[k], abs);
      assert AddAll(t, p, cs, abs) == t'[z := AddRow(Bucket(t', z), p)];
      assert m != z ==> Bucket(AddAll(t, p, cs, abs), m) == Bucket(t', m);
    }
  }

  /** The masks of the patterns of a bucket, in the order of their first entry. */
  ghost function EntryMasks(ps: seq<Pattern>, cs: seq<Word>, abs: Word, m: Word): seq<Word> {
    if ps == [] then []
    else
      var rest := EntryMasks(ps[..|ps| - 1], cs, abs, m);
      if Reaches(ps[|ps| - 1], cs, abs, m) then WithMask(rest, ps[|ps| - 1].mask) else rest
  }

  lemma {:induction false} BuildMasks(ps: seq<Pattern>, cs: seq<Word>, abs: Word, m: Word)
    ensures Masks(Bucket(Build(ps, cs, abs), m)) == EntryMasks(ps, cs, abs, m)
  {
    hide AddAll, Reaches;
    if ps != [] {
      var k := |ps| - 1;
      BuildMasks(ps[..k], cs, abs, m);
      AddAllMasks(Build(ps[..k], cs, abs), ps[k], cs, abs, m);
    }
  }

  /** Pattern k is the first with this mask in bucket m. */
  ghost predicate FirstIn(ps: seq<Pattern>, cs: seq<Word>, abs: Word, m: Word, mask: Word, k: nat) {
    && k < |ps| && ps[k].mask == mask && Reaches(ps[k], cs, abs, m)
    && forall j :: 0 <= j < k ==> ps[j].mask != mask || !Reaches(ps[j], cs, abs, m)
  }

  lemma {:induction false} EntryMask(ps: seq<Pattern>, cs: seq<Word>, abs: Word, m: Word, mask: Word)
    ensures mask in EntryMasks(ps, cs, abs, m) <==> exists j :: 0 <= j < |ps| && ps[j].mask == mask && Reaches(ps[j], cs, abs, m)
  {
    hide Reaches;
    if ps != [] {
      var k := |ps| - 1;
      EntryMask(ps[..k], cs, abs, m, mask);
      assert forall j :: 0 <= j < k ==> ps[..k][j] == ps[j];
    }
  }

  lemma {:induction false} EntryOrder(ps: seq<Pattern>, cs: seq<Word>, abs: Word, m: Word, x: nat, y: nat, a: nat, b: nat)
    requires x < y < |EntryMasks(ps, cs, abs, m)|
    requires FirstIn(ps, cs, abs, m, EntryMasks(ps, cs, abs, m)[x], a) && FirstIn(ps, cs, abs, m, EntryMasks(ps, cs, abs, m)[y], b)
    ensures a < b
  {
    hide Reaches;
    var k := |ps| - 1;
    var prev, ms, all := ps[..k], EntryMasks(ps[..k], cs, abs, m), EntryMasks(ps, cs, abs, m);
    assert forall j :: 0 <= j < k ==> prev[j] == ps[j];
    assert ms[x] == all[x] && ms[x] in ms;
    EntryMask(prev, cs, abs, m, all[x]);
    assert a < k;
    if y < |ms| {
      assert ms[y] == all[y] && ms[y] in ms;
      EntryMask(prev, cs, abs, m, all[y]);
      assert b < k;
      EntryOrder(prev, cs, abs, m, x, y, a, b);
    } else {
      EntryMask(prev, cs, abs, m, all[y]);
    }
  }

  // ---------------------------------------------------------------------
  // The decoder's choice
  // ---------------------------------------------------------------------

  /** p is in the word's bucket: it agrees with the word on the index bits it fixes. */
  predicate InBucket(p: Pattern, w: Word, abs: Word) {
    Under(p.value, abs) == Under(Under(w, abs), p.mask)
  }

  lemma ReachesIff(p: Pattern, bits: seq<nat>, w: Word)
    requires ValidBits(bits) && Under(p.value, p.mask) == p.value
    ensures Reaches(p, Combinations(bits), AbsMask(bits), Under(w, AbsMask(bits))) <==> InBucket(p, w, AbsMask(bits))
  {
    hide Under, Slot, AbsMask, Combinations;
    var abs, cs := AbsMask(bits), Combinations(bits);
    var m := Under(w, abs);
    if Reaches(p, cs, abs, m) {
      var c :| 0 <= c < |cs| && Slot(p, cs[c], abs) == m;
      SlotAgrees(p, cs[c], abs, w);
    }
    if InBucket(p, w, abs) {
      AgreeSlot(p, w, abs);
      CombinationsComplete(bits, m);
      var c :| 0 <= c < |cs| && cs[c] == m;
      assert Slot(p, cs[c], abs) == m;
    }
  }

  lemma SlotAgrees(p: Pattern, c: Word, abs: Word, w: Word)
    requires Under(p.value, p.mask) == p.value && Slot(p, c, abs) == Under(w, abs)
    ensures InBucket(p, w, abs)
  {
  }

  lemma AgreeSlot(p: Pattern, w: Word, abs: Word)
    requires Under(p.value, p.mask) == p.value && InBucket(p, w, abs)
    ensures Slot(p, Under(w, abs), abs) == Under(w, abs)
    ensures Under(Under(w, abs), abs) == Under(w, abs)
  {
  }

  /** Pattern k is the first with this mask in the word's bucket. */
  ghost predicate Enters(ps: seq<Pattern>, abs: Word, w: Word, mask: Word, k: nat) {
    && k < |ps| && ps[k].mask == mask && InBucket(ps[k], w, abs)
    && forall j :: 0 <= j < k ==> ps[j].mask != mask || !InBucket(ps[j], w, abs)
  }

  /** Any other matching mask with as many bits entered the bucket earlier. */
  ghost predicate WinsTies(ps: seq<Pattern>, abs: Word, w: Word, i: nat)
    requires i < |ps|
  {
    forall j, a: nat, b: nat :: (0 <= j < |ps| && Matches(ps[j], w) && ps[j].mask != ps[i].mask && BitCount(ps[j].mask) == BitCount(ps[i].mask)
        && Enters(ps, abs, w, ps[i].mask, a) && Enters(ps, abs, w, ps[j].mask, b)) ==> b < a
  }

  lemma EntersIsFirst(ps: seq<Pattern>, bits: seq<nat>, w: Word, mask: Word, k: nat)
    requires ValidBits(bits) && WellFormed(ps) && Enters(ps, AbsMask(bits), w, mask, k)
    ensures FirstIn(ps, Combinations(bits), AbsMask(bits), Under(w, AbsMask(bits)), mask, k)
  {
    hide Under, AbsMask, Combinations, Reaches, InBucket;
    forall j | 0 <= j < |ps|
      ensures Reaches(ps[j], Combinations(bits), AbsMask(bits), Under(w, AbsMask(bits))) <==> InBucket(ps[j], w, AbsMask(bits))
    {
      ReachesIff(ps[j], bits, w);
    }
  }

  lemma TieLoses(ps: seq<Pattern>, bits: seq<nat>, w: Word, rows: seq<Row>, x: nat, j: nat, a: nat, b: nat)
    requires ValidBits(bits) && WellFormed(ps) && j < |ps| && Matches(ps[j], w)
    requires rows == Bucket(Build(ps, Combinations(bits), AbsMask(bits)), Under(w, AbsMask(bits))) && MasksDistinct(rows)
    requires LastBest(rows, w, x) && ps[j].mask != rows[x].mask && BitCount(ps[j].mask) == BitCount(rows[x].mask)
    requires Enters(ps, AbsMask(bits), w, rows[x].mask, a) && Enters(ps, AbsMask(bits), w, ps[j].mask, b)
    ensures b < a
  {
    hide Under, Build, Combinations, AbsMask, MasksDistinct, BitCount, Reaches, Matches, WellFormed, EntryMasks, Enters, FirstIn;
    KnownRow(ps, bits, rows, w, j);
    var q :| q in rows && q.mask == ps[j].mask && Under(w, q.mask) in q.names;
    var y :| 0 <= y < |rows| && rows[y] == q;
    assert Knows(rows[y], w);
    assert y < x;
    BuildMasks(ps, Combinations(bits), AbsMask(bits), Under(w, AbsMask(bits)));
    EntersIsFirst(ps, bits, w, rows[x].mask, a);
    EntersIsFirst(ps, bits, w, ps[j].mask, b);
    EntryOrder(ps, Combinations(bits), AbsMask(bits), Under(w, AbsMask(bits)), y, x, b, a);
  }

  /** Together with the bit count and the order of mnemonics this determines the
      decoder's answer: among matches of equal bit count the mask that was
      entered last in the word's bucket wins. */
  lemma DecodeIsDetermined(ps: seq<Pattern>, bits: seq<nat>, w: Word)
    requires ValidBits(bits) && WellFormed(ps)
    ensures Decode(ps, bits, w).Some? ==>
      exists i :: 0 <= i < |ps| && IsBest(ps, w, i) && WinsTies(ps, AbsMask(bits), w, i) && Decode(ps, bits, w) == Some(ps[i].name)
  {
    hide Under, Build, Combinations, AbsMask, SortRows, Search, MasksDistinct, BitCount, Reaches, Matches, WellFormed, EntryMasks, Enters, FirstIn;
    var abs, cs := AbsMask(bits), Combinations(bits);
    var m := Under(w, abs);
    var rows := Bucket(Build(ps, cs, abs), m);
    assert MasksDistinct(rows) by { BuildDistinct(ps, cs, abs); NoRows(); }
    SearchSorted(rows, w);
    if Decode(ps, bits, w).Some? {
      var x: nat :| LastBest(rows, w, x) && Search(SortRows(rows), w) == Some(NameIn(rows[x], w));
      var i := RowPattern(ps, cs, abs, m, rows, rows[x], w);
      forall j | 0 <= j < |ps| && Matches(ps[j], w)
        ensures BitCount(ps[j].mask) <= BitCount(ps[i].mask)
      {
        KnownRow(ps, bits, rows, w, j);
        var q :| q in rows && q.mask == ps[j].mask && Under(w, q.mask) in q.names;
        var y :| 0 <= y < |rows| && rows[y] == q;
        assert Knows(rows[y], w);
      }
      assert IsBest(ps, w, i);
      forall j, a: nat, b: nat | 0 <= j < |ps| && Matches(ps[j], w) && ps[j].mask != ps[i].mask && BitCount(ps[j].mask) == BitCount(ps[i].mask)
          && Enters(ps, abs, w, ps[i].mask, a) && Enters(ps, abs, w, ps[j].mask, b)
        ensures b < a
      {
        TieLoses(ps, bits, w, rows, x, j, a, b);
      }
    }
  }

  lemma MatchInBucket(p: Pattern, w: Word, abs: Word)
    requires Under(p.value, p.mask) == p.value && Matches(p, w)
    ensures InBucket(p, w, abs)
  {
    hide Slot;
    MatchReaches(p, w, abs);
    SlotAgrees(p, Under(w, abs), abs, w);
  }

  lemma {:induction false} SomeEntry(ps: seq<Pattern>, abs: Word, w: Word, i: nat)
    requires i < |ps| && InBucket(ps[i], w, abs)
    ensures exists k: nat :: Enters(ps, abs, w, ps[i].mask, k)
  {
    hide InBucket;
    if j :| 0 <= j < i && ps[j].mask == ps[i].mask && InBucket(ps[j], w, abs) {
      SomeEntry(ps, abs, w, j);
    } else {
      assert Enters(ps, abs, w, ps[i].mask, i);
    }
  }

  /** These conditions leave no choice: they hold of one pattern only. */
  lemma ChoiceIsUnique(ps: seq<Pattern>, bits: seq<nat>, w: Word, i: nat, j: nat)
    requires ValidBits(bits) && WellFormed(ps) && i < |ps| && j < |ps|
    requires IsBest(ps, w, i) && WinsTies(ps, AbsMask(bits), w, i)
    requires IsBest(ps, w, j) && WinsTies(ps, AbsMask(bits), w, j)
    ensures i == j
  {
    hide Under, AbsMask, BitCount, InBucket, Enters;
    var abs := AbsMask(bits);
    MatchInBucket(ps[i], w, abs);
    MatchInBucket(ps[j], w, abs);
    SomeEntry(ps, abs, w, i);
    SomeEntry(ps, abs, w, j);
    var a: nat :| Enters(ps, abs, w, ps[i].mask, a);
    var b: nat :| Enters(ps, abs, w, ps[j].mask, b);
    assert ps[i].mask != ps[j].mask ==> b < a && a < b;
  }
}
