/** The instruction collection: choosing index bits, building the index, decoding and enumerating. */
module InstructionCollection {
  import opened Bytes
  import opened DecoderIndex
  import Enumeration
  import WordBits
  import FieldBits

  /** Index bits used. */
  const INDEX_BITS: nat := 11

  // ---------------------------------------------------------------------
  // Ordering by mnemonic
  // ---------------------------------------------------------------------

  /** Python's order on strings. */
  predicate NameLeq(a: string, b: string) {
    a == [] || (b != [] && (a[0] < b[0] || (a[0] == b[0] && NameLeq(a[1..], b[1..]))))
  }

  /** The order is the lexicographic one: a prefix comes first, and otherwise
      the first differing character decides. */
  ghost predicate FirstDifference(a: string, b: string, i: nat) {
    i < |a| && i < |b| && a[..i] == b[..i] && a[i] != b[i]
  }

  lemma {:induction false} NameOrder(a: string, b: string)
    ensures NameLeq(a, b) <==> a <= b || exists i: nat :: FirstDifference(a, b, i) && a[i] < b[i]
  {
    if a != [] && b != [] && a[0] == b[0] {
      NameOrder(a[1..], b[1..]);
      assert a <= b <==> a[1..] <= b[1..] by { ConsPrefix(a, b); }
      forall i: nat
        ensures FirstDifference(a[1..], b[1..], i) <==> FirstDifference(a, b, i + 1)
      {
        ConsDifference(a, b, i);
      }
      if exists i: nat :: FirstDifference(a, b, i) && a[i] < b[i] {
        var i: nat :| FirstDifference(a, b, i) && a[i] < b[i];
        assert i > 0 && FirstDifference(a[1..], b[1..], i - 1) && a[1..][i - 1] < b[1..][i - 1];
      }
      if exists i: nat :: FirstDifference(a[1..], b[1..], i) && a[1..][i] < b[1..][i] {
        var i: nat :| FirstDifference(a[1..], b[1..], i) && a[1..][i] < b[1..][i];
        assert FirstDifference(a, b, i + 1) && a[i + 1] < b[i + 1];
      }
    } else if a != [] && b != [] {
      assert FirstDifference(a, b, 0);
      forall i: nat | FirstDifference(a, b, i)
        ensures i == 0
      {
        assert a[..i] == b[..i] && a[0] != b[0];
        if i > 0 { FirstSame(a, b, i); }
      }
    }
  }

  lemma FirstSame(a: string, b: string, i: nat)
    requires 0 < i <= |a| && i <= |b| && a[..i] == b[..i]
    ensures a[0] == b[0]
  {
    assert a[0] == a[..i][0] && b[0] == b[..i][0];
  }

  lemma ConsPrefix(a: string, b: string)
    requires a != [] && b != [] && a[0] == b[0]
    ensures a <= b <==> a[1..] <= b[1..]
  {
    if |a| <= |b| {
      assert b[1..][..|a| - 1] == b[..|a|][1..];
      assert a == [a[0]] + a[1..] && b[..|a|] == [b[0]] + b[..|a|][1..];
    }
  }

  lemma ConsDifference(a: string, b: string, i: nat)
    requires a != [] && b != [] && a[0] == b[0]
    ensures FirstDifference(a[1..], b[1..], i) <==> FirstDifference(a, b, i + 1)
  {
    if i + 1 < |a| && i + 1 < |b| {
      assert a[..i + 1] == [a[0]] + a[1..][..i] && b[..i + 1] == [b[0]] + b[1..][..i];
    }
  }

  lemma {:induction false} NameTotal(a: string, b: string)
    ensures NameLeq(a, b) || NameLeq(b, a)
  {
    if a != [] && b != [] && a[0] == b[0] {
      NameTotal(a[1..], b[1..]);
    }
  }

  lemma {:induction false} NameTransitive(a: string, b: string, c: string)
    requires NameLeq(a, b) && NameLeq(b, c)
    ensures NameLeq(a, c)
  {
    if a != [] && a[0] == b[0] && b[0] == c[0] {
      NameTransitive(a[1..], b[1..], c[1..]);
    }
  }

  function InsertByName(p: Pattern, ps: seq<Pattern>): seq<Pattern> {
    if ps == [] then [p]
    else if NameLeq(ps[0].name, p.name) then [ps[0]] + InsertByName(p, ps[1..])
    else [p] + ps
  }

  function SortByName(ps: seq<Pattern>): seq<Pattern> {
    if ps == [] then [] else InsertByName(ps[|ps| - 1], SortByName(ps[..|ps| - 1]))
  }

  ghost predicate SortedByName(ps: seq<Pattern>) {
    forall i, j :: 0 <= i < j < |ps| ==> NameLeq(ps[i].name, ps[j].name)
  }

  lemma {:induction false} InsertByNameFacts(p: Pattern, ps: seq<Pattern>)
    requires SortedByName(ps)
    ensures SortedByName(InsertByName(p, ps))
    ensures forall x :: x in InsertByName(p, ps) <==> x == p || x in ps
  {
    hide NameLeq;
    if ps == [] {
    } else if NameLeq(ps[0].name, p.name) {
      InsertByNameFacts(p, ps[1..]);
      var rest := InsertByName(p, ps[1..]);
      assert ps == [ps[0]] + ps[1..];
      forall x | x in rest
        ensures NameLeq(ps[0].name, x.name)
      {
        if x != p {
          var i :| 0 <= i < |ps[1..]| && ps[1..][i] == x;
          assert ps[i + 1] == x;
        }
      }
      ConsSorted(ps[0], rest);
    } else {
      NameTotal(ps[0].name, p.name);
      forall x | x in ps
        ensures NameLeq(p.name, x.name)
      {
        var i :| 0 <= i < |ps| && ps[i] == x;
        if i > 0 { NameTransitive(p.name, ps[0].name, x.name); }
      }
      ConsSorted(p, ps);
    }
  }

  lemma ConsSorted(p: Pattern, ps: seq<Pattern>)
    requires SortedByName(ps) && forall x :: x in ps ==> NameLeq(p.name, x.name)
    ensures SortedByName([p] + ps)
  {
    hide NameLeq;
    var all := [p] + ps;
    forall i, j | 0 <= i < j < |all|
      ensures NameLeq(all[i].name, all[j].name)
    {
      assert all[j] == ps[j - 1] && ps[j - 1] in ps;
      if i > 0 { assert all[i] == ps[i - 1]; }
    }
  }

  lemma {:induction false} SortByNameFacts(ps: seq<Pattern>)
    ensures SortedByName(SortByName(ps))
    ensures forall x :: x in SortByName(ps) <==> x in ps
  {
    hide NameLeq, InsertByName;
    if ps != [] {
      var k := |ps| - 1;
      SortByNameFacts(ps[..k]);
      InsertByNameFacts(ps[k], SortByName(ps[..k]));
      assert ps == ps[..k] + [ps[k]];
    }
  }

  // ---------------------------------------------------------------------
  // Index bits
  // ---------------------------------------------------------------------

  /** Number of patterns that leave bit b free. */
  function Unused(ps: seq<Pattern>, b: nat): nat
    requires b < 32
  {
    if ps == [] then 0
    else Unused(ps[..|ps| - 1], b) + if Under(ps[|ps| - 1].mask, Bit(b)) == ZERO then 1 else 0
  }

  function InsertBit(ps: seq<Pattern>, b: nat, bits: seq<nat>): (r: seq<nat>)
    requires b < 32 && ValidBits(bits)
    ensures ValidBits(r) && |r| == |bits| + 1
  {
    if bits == [] then [b]
    else if Unused(ps, bits[0]) <= Unused(ps, b) then [bits[0]] + InsertBit(ps, b, bits[1..])
    else [b] + bits
  }

  /** Bits below k, the most often fixed first. */
  function SortedBits(ps: seq<Pattern>, k: nat): (r: seq<nat>)
    requires k <= 32
    ensures ValidBits(r) && |r| == k
  {
    if k == 0 then [] else InsertBit(ps, k - 1, SortedBits(ps, k - 1))
  }

  function IndexBits(ps: seq<Pattern>): (bits: seq<nat>)
    ensures ValidBits(bits) && |bits| == INDEX_BITS
  {
    SortedBits(ps, 32)[..INDEX_BITS]
  }

  /** The patterns that leave bit b free. */
  function LeavingFree(ps: seq<Pattern>, b: nat): set<nat> {
    set i: nat | i < |ps| && !HasBit(ps[i].mask, b)
  }

  lemma {:induction false} UnusedIs(ps: seq<Pattern>, b: nat)
    requires b < 32
    ensures Unused(ps, b) == |LeavingFree(ps, b)|
  {
    hide HasBit, Under, Bit;
    if ps == [] {
      assert LeavingFree(ps, b) == {};
    } else {
      var k: nat := |ps| - 1;
      UnusedIs(ps[..k], b);
      FieldBits.BitTest(ps[k].mask, b);
      if HasBit(ps[k].mask, b) {
        assert LeavingFree(ps, b) == LeavingFree(ps[..k], b);
      } else {
        assert LeavingFree(ps, b) == LeavingFree(ps[..k], b) + {k};
      }
    }
  }

  /** Bit b comes before bit c: fewer patterns leave it free, or as many and it is lower. */
  predicate Before(ps: seq<Pattern>, b: nat, c: nat)
    requires b < 32 && c < 32
  {
    Unused(ps, b) < Unused(ps, c) || (Unused(ps, b) == Unused(ps, c) && b < c)
  }

  ghost predicate InOrder(ps: seq<Pattern>, bits: seq<nat>)
    requires ValidBits(bits)
  {
    forall i, j :: 0 <= i < j < |bits| ==> Before(ps, bits[i], bits[j])
  }

  lemma {:induction false} InsertBitFacts(ps: seq<Pattern>, b: nat, bits: seq<nat>)
    requires b < 32 && ValidBits(bits) && InOrder(ps, bits) && forall c :: c in bits ==> c < b
    ensures InOrder(ps, InsertBit(ps, b, bits))
    ensures forall c :: c in InsertBit(ps, b, bits) <==> c == b || c in bits
  {
    hide Unused;
    if bits != [] {
      assert bits == [bits[0]] + bits[1..];
      if Unused(ps, bits[0]) <= Unused(ps, b) {
        assert forall c :: c in bits[1..] ==> c in bits;
        InsertBitFacts(ps, b, bits[1..]);
        forall c | c in InsertBit(ps, b, bits[1..])
          ensures Before(ps, bits[0], c)
        {
          if c == b {
            assert bits[0] in bits;
          } else {
            var i :| 0 <= i < |bits[1..]| && bits[1..][i] == c;
            assert bits[i + 1] == c;
          }
        }
        ConsInOrder(ps, bits[0], InsertBit(ps, b, bits[1..]));
      } else {
        forall c | c in bits
          ensures Before(ps, b, c)
        {
          var i :| 0 <= i < |bits| && bits[i] == c;
          assert i > 0 ==> Before(ps, bits[0], bits[i]);
        }
        ConsInOrder(ps, b, bits);
      }
    }
  }

  lemma ConsInOrder(ps: seq<Pattern>, b: nat, bits: seq<nat>)
    requires b < 32 && ValidBits(bits) && InOrder(ps, bits) && forall c :: c in bits ==> Before(ps, b, c)
    ensures ValidBits([b] + bits) && InOrder(ps, [b] + bits)
  {
    hide Unused, Before;
    var all := [b] + bits;
    forall i, j | 0 <= i < j < |all|
      ensures Before(ps, all[i], all[j])
    {
      assert all[j] == bits[j - 1] && bits[j - 1] in bits;
      if i > 0 { assert all[i] == bits[i - 1]; }
    }
  }

  lemma {:induction false} SortedBitsFacts(ps: seq<Pattern>, k: nat)
    requires k <= 32
    ensures InOrder(ps, SortedBits(ps, k))
    ensures forall b: nat :: b in SortedBits(ps, k) <==> b < k
  {
    hide InsertBit, InOrder;
    if k > 0 {
      SortedBitsFacts(ps, k - 1);
      InsertBitFacts(ps, k - 1, SortedBits(ps, k - 1));
    } else {
      assert InOrder(ps, []) by { NoBitsInOrder(ps); }
    }
  }

  lemma NoBitsInOrder(ps: seq<Pattern>)
    ensures InOrder(ps, [])
  {
  }

  /** The index uses the eleven bits that the fewest patterns leave free, the
      lower one first where as many do. */
  lemma IndexBitsAreBest(ps: seq<Pattern>)
    ensures |IndexBits(ps)| == 11 && InOrder(ps, IndexBits(ps))
    ensures forall b, c: nat :: b in IndexBits(ps) && c < 32 && c !in IndexBits(ps) ==> Before(ps, b, c)
  {
    hide SortedBits, Before;
    SortedBitsFacts(ps, 32);
    var all := SortedBits(ps, 32);
    forall b, c: nat | b in IndexBits(ps) && c < 32 && c !in IndexBits(ps)
      ensures Before(ps, b, c)
    {
      var i :| 0 <= i < 11 && all[i] == b;
      assert c in all;
      var j :| 0 <= j < |all| && all[j] == c;
      InFront(all, j, 11);
    }
  }

  lemma InFront(s: seq<nat>, j: nat, n: nat)
    requires j < |s| && n <= |s|
    ensures j < n ==> s[j] in s[..n]
  {
    if j < n { assert s[j] == s[..n][j]; }
  }

  // ---------------------------------------------------------------------
  // The collection
  // ---------------------------------------------------------------------

  function WordOf(n: nat): Word
    requires n < 0x1_0000_0000
  {
    Word(n as bv32)
  }

  /** What disassemble promises about its answer for a word. */
  ghost predicate RightAnswer(ps: seq<Pattern>, w: Word, name: Option<string>) {
    match name
    case None => forall p :: p in ps ==> !Matches(p, w)
    case Some(n) => exists p :: p in ps && p.name == n && MostSpecific(ps, w, p)
  }

  /** Mask m fixes all bits that n fixes, and more. */
  predicate FixesMore(m: Word, n: Word) {
    Under(n, m) == n && n != m
  }

  /** p matches, no pattern that matches fixes more bits, let alone a superset
      of its bits, and among identical encodings its mnemonic is the last in order. */
  ghost predicate MostSpecific(ps: seq<Pattern>, w: Word, p: Pattern) {
    && Matches(p, w)
    && (forall q :: q in ps && Matches(q, w) ==> BitCount(q.mask) <= BitCount(p.mask))
    && (forall q :: q in ps && Matches(q, w) ==> !FixesMore(q.mask, p.mask))
    && (forall q :: q in ps && q.mask == p.mask && q.value == p.value ==> NameLeq(q.name, p.name))
  }

  /** The decoder gives the right answer for every word, whatever the index bits. */
  lemma DecodeIsRight(ps: seq<Pattern>, bits: seq<nat>, w: Word)
    requires ValidBits(bits) && WellFormed(ps) && SortedByName(ps)
    ensures RightAnswer(ps, w, Decode(ps, bits, w))
  {
    hide Decode, Matches, NameLeq, BitCount, WellFormed, SortedByName;
    DecodeIsMostSpecific(ps, bits, w);
    var d := Decode(ps, bits, w);
    if d.None? {
      forall p | p in ps
        ensures !Matches(p, w)
      {
        var i :| 0 <= i < |ps| && ps[i] == p;
      }
    } else {
      var i :| 0 <= i < |ps| && IsBest(ps, w, i) && d.value == ps[i].name;
      BestIsMostSpecific(ps, w, i);
      assert ps[i] in ps;
    }
  }

  lemma BestIsMostSpecific(ps: seq<Pattern>, w: Word, i: nat)
    requires SortedByName(ps) && i < |ps| && IsBest(ps, w, i)
    ensures MostSpecific(ps, w, ps[i])
  {
    hide Matches, NameLeq, BitCount, Under;
    var p := ps[i];
    forall q | q in ps && Matches(q, w)
      ensures BitCount(q.mask) <= BitCount(p.mask) && !FixesMore(q.mask, p.mask)
    {
      var j :| 0 <= j < |ps| && ps[j] == q;
      if FixesMore(q.mask, p.mask) { WordBits.SubmaskHasFewer(p.mask, q.mask); }
    }
    forall q | q in ps && q.mask == p.mask && q.value == p.value
      ensures NameLeq(q.name, p.name)
    {
      var j :| 0 <= j < |ps| && ps[j] == q;
      assert j <= i;
      if j == i { NameReflexive(p.name); }
    }
  }

  lemma {:induction false} NameReflexive(a: string)
    ensures NameLeq(a, a)
  {
    if a != [] {
      NameReflexive(a[1..]);
    }
  }

  /** The buckets after sorting. */
  function SortedTable(t: Table): Table {
    map m | m in t :: SortRows(t[m])
  }

  /** The undocumented words of [a, b) that the filter lets through, in order. */
  ghost function Unknowns(ps: seq<Pattern>, bits: seq<nat>, skip: nat -> bool, a: nat, b: nat): (r: seq<nat>)
    requires ValidBits(bits) && a <= b <= 0x1_0000_0000
  {
    if a == b then []
    else
      Unknowns(ps, bits, skip, a, b - 1)
      + if Decode(ps, bits, WordOf(b - 1)).None? && !skip(b - 1) then [b - 1] else []
  }

  /** Known words: those that decode, and those the filter drops. */
  ghost function Known(ps: seq<Pattern>, bits: seq<nat>, skip: nat -> bool): nat -> bool
    requires ValidBits(bits)
  {
    (x: nat) => x >= 0x1_0000_0000 || Decode(ps, bits, WordOf(x)).Some? || skip(x)
  }

  /** The generator's words are what an enumeration of the unknown words runs. */
  lemma {:induction false} UnknownsAreUndocumented(ps: seq<Pattern>, bits: seq<nat>, skip: nat -> bool, a: nat, b: nat)
    requires ValidBits(bits) && a <= b <= 0x1_0000_0000
    ensures Unknowns(ps, bits, skip, a, b) == Enumeration.Undocumented(Known(ps, bits, skip), a, b)
  {
    hide Decode, WordOf;
    if a < b {
      UnknownsAreUndocumented(ps, bits, skip, a, b - 1);
    }
  }

  class InstructionCollection {
    var instructions: seq<Pattern>
    var absMask: Word
    var maskMap: Table

    /** The index belongs to the instructions, which are in order. */
    ghost predicate Valid()
      reads this
    {
      && WellFormed(instructions) && SortedByName(instructions)
      && absMask == AbsMask(IndexBits(instructions))
      && maskMap == SortedTable(Build(instructions, Combinations(IndexBits(instructions)), absMask))
    }

    constructor (ps: seq<Pattern>)
      requires WellFormed(ps)
      ensures Valid() && instructions == SortByName(ps)
    {
      instructions, absMask, maskMap := ps, ZERO, map[];
      new;
      UpdateMaps();
    }

    /** update_maps: sort, choose the index bits, enter every instruction in
        every bucket it can fall into, sort the buckets. */
    method UpdateMaps()
      requires WellFormed(instructions)
      modifies this
      ensures Valid() && instructions == SortByName(old(instructions))
    {
      hide SortByName, AddTo, Combinations, IndexBits, SortRows;
      ghost var given := instructions;
      SortByNameFacts(given);
      instructions := SortByName(instructions);
      assert WellFormed(instructions) by { SortedWellFormed(given); }
      ghost var ps := instructions;
      var bits := IndexBits(instructions);
      var combinations := Combinations(bits);
      absMask := AbsMask(bits);
      ghost var abs := absMask;
      var table: Table := map[];
      assert ps[..0] == [];
      for i := 0 to |instructions|
        invariant instructions == ps && absMask == abs
        invariant table == Build(ps[..i], combinations, abs)
      {
        assert ps[..i + 1][..i] == ps[..i];
        ghost var before := table;
        assert combinations[..0] == [];
        for c := 0 to |combinations|
          invariant instructions == ps && absMask == abs
          invariant table == AddAll(before, ps[i], combinations[..c], abs)
        {
          assert combinations[..c + 1][..c] == combinations[..c];
          table := AddTo(table, instructions[i], combinations[c], absMask);
        }
        assert combinations[..|combinations|] == combinations;
      }
      assert ps[..|ps|] == ps;
      maskMap := SortedTable(table);
    }

    /** disassemble: look the bucket up, then search its rows. */
    method Disassemble(instr: nat) returns (name: Option<string>)
      requires Valid() && instr < 0x1_0000_0000
      ensures name == Decode(instructions, IndexBits(instructions), WordOf(instr))
      ensures RightAnswer(instructions, WordOf(instr), name)
    {
      DecodeIsRight(instructions, IndexBits(instructions), WordOf(instr));
      hide Build, Combinations, AbsMask, SortRows, Under, IndexBits, WellFormed;
      var w := WordOf(instr);
      var absM := Under(w, absMask);
      ghost var table := Build(instructions, Combinations(IndexBits(instructions)), absMask);
      assert SortRows([]) == [] by { NothingToSort(); }
      if absM !in maskMap {
        assert absM !in table;
        return None;
      }
      var rows := maskMap[absM];
      assert rows == SortRows(Bucket(table, absM));
      assert rows[0..] == rows;
      for k := 0 to |rows|
        invariant Search(rows, w) == Search(rows[k..], w)
      {
        assert rows[k..][1..] == rows[k + 1..];
        var val := Under(w, rows[k].mask);
        if val in rows[k].names {
          return Some(rows[k].names[val]);
        }
      }
      return None;
    }

    /** remove_instructions: afterwards only the remaining ones are decoded. A
        mnemonic that is unknown, or named twice, ends it with a KeyError; the
        index then still belongs to the instructions before the call. */
    method RemoveInstructions(mnemonics: seq<string>) returns (ok: bool)
      requires Valid()
      modifies this
      ensures ok <==> forall k :: 0 <= k < |mnemonics| ==> Removable(old(instructions), mnemonics, k)
      ensures ok ==> Valid()
      ensures ok ==> forall p :: p in instructions <==> p in old(instructions) && p.name !in mnemonics
      ensures !ok ==> absMask == old(absMask) && maskMap == old(maskMap)
      ensures !ok ==> exists k :: (0 <= k < |mnemonics| && !Removable(old(instructions), mnemonics, k)
        && forall p :: p in instructions <==> p in old(instructions) && p.name !in mnemonics[..k])
    {
      hide SortByName, Build, IndexBits, AbsMask, SortedTable, Combinations, WellFormed, SortedByName;
      ghost var ps := instructions;
      for k := 0 to |mnemonics|
        invariant absMask == old(absMask) && maskMap == old(maskMap)
        invariant forall p :: p in instructions <==> p in ps && p.name !in mnemonics[..k]
        invariant forall j :: 0 <= j < k ==> Removable(ps, mnemonics, j)
      {
        var kept := WithoutName(instructions, mnemonics[k]);
        assert Removable(ps, mnemonics, k) <==> exists p :: p in instructions && p.name == mnemonics[k];
        if |kept| == |instructions| {
          assert !Removable(ps, mnemonics, k);
          return false;
        }
        assert mnemonics[..k + 1] == mnemonics[..k] + [mnemonics[k]];
        instructions := kept;
      }
      assert mnemonics[..|mnemonics|] == mnemonics;
      assert WellFormed(instructions) by { SubsetWellFormed(ps, instructions); }
      SortByNameFacts(instructions);
      UpdateMaps();
      return true;
    }

    /** gen_unknown_instr_sequentially_until; None when the range leaves the
        opcode space and the decoder's assertion fails. */
    method GenUnknown(startAt: nat, until: nat, ifilter: nat -> bool) returns (l: Option<seq<nat>>)
      requires Valid()
      ensures l.None? <==> startAt < until && until > U32
      ensures startAt <= until <= U32 ==> l == Some(Unknowns(instructions, IndexBits(instructions), ifilter, startAt, until))
      ensures startAt >= until ==> l == Some([])
    {
      hide Decode, Build, IndexBits, AbsMask, SortedTable, Combinations, WordOf;
      var found: seq<nat> := [];
      var at := startAt;
      while at < until
        invariant startAt <= at && (at <= until || at == startAt) && (at <= U32 || at == startAt)
        invariant startAt <= at <= U32 ==> found == Unknowns(instructions, IndexBits(instructions), ifilter, startAt, at)
        invariant at == startAt ==> found == []
      {
        if at >= U32 {
          return None;
        }
        var d := Disassemble(at);
        if d.None? && !ifilter(at) {
          found := found + [at];
        }
        at := at + 1;
      }
      return Some(found);
    }
  }

  /** Mnemonic k names an instruction and is not named before. */
  ghost predicate Removable(ps: seq<Pattern>, mnemonics: seq<string>, k: nat)
    requires k < |mnemonics|
  {
    mnemonics[k] !in mnemonics[..k] && exists p :: p in ps && p.name == mnemonics[k]
  }

  /** The instructions with other mnemonics. */
  function WithoutName(ps: seq<Pattern>, name: string): (r: seq<Pattern>)
    ensures forall p :: p in r <==> p in ps && p.name != name
    ensures |r| <= |ps|
    ensures |r| == |ps| <==> forall p :: p in ps ==> p.name != name
  {
    if ps == [] then []
    else
      assert ps == [ps[0]] + ps[1..];
      (if ps[0].name == name then [] else [ps[0]]) + WithoutName(ps[1..], name)
  }

  lemma SubsetWellFormed(ps: seq<Pattern>, kept: seq<Pattern>)
    requires WellFormed(ps) && forall p :: p in kept ==> p in ps
    ensures WellFormed(kept)
  {
    forall i | 0 <= i < |kept|
      ensures Under(kept[i].value, kept[i].mask) == kept[i].value
    {
      assert kept[i] in kept && kept[i] in ps;
    }
  }

  lemma NothingToSort()
    ensures SortRows([]) == []
  {
  }

  lemma SortedWellFormed(ps: seq<Pattern>)
    requires WellFormed(ps)
    ensures WellFormed(SortByName(ps))
  {
    SortByNameFacts(ps);
    var sorted := SortByName(ps);
    forall i | 0 <= i < |sorted|
      ensures Under(sorted[i].value, sorted[i].mask) == sorted[i].value
    {
      assert sorted[i] in ps;
    }
  }
}
