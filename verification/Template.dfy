/**
 Instruction templates: combining fields into a mask and a value, and filling
 the free bits of the fields with arbitrary choices.
 */
module Template {
  import opened Bytes
  import opened DecoderIndex

  // ---------------------------------------------------------------------
  // Filling a template
  // ---------------------------------------------------------------------

  /** A field of a template: bit range, fixed value and fixed-bit mask relative to low. */
  datatype Field = Field(high: nat, low: nat, value: Word, mask: Word)

  /** Fields lie in the word, and values use mask bits. */
  predicate FieldOk(f: Field) {
    f.low <= f.high < 32 && Under(f.value, f.mask) == f.value
  }

  /** The generator shifts a signed one by the width of a field, which C defines
      for widths up to 30. */
  predicate Shiftable(f: Field) {
    f.low <= f.high && f.high - f.low < 30
  }

  predicate FieldsOk(fs: seq<Field>) {
    forall i :: 0 <= i < |fs| ==> FieldOk(fs[i])
  }

  function Shl1(x: Word): Word {
    Word(x.v << 1)
  }

  /** Shifts left by n, one bit at a time. */
  function Shl(x: Word, n: nat): Word
    decreases n
  {
    if n == 0 then x else Shl(Shl1(x), n - 1)
  }

  lemma {:induction false} ShlAdd(x: Word, a: nat, b: nat)
    ensures Shl(x, a + b) == Shl(Shl(x, a), b)
    decreases a
  {
    hide Shl1;
    if a > 0 {
      ShlAdd(Shl1(x), a - 1, b);
    }
  }

  lemma ShlLast(x: Word, n: nat)
    requires n > 0
    ensures Shl(x, n) == Shl1(Shl(x, n - 1))
  {
    hide Shl1;
    ShlAdd(x, n - 1, 1);
  }

  const ALL := Word(0xffff_ffff)

  /** The k lowest bits set. */
  function LowOnes(k: nat): Word {
    if k == 0 then ZERO else OrWord(Shl1(LowOnes(k - 1)), Word(1))
  }

  /** LowOnes is what the source writes as (1 << k) - 1. */
  lemma {:induction false} LowOnesIsShift(k: nat)
    requires k < 32
    ensures LowOnes(k).v == ((1 as bv32) << k) - 1
  {
    if k > 0 {
      LowOnesIsShift(k - 1);
      ShiftOnce(k);
      DoubleMinusOne((1 as bv32) << (k - 1));
    }
  }

  lemma ShiftOnce(k: nat)
    requires 0 < k < 32
    ensures (1 as bv32) << k == ((1 as bv32) << (k - 1)) << 1
  {
  }

  lemma DoubleMinusOne(x: bv32)
    ensures ((x - 1) << 1) | 1 == (x << 1) - 1
  {
  }

  /** The low bits of the field's width. */
  function Ones(f: Field): Word
    requires FieldOk(f)
  {
    LowOnes(f.high - f.low + 1)
  }

  /** The bits of the word that the field leaves free (inverted_mask). */
  function Free(f: Field): Word
    requires FieldOk(f)
  {
    Shl(Without(Ones(f), f.mask), f.low)
  }

  /** The bits a chosen number contributes. */
  function Chosen(f: Field, chosen: Word): Word
    requires FieldOk(f)
  {
    Under(Shl(Under(chosen, Ones(f)), f.low), Free(f))
  }

  /** gen_combined_mask. */
  function CombinedMask(fs: seq<Field>): Word
    requires FieldsOk(fs)
  {
    if fs == [] then ZERO else OrWord(CombinedMask(fs[..|fs| - 1]), Shl(fs[|fs| - 1].mask, fs[|fs| - 1].low))
  }

  function CombinedValue(fs: seq<Field>): Word
    requires FieldsOk(fs)
  {
    if fs == [] then ZERO else OrWord(CombinedValue(fs[..|fs| - 1]), Shl(fs[|fs| - 1].value, fs[|fs| - 1].low))
  }

  /** The word after filling the first fields with the given choices. */
  function Fill(value: Word, fs: seq<Field>, choices: seq<Word>): Word
    requires FieldsOk(fs) && |choices| == |fs|
  {
    if fs == [] then value
    else
      var k := |fs| - 1;
      OrWord(Fill(value, fs[..k], choices[..k]), Chosen(fs[k], choices[k]))
  }

  /** The field loop of randomly_init_picked_instr; the source of choices is
      arbitrary, and fields without free bits take none. */
  method InitPickedInstr(value: Word, fs: seq<Field>, choices: seq<Word>) returns (encoded: Word)
    requires FieldsOk(fs) && |choices| == |fs|
    requires forall i :: 0 <= i < |fs| ==> Shiftable(fs[i])
    ensures encoded == Fill(value, fs, choices)
  {
    hide Free, Chosen, OrWord;
    encoded := value;
    assert fs[..0] == [];
    for i := 0 to |fs|
      invariant encoded == Fill(value, fs[..i], choices[..i])
    {
      assert fs[..i + 1][..i] == fs[..i] && choices[..i + 1][..i] == choices[..i];
      var invertedMask := Free(fs[i]);
      if invertedMask == ZERO {
        NothingFree(fs[i], choices[i], encoded);
        continue;
      }
      encoded := OrWord(encoded, Chosen(fs[i], choices[i]));
    }
    assert fs[..|fs|] == fs && choices[..|fs|] == choices;
  }

  lemma NothingFree(f: Field, chosen: Word, e: Word)
    requires FieldOk(f) && Free(f) == ZERO
    ensures OrWord(e, Chosen(f, chosen)) == e
  {
    hide Free, Shl, Ones;
  }

  /** Choices only touch free bits, and can set all of them or none. */
  lemma ChosenBits(f: Field, chosen: Word)
    requires FieldOk(f)
    ensures Under(Chosen(f, chosen), Free(f)) == Chosen(f, chosen)
    ensures Chosen(f, ZERO) == ZERO
    ensures Chosen(f, ALL) == Free(f)
  {
    hide Ones, Shl, Under, Without;
    var o, m := Ones(f), f.mask;
    UnderLaws(Shl(Under(chosen, o), f.low), Free(f));
    UnderLaws(ALL, o);
    UnderLaws(ZERO, o);
    ShlLaws(o, Without(o, m), f.low);
    WithoutLaws(o, m);
  }

  lemma UnderLaws(x: Word, y: Word)
    ensures Under(Under(x, y), y) == Under(x, y)
    ensures Under(ALL, y) == y
    ensures Under(ZERO, y) == ZERO
    ensures Under(x, ZERO) == ZERO
    ensures Under(x, y) == Under(y, x)
  {
    hide Under;
    UnderTwice(x, y);
    UnderAll(y);
    UnderZero(y);
    UnderZero(x);
    UnderSwap(x, y);
    UnderSwap(x, ZERO);
  }

  lemma UnderTwice(x: Word, y: Word)
    ensures Under(Under(x, y), y) == Under(x, y)
  {
  }

  lemma UnderAll(y: Word)
    ensures Under(ALL, y) == y
  {
  }

  lemma UnderZero(y: Word)
    ensures Under(ZERO, y) == ZERO
  {
  }

  lemma UnderSwap(x: Word, y: Word)
    ensures Under(x, y) == Under(y, x)
  {
  }

  lemma WithoutLaws(x: Word, y: Word)
    ensures Under(x, Without(x, y)) == Without(x, y)
    ensures Under(Without(x, y), x) == Without(x, y)
    ensures Under(Without(x, y), y) == ZERO
  {
  }

  lemma {:induction false} ShlLaws(x: Word, y: Word, n: nat)
    ensures Under(Shl(x, n), Shl(y, n)) == Shl(Under(x, y), n)
    ensures Shl(ZERO, n) == ZERO
    decreases n
  {
    hide Shl1, Under;
    if n > 0 {
      Shl1Laws(x, y);
      ShlLaws(Shl1(x), Shl1(y), n - 1);
    }
  }

  lemma Shl1Laws(x: Word, y: Word)
    ensures Under(Shl1(x), Shl1(y)) == Shl1(Under(x, y))
    ensures Shl1(ZERO) == ZERO
  {
  }

  /** Every free bit that some field fixes is fixed to one. */
  ghost predicate FreeBitsHarmless(fs: seq<Field>, mask: Word, value: Word)
    requires FieldsOk(fs)
  {
    forall i :: 0 <= i < |fs| ==> Under(Free(fs[i]), mask) == Under(Under(Free(fs[i]), mask), value)
  }

  lemma OrInside(e: Word, c: Word, free: Word, mask: Word, value: Word)
    requires Under(e, mask) == value && Under(c, free) == c
    requires Under(free, mask) == Under(Under(free, mask), value)
    ensures Under(OrWord(e, c), mask) == value
  {
  }

  lemma OrOutside(free: Word, mask: Word, value: Word)
    requires Under(value, mask) == value && Under(OrWord(value, free), mask) == value
    ensures Under(free, mask) == Under(Under(free, mask), value)
  {
  }

  lemma {:induction false} FillStays(fs: seq<Field>, choices: seq<Word>, mask: Word, value: Word)
    requires FieldsOk(fs) && |choices| == |fs| && Under(value, mask) == value
    requires FreeBitsHarmless(fs, mask, value)
    ensures Under(Fill(value, fs, choices), mask) == value
  {
    hide Under, OrWord, Chosen, Free, FieldOk;
    if fs != [] {
      var k := |fs| - 1;
      assert FreeBitsHarmless(fs[..k], mask, value);
      FillStays(fs[..k], choices[..k], mask, value);
      ChosenBits(fs[k], choices[k]);
      OrInside(Fill(value, fs[..k], choices[..k]), Chosen(fs[k], choices[k]), Free(fs[k]), mask, value);
    }
  }

  /** Everything zero except field i, which is all ones. */
  function OnlyField(n: nat, i: nat): (c: seq<Word>)
    ensures |c| == n
  {
    seq(n, k => if k == i then ALL else ZERO)
  }

  lemma {:induction false} FillOnly(fs: seq<Field>, value: Word, n: nat, i: nat)
    requires FieldsOk(fs) && n <= |fs|
    ensures Fill(value, fs[..n], OnlyField(|fs|, i)[..n]) == if i < n then OrWord(value, Free(fs[i])) else value
  {
    hide OrWord, Chosen, Free;
    if n > 0 {
      FillOnly(fs, value, n - 1, i);
      var c := OnlyField(|fs|, i);
      assert fs[..n][..n - 1] == fs[..n - 1] && c[..n][..n - 1] == c[..n - 1];
      ChosenBits(fs[n - 1], c[n - 1]);
      OrZero(value);
      if i < n - 1 { OrZero(OrWord(value, Free(fs[i]))); }
    }
  }

  lemma OrZero(e: Word)
    ensures OrWord(e, ZERO) == e
  {
  }

  /** The generated word stays in its template for all choices exactly when no
      free bit of a field overlaps a bit that the template fixes to zero. */
  lemma StaysInTemplateIff(fs: seq<Field>, mask: Word, value: Word)
    requires FieldsOk(fs) && Under(value, mask) == value
    ensures (forall choices :: |choices| == |fs| ==> Under(Fill(value, fs, choices), mask) == value)
      <==> FreeBitsHarmless(fs, mask, value)
  {
    hide Under, OrWord, Fill, Free;
    if FreeBitsHarmless(fs, mask, value) {
      forall choices: seq<Word> | |choices| == |fs|
        ensures Under(Fill(value, fs, choices), mask) == value
      {
        FillStays(fs, choices, mask, value);
      }
    }
    if forall choices :: |choices| == |fs| ==> Under(Fill(value, fs, choices), mask) == value {
      forall i | 0 <= i < |fs|
        ensures Under(Free(fs[i]), mask) == Under(Under(Free(fs[i]), mask), value)
      {
        FillOnly(fs, value, |fs|, i);
        var c := OnlyField(|fs|, i);
        assert fs[..|fs|] == fs && c[..|fs|] == c;
        OrOutside(Free(fs[i]), mask, value);
      }
    }
  }

  // ---------------------------------------------------------------------
  // Fields that do not overlap
  // ---------------------------------------------------------------------

  /** The bits of the word that the field covers. */
  function Range(f: Field): Word
    requires FieldOk(f)
  {
    Shl(Ones(f), f.low)
  }

  /** Fixed bits of a field, in place. */
  function Fixed(f: Field): Word
    requires FieldOk(f)
  {
    Shl(f.mask, f.low)
  }

  /** No two fields share a bit, and fixed bits lie in their field. */
  ghost predicate Apart(fs: seq<Field>)
    requires FieldsOk(fs)
  {
    && (forall i :: 0 <= i < |fs| ==> Under(fs[i].mask, Ones(fs[i])) == fs[i].mask)
    && (forall i, j :: 0 <= i < |fs| && 0 <= j < |fs| && i != j ==> Under(Range(fs[i]), Range(fs[j])) == ZERO)
  }

  lemma FreeInRange(f: Field)
    requires FieldOk(f)
    ensures Under(Free(f), Range(f)) == Free(f)
  {
    hide Ones, Shl, Under, Without;
    WithoutLaws(Ones(f), f.mask);
    ShlLaws(Without(Ones(f), f.mask), Ones(f), f.low);
  }

  lemma FixedInRange(f: Field)
    requires FieldOk(f) && Under(f.mask, Ones(f)) == f.mask
    ensures Under(Fixed(f), Range(f)) == Fixed(f)
  {
    hide Ones, Shl, Under;
    ShlLaws(f.mask, Ones(f), f.low);
  }

  lemma FreeIsNotFixed(f: Field)
    requires FieldOk(f)
    ensures Under(Free(f), Fixed(f)) == ZERO
  {
    hide Ones, Shl, Under, Without;
    WithoutLaws(Ones(f), f.mask);
    ShlLaws(Without(Ones(f), f.mask), f.mask, f.low);
  }

  lemma SubsetsApart(a: Word, ra: Word, b: Word, rb: Word)
    requires Under(a, ra) == a && Under(b, rb) == b && Under(ra, rb) == ZERO
    ensures Under(a, b) == ZERO
  {
  }

  lemma OrApart(a: Word, x: Word, y: Word)
    requires Under(a, x) == ZERO && Under(a, y) == ZERO
    ensures Under(a, OrWord(x, y)) == ZERO
  {
  }

  lemma {:induction false} FreeApartFromMask(fs: seq<Field>, i: nat, n: nat)
    requires FieldsOk(fs) && Apart(fs) && i < |fs| && n <= |fs|
    ensures Under(Free(fs[i]), CombinedMask(fs[..n])) == ZERO
  {
    hide Under, OrWord, Free, Range, Ones, Shl, FieldOk;
    if n == 0 {
      UnderLaws(Free(fs[i]), ZERO);
    } else {
      FreeApartFromMask(fs, i, n - 1);
      var k := n - 1;
      assert fs[..n][..k] == fs[..k];
      assert Under(Free(fs[i]), Fixed(fs[k])) == ZERO by {
        if i == k {
          FreeIsNotFixed(fs[i]);
        } else {
          FreeInRange(fs[i]);
          FixedInRange(fs[k]);
          SubsetsApart(Free(fs[i]), Range(fs[i]), Fixed(fs[k]), Range(fs[k]));
        }
      }
      OrApart(Free(fs[i]), CombinedMask(fs[..k]), Fixed(fs[k]));
    }
  }

  lemma OrSubset(v: Word, m: Word, v': Word, m': Word)
    requires Under(v, m) == v && Under(v', m') == v'
    ensures Under(OrWord(v, v'), OrWord(m, m')) == OrWord(v, v')
  {
  }

  lemma ShiftSubset(f: Field)
    requires FieldOk(f)
    ensures Under(Shl(f.value, f.low), Fixed(f)) == Shl(f.value, f.low)
  {
    hide Shl, Under;
    ShlLaws(f.value, f.mask, f.low);
  }

  /** The assertion of gen_combined_mask always holds. */
  lemma {:induction false} ValueInMask(fs: seq<Field>)
    requires FieldsOk(fs)
    ensures Under(CombinedValue(fs), CombinedMask(fs)) == CombinedValue(fs)
  {
    hide Under, OrWord, Shl;
    if fs == [] {
      UnderLaws(ZERO, ZERO);
    } else {
      var k := |fs| - 1;
      ValueInMask(fs[..k]);
      ShiftSubset(fs[k]);
      OrSubset(CombinedValue(fs[..k]), CombinedMask(fs[..k]), Shl(fs[k].value, fs[k].low), Fixed(fs[k]));
    }
  }

  /** Templates of non-overlapping fields are never left, and the decoder
      names a generated word by a pattern at least as specific as its template. */
  lemma GeneratedStaysInTemplate(fs: seq<Field>, choices: seq<Word>, ps: seq<Pattern>, bits: seq<nat>, t: nat)
    requires FieldsOk(fs) && Apart(fs) && |choices| == |fs|
    requires ValidBits(bits) && WellFormed(ps)
    requires t < |ps| && ps[t].mask == CombinedMask(fs) && ps[t].value == CombinedValue(fs)
    ensures var w := Fill(CombinedValue(fs), fs, choices);
      && Matches(ps[t], w)
      && exists i :: 0 <= i < |ps| && IsBest(ps, w, i) && BitCount(ps[t].mask) <= BitCount(ps[i].mask)
           && Decode(ps, bits, w) == Some(ps[i].name)
  {
    hide Under, OrWord, Free, CombinedMask, CombinedValue, Fill, Decode, BitCount, Apart, FieldOk;
    var mask, value := CombinedMask(fs), CombinedValue(fs);
    ValueInMask(fs);
    assert FreeBitsHarmless(fs, mask, value) by {
      forall i | 0 <= i < |fs|
        ensures Under(Free(fs[i]), mask) == Under(Under(Free(fs[i]), mask), value)
      {
        FreeApartFromMask(fs, i, |fs|);
        assert fs[..|fs|] == fs;
        UnderLaws(ZERO, value);
      }
    }
    FillStays(fs, choices, mask, value);
    DecodeIsMostSpecific(ps, bits, Fill(value, fs, choices));
  }
}
