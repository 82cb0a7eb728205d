/** Fields of templates bit by bit: what is fixed, what is chosen, what is read back. */
module FieldBits {
  import opened DecoderIndex
  import opened WordBits
  import opened Template

  lemma ShrWithout(x: Word, y: Word) ensures Shr1(Without(x, y)) == Without(Shr1(x), Shr1(y)) {}
  lemma LowWithout(x: Word, y: Word) ensures HasBit(Without(x, y), 0) <==> HasBit(x, 0) && !HasBit(y, 0) {}

  lemma {:induction false} BitWithout(x: Word, y: Word, b: nat)
    ensures HasBit(Without(x, y), b) <==> HasBit(x, b) && !HasBit(y, b)
    decreases b
  {
    hide Without, Shr1;
    if b == 0 {
      LowWithout(x, y);
    } else {
      ShrWithout(x, y);
      BitWithout(Shr1(x), Shr1(y), b - 1);
    }
  }

  lemma ShrShl(x: Word) ensures Shr1(Shl1(x)) == Under(x, Word(0x7fff_ffff)) {}
  lemma LowShl(x: Word) ensures !HasBit(Shl1(x), 0) {}

  lemma {:induction false} Ones31Bit(k: nat, b: nat)
    requires k + b < 31
    ensures HasBit(Ones31(k), b)
    decreases b
  {
    hide Ones31, Shr1;
    if b == 0 {
      Ones31Low(k);
    } else {
      Ones31Shr(k);
      Ones31Bit(k + 1, b - 1);
    }
  }

  lemma BitShl1(x: Word, b: nat)
    requires b < 32
    ensures HasBit(Shl1(x), b) <==> b > 0 && HasBit(x, b - 1)
  {
    hide Shl1, Shr1, Under, Ones31;
    if b == 0 {
      LowShl(x);
    } else {
      ShrShl(x);
      var low := Word(0x7fff_ffff);
      BitUnder(x, low, b - 1);
      Ones31Ends();
      Ones31Bit(0, b - 1);
    }
  }

  lemma {:induction false} BitShl(x: Word, n: nat, b: nat)
    requires b < 32
    ensures HasBit(Shl(x, n), b) <==> n <= b && HasBit(x, b - n)
    decreases n
  {
    hide Shl1, HasBit;
    if n > 0 {
      BitShl(Shl1(x), n - 1, b);
      if n - 1 <= b {
        BitShl1(x, b - (n - 1));
      }
    }
  }

  lemma BitOne(b: nat)
    requires b < 32
    ensures HasBit(Word(1), b) <==> b == 0
  {
    if b > 0 {
      assert Shr1(Word(1)) == ZERO;
      BitZero(b - 1);
    }
  }

  lemma {:induction false} BitIsShl(b: nat)
    requires b < 32
    ensures Bit(b) == Shl(Word(1), b)
  {
    hide Shl;
    if b == 0 {
      BitStart();
    } else {
      BitIsShl(b - 1);
      ShlLast(Word(1), b);
      BitNext(b);
    }
  }

  lemma BitStart() ensures Bit(0) == Shl(Word(1), 0) {}
  lemma BitNext(b: nat) requires 0 < b < 32 ensures Bit(b) == Shl1(Bit(b - 1)) { ShiftOnce(b); }

  /** The test that the source writes with a mask. */
  lemma BitTest(m: Word, b: nat)
    requires b < 32
    ensures Under(m, Bit(b)) == ZERO <==> !HasBit(m, b)
  {
    hide HasBit, Under, Bit, Shl;
    BitIsShl(b);
    forall i: nat | i < 32
      ensures HasBit(Under(m, Bit(b)), i) <==> HasBit(m, i) && i == b
    {
      BitUnder(m, Bit(b), i);
      BitShl(Word(1), b, i);
      if b <= i { BitOne(i - b); }
    }
    forall i: nat
      ensures !HasBit(ZERO, i)
    {
      BitZero(i);
    }
    if !HasBit(m, b) { SameBits(Under(m, Bit(b)), ZERO); }
  }

  lemma {:induction false} BitLowOnes(k: nat, b: nat)
    requires b < 32
    ensures HasBit(LowOnes(k), b) <==> b < k
    decreases k
  {
    hide Shl1, HasBit, OrWord;
    if k == 0 {
      BitZero(b);
    } else {
      BitOr(Shl1(LowOnes(k - 1)), Word(1), b);
      BitShl1(LowOnes(k - 1), b);
      BitOne(b);
      if b > 0 { BitLowOnes(k - 1, b - 1); }
    }
  }

  // ---------------------------------------------------------------------
  // One field
  // ---------------------------------------------------------------------

  /** Bit b of the word belongs to the field. */
  predicate InField(f: Field, b: nat) {
    f.low <= b <= f.high
  }

  lemma RangeBit(f: Field, b: nat)
    requires FieldOk(f) && b < 32
    ensures HasBit(Range(f), b) <==> InField(f, b)
  {
    hide Shl, LowOnes, HasBit;
    BitShl(Ones(f), f.low, b);
    if f.low <= b { BitLowOnes(f.high - f.low + 1, b - f.low); }
  }

  lemma ChosenBit(f: Field, chosen: Word, b: nat)
    requires FieldOk(f) && b < 32
    ensures HasBit(Chosen(f, chosen), b) <==> InField(f, b) && HasBit(chosen, b - f.low) && !HasBit(f.mask, b - f.low)
  {
    hide Shl, LowOnes, HasBit, Under, Without;
    var o := Ones(f);
    BitUnder(Shl(Under(chosen, o), f.low), Free(f), b);
    BitShl(Under(chosen, o), f.low, b);
    BitShl(Without(o, f.mask), f.low, b);
    if f.low <= b {
      BitUnder(chosen, o, b - f.low);
      BitWithout(o, f.mask, b - f.low);
      BitLowOnes(f.high - f.low + 1, b - f.low);
    }
  }

  /** A fixed bit of a field whose mask lies in it. */
  lemma FixedBit(f: Field, b: nat)
    requires FieldOk(f) && Under(f.mask, Ones(f)) == f.mask && b < 32
    ensures HasBit(Shl(f.mask, f.low), b) <==> InField(f, b) && HasBit(f.mask, b - f.low)
    ensures HasBit(Shl(f.value, f.low), b) <==> InField(f, b) && HasBit(f.value, b - f.low)
    ensures f.low <= b && HasBit(f.value, b - f.low) ==> HasBit(f.mask, b - f.low)
  {
    hide Shl, LowOnes, HasBit, Under;
    BitShl(f.mask, f.low, b);
    BitShl(f.value, f.low, b);
    if f.low <= b {
      BitUnder(f.mask, Ones(f), b - f.low);
      BitUnder(f.value, f.mask, b - f.low);
      BitLowOnes(f.high - f.low + 1, b - f.low);
    }
  }

  // ---------------------------------------------------------------------
  // All fields
  // ---------------------------------------------------------------------

  ghost predicate MasksInFields(fs: seq<Field>)
    requires FieldsOk(fs)
  {
    forall i :: 0 <= i < |fs| ==> Under(fs[i].mask, Ones(fs[i])) == fs[i].mask
  }

  /** Some field fixes bit b, and fixes it to one. */
  ghost predicate SomeMask(fs: seq<Field>, b: nat) {
    exists i :: 0 <= i < |fs| && InField(fs[i], b) && HasBit(fs[i].mask, b - fs[i].low)
  }

  ghost predicate SomeValue(fs: seq<Field>, b: nat) {
    exists i :: 0 <= i < |fs| && InField(fs[i], b) && HasBit(fs[i].value, b - fs[i].low)
  }

  /** Bits of the combined mask and value are those of the fields. */
  lemma {:induction false} CombinedBits(fs: seq<Field>, b: nat)
    requires FieldsOk(fs) && MasksInFields(fs) && b < 32
    ensures HasBit(CombinedMask(fs), b) <==> SomeMask(fs, b)
    ensures HasBit(CombinedValue(fs), b) <==> SomeValue(fs, b)
  {
    hide Shl, HasBit, OrWord, Ones, Under, FieldOk;
    if fs == [] {
      BitZero(b);
    } else {
      var k := |fs| - 1;
      var rest, f := fs[..k], fs[k];
      CombinedBits(rest, b);
      BitOr(CombinedMask(rest), Shl(f.mask, f.low), b);
      BitOr(CombinedValue(rest), Shl(f.value, f.low), b);
      FixedBit(f, b);
      assert forall i :: 0 <= i < k ==> rest[i] == fs[i];
    }
  }

  /** Some field has bit b free, and its choice sets it. */
  ghost predicate SomeChoice(fs: seq<Field>, choices: seq<Word>, b: nat)
    requires |choices| == |fs|
  {
    exists i :: 0 <= i < |fs| && InField(fs[i], b) && HasBit(choices[i], b - fs[i].low) && !HasBit(fs[i].mask, b - fs[i].low)
  }

  lemma {:induction false} FillBits(value: Word, fs: seq<Field>, choices: seq<Word>, b: nat)
    requires FieldsOk(fs) && |choices| == |fs| && b < 32
    ensures HasBit(Fill(value, fs, choices), b) <==> HasBit(value, b) || SomeChoice(fs, choices, b)
  {
    hide HasBit, OrWord, Chosen, FieldOk;
    if fs != [] {
      var k := |fs| - 1;
      var rest, cs := fs[..k], choices[..k];
      FillBits(value, rest, cs, b);
      BitOr(Fill(value, rest, cs), Chosen(fs[k], choices[k]), b);
      ChosenBit(fs[k], choices[k], b);
      assert forall i :: 0 <= i < k ==> rest[i] == fs[i] && cs[i] == choices[i];
    }
  }

  lemma OnlyField(fs: seq<Field>, i: nat, j: nat, b: nat)
    requires FieldsOk(fs) && Apart(fs) && i < |fs| && j < |fs| && b < 32 && InField(fs[i], b) && InField(fs[j], b)
    ensures i == j
  {
    hide HasBit, Range, Under, Ones;
    if i != j {
      RangeBit(fs[i], b);
      RangeBit(fs[j], b);
      BitUnder(Range(fs[i]), Range(fs[j]), b);
      BitZero(b);
    }
  }

  /** Read at a field, the filled word is the field's value where the field
      fixes it and the chosen number elsewhere; the combined mask and value,
      read there, are the field's own. */
  lemma FieldReadsBack(fs: seq<Field>, choices: seq<Word>, i: nat, b: nat)
    requires FieldsOk(fs) && Apart(fs) && |choices| == |fs| && i < |fs| && b < 32 && InField(fs[i], b)
    ensures HasBit(CombinedMask(fs), b) <==> HasBit(fs[i].mask, b - fs[i].low)
    ensures HasBit(CombinedValue(fs), b) <==> HasBit(fs[i].value, b - fs[i].low)
    ensures HasBit(Fill(CombinedValue(fs), fs, choices), b) <==>
      if HasBit(fs[i].mask, b - fs[i].low) then HasBit(fs[i].value, b - fs[i].low) else HasBit(choices[i], b - fs[i].low)
  {
    hide HasBit, FieldOk, Apart, CombinedMask, CombinedValue, Fill;
    assert MasksInFields(fs) by { ApartMasks(fs); }
    CombinedBits(fs, b);
    FillBits(CombinedValue(fs), fs, choices, b);
    forall j | 0 <= j < |fs| && InField(fs[j], b)
      ensures j == i
    {
      OnlyField(fs, i, j, b);
    }
    ValueWithinMask(fs[i], b - fs[i].low);
  }

  lemma ApartMasks(fs: seq<Field>)
    requires FieldsOk(fs) && Apart(fs)
    ensures MasksInFields(fs)
  {
  }

  lemma ValueWithinMask(f: Field, j: nat)
    requires FieldOk(f)
    ensures HasBit(f.value, j) ==> HasBit(f.mask, j)
  {
    hide HasBit, Under;
    BitUnder(f.value, f.mask, j);
  }
}
