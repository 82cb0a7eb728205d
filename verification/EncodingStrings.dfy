/**
 Encoding strings such as 101011010111-----000-----1110111. Bits are counted
 from the right. A dash leaves a bit open; the other characters form runs of
 fixed bits, each of which becomes a field whose mask covers its whole range.
 */
module EncodingStrings {
  import opened Bytes
  import opened DecoderIndex
  import opened Template
  import opened WordBits
  import opened FieldBits

  /** A run of fixed bits: its lowest bit and its digits, highest first. */
  datatype FixedRun = FixedRun(start: nat, bits: string)

  /** The digit of the encoding at bit i. */
  function DigitAt(encoding: string, i: nat): char
    requires i < |encoding|
  {
    encoding[|encoding| - 1 - i]
  }

  /** A run lies in the encoding, has no gap and repeats its digits. */
  ghost predicate RunOk(encoding: string, r: FixedRun) {
    && r.bits != [] && r.start + |r.bits| <= |encoding|
    && forall i :: r.start <= i < r.start + |r.bits| ==>
         DigitAt(encoding, i) == r.bits[|r.bits| - 1 - (i - r.start)] && DigitAt(encoding, i) != '-'
  }

  ghost predicate Covered(runs: seq<FixedRun>, i: nat) {
    exists j :: 0 <= j < |runs| && runs[j].start <= i < runs[j].start + |runs[j].bits|
  }

  /** The maximal runs of fixed digits below bit n, lowest first, with a gap between any two. */
  ghost predicate IsSplit(encoding: string, runs: seq<FixedRun>, n: nat)
    requires n <= |encoding|
  {
    && (forall j :: 0 <= j < |runs| ==> RunOk(encoding, runs[j]) && runs[j].start + |runs[j].bits| <= n)
    && (forall i, j :: 0 <= i < j < |runs| ==> runs[i].start + |runs[i].bits| < runs[j].start)
    && (forall i :: 0 <= i < n ==> (Covered(runs, i) <==> DigitAt(encoding, i) != '-'))
  }

  /** split_encoding_str. */
  method SplitEncoding(encoding: string) returns (encodings: seq<FixedRun>)
    ensures IsSplit(encoding, encodings, |encoding|)
  {
    hide IsSplit;
    encodings := [];
    var current: string := "";
    var currentStart: nat := 0;
    assert IsSplit(encoding, [], 0) by { NoSplit(encoding); }
    for i := 0 to |encoding|
      invariant current == "" ==> IsSplit(encoding, encodings, i) && (i == 0 || DigitAt(encoding, i - 1) == '-')
      invariant current != "" ==> currentStart + |current| == i && IsSplit(encoding, encodings + [FixedRun(currentStart, current)], i)
    {
      var e := DigitAt(encoding, i);
      if e == '-' {
        if current != "" {
          encodings := encodings + [FixedRun(currentStart, current)];
          current := "";
        }
        GapStep(encoding, encodings, i);
      } else if current != "" {
        GrowStep(encoding, encodings, currentStart, current, i);
        current := [e] + current;
      } else {
        StartStep(encoding, encodings, i);
        currentStart := i;
        current := [e];
      }
    }
    if current != "" {
      encodings := encodings + [FixedRun(currentStart, current)];
    }
  }

  lemma NoSplit(encoding: string)
    ensures IsSplit(encoding, [], 0)
  {
  }

  lemma GapStep(encoding: string, runs: seq<FixedRun>, n: nat)
    requires n < |encoding| && IsSplit(encoding, runs, n) && DigitAt(encoding, n) == '-'
    ensures IsSplit(encoding, runs, n + 1)
  {
  }

  lemma StartStep(encoding: string, runs: seq<FixedRun>, n: nat)
    requires n < |encoding| && IsSplit(encoding, runs, n) && DigitAt(encoding, n) != '-'
    requires n == 0 || DigitAt(encoding, n - 1) == '-'
    ensures IsSplit(encoding, runs + [FixedRun(n, [DigitAt(encoding, n)])], n + 1)
  {
    hide Covered;
    var r := FixedRun(n, [DigitAt(encoding, n)]);
    var runs' := runs + [r];
    forall j | 0 <= j < |runs|
      ensures runs[j].start + |runs[j].bits| < n
    {
      assert RunOk(encoding, runs[j]);
      assert DigitAt(encoding, runs[j].start + |runs[j].bits| - 1) != '-';
    }
    assert !Covered(runs, n) by { NotCovered(runs, n); }
    forall i | 0 <= i < n + 1
      ensures Covered(runs', i) <==> DigitAt(encoding, i) != '-'
    {
      StartCovered(runs, r, i);
    }
  }

  lemma NotCovered(runs: seq<FixedRun>, n: nat)
    requires forall j :: 0 <= j < |runs| ==> runs[j].start + |runs[j].bits| <= n
    ensures !Covered(runs, n)
  {
  }

  lemma StartCovered(runs: seq<FixedRun>, r: FixedRun, i: nat)
    requires |r.bits| == 1
    ensures Covered(runs + [r], i) <==> Covered(runs, i) || i == r.start
  {
    var b := runs + [r];
    assert b[|runs|] == r;
    if Covered(runs, i) {
      var j :| 0 <= j < |runs| && runs[j].start <= i < runs[j].start + |runs[j].bits|;
      assert b[j] == runs[j];
    }
    if i == r.start {
      assert b[|runs|].start <= i < b[|runs|].start + |b[|runs|].bits|;
    }
  }

  lemma GrowStep(encoding: string, runs: seq<FixedRun>, start: nat, current: string, n: nat)
    requires n < |encoding| && current != "" && start + |current| == n && DigitAt(encoding, n) != '-'
    requires IsSplit(encoding, runs + [FixedRun(start, current)], n)
    ensures IsSplit(encoding, runs + [FixedRun(start, [DigitAt(encoding, n)] + current)], n + 1)
  {
    hide RunOk, Covered;
    var r, r' := FixedRun(start, current), FixedRun(start, [DigitAt(encoding, n)] + current);
    var old', new' := runs + [r], runs + [r'];
    assert old'[|runs|] == r && new'[|runs|] == r';
    assert RunOk(encoding, r);
    GrowRun(encoding, r, n);
    forall j | 0 <= j < |new'|
      ensures RunOk(encoding, new'[j]) && new'[j].start + |new'[j].bits| <= n + 1
    {
      assert j < |runs| ==> new'[j] == old'[j];
    }
    forall i, j | 0 <= i < j < |new'|
      ensures new'[i].start + |new'[i].bits| < new'[j].start
    {
      assert old'[i].start + |old'[i].bits| < old'[j].start;
    }
    forall i | 0 <= i < n + 1
      ensures Covered(new', i) <==> DigitAt(encoding, i) != '-'
    {
      GrowCovered(runs, r, r', i);
      if i == n {
        assert Covered(new', n);
      }
    }
  }

  lemma GrowRun(encoding: string, r: FixedRun, n: nat)
    requires RunOk(encoding, r) && n == r.start + |r.bits| < |encoding| && DigitAt(encoding, n) != '-'
    ensures RunOk(encoding, FixedRun(r.start, [DigitAt(encoding, n)] + r.bits))
  {
    var r' := FixedRun(r.start, [DigitAt(encoding, n)] + r.bits);
    forall i | r'.start <= i < r'.start + |r'.bits|
      ensures DigitAt(encoding, i) == r'.bits[|r'.bits| - 1 - (i - r'.start)] && DigitAt(encoding, i) != '-'
    {
      if i < n {
        assert r'.bits[|r'.bits| - 1 - (i - r.start)] == r.bits[|r.bits| - 1 - (i - r.start)];
      }
    }
  }

  lemma GrowCovered(runs: seq<FixedRun>, r: FixedRun, r': FixedRun, i: nat)
    requires r'.start == r.start && |r'.bits| == |r.bits| + 1
    ensures Covered(runs + [r'], i) <==> Covered(runs + [r], i) || i == r.start + |r.bits|
  {
    var a, b := runs + [r], runs + [r'];
    assert a[|runs|] == r && b[|runs|] == r';
    if Covered(a, i) {
      var j :| 0 <= j < |a| && a[j].start <= i < a[j].start + |a[j].bits|;
      assert j < |runs| ==> b[j] == a[j];
      assert b[j].start <= i < b[j].start + |b[j].bits|;
    }
    if Covered(b, i) {
      var j :| 0 <= j < |b| && b[j].start <= i < b[j].start + |b[j].bits|;
      assert j < |runs| ==> b[j] == a[j];
      if i != r.start + |r.bits| {
        assert a[j].start <= i < a[j].start + |a[j].bits|;
      }
    }
  }

  // ---------------------------------------------------------------------
  // Fields of the runs
  // ---------------------------------------------------------------------

  /** int(bits, 2). */
  function BinaryValue(bits: string): Word {
    if bits == [] then ZERO
    else OrWord(Shl1(BinaryValue(bits[..|bits| - 1])), if bits[|bits| - 1] == '1' then Word(1) else ZERO)
  }

  lemma {:induction false} BinaryFits(bits: string)
    ensures Under(BinaryValue(bits), LowOnes(|bits|)) == BinaryValue(bits)
  {
    hide Under, OrWord, Shl1;
    if bits == [] {
      UnderLaws(ZERO, ZERO);
    } else {
      var k := |bits| - 1;
      BinaryFits(bits[..k]);
      var v, m := BinaryValue(bits[..k]), LowOnes(k);
      Shl1Laws(v, m);
      OneFits();
      OrSubset(Shl1(v), Shl1(m), if bits[k] == '1' then Word(1) else ZERO, Word(1));
    }
  }

  lemma OneFits()
    ensures Under(Word(1), Word(1)) == Word(1) && Under(ZERO, Word(1)) == ZERO
  {
  }

  function RunField(r: FixedRun): (f: Field)
    requires r.bits != []
  {
    Field(r.start + |r.bits| - 1, r.start, BinaryValue(r.bits), LowOnes(|r.bits|))
  }

  function RunFields(runs: seq<FixedRun>): (fs: seq<Field>)
    requires forall j :: 0 <= j < |runs| ==> runs[j].bits != []
    ensures |fs| == |runs|
    ensures forall j :: 0 <= j < |runs| ==> fs[j] == RunField(runs[j])
  {
    if runs == [] then [] else [RunField(runs[0])] + RunFields(runs[1..])
  }

  /** Low bits and bits shifted beyond them do not meet. */
  lemma {:induction false} LowApart(x: Word, k: nat, n: nat)
    requires k <= n
    ensures Under(LowOnes(k), Shl(x, n)) == ZERO
    decreases n
  {
    hide Under, OrWord, Shl1;
    if k == 0 {
      UnderLaws(x, Shl(x, n));
    } else {
      LowApart(x, k - 1, n - 1);
      ShlLast(x, n);
      Shl1Laws(LowOnes(k - 1), Shl(x, n - 1));
      LowStep(Shl1(LowOnes(k - 1)), Shl(x, n - 1));
    }
  }

  lemma LowStep(a: Word, b: Word)
    requires Under(a, Shl1(b)) == ZERO
    ensures Under(OrWord(a, Word(1)), Shl1(b)) == ZERO
  {
  }

  lemma RangesApart(f: Field, g: Field)
    requires FieldOk(f) && FieldOk(g) && f.high < g.low
    ensures Under(Range(f), Range(g)) == ZERO && Under(Range(g), Range(f)) == ZERO
  {
    hide Under, LowOnes, Shl;
    var d := g.low - f.low;
    ShlAdd(Ones(g), d, f.low);
    LowApart(Ones(g), f.high - f.low + 1, d);
    ShlLaws(Ones(f), Shl(Ones(g), d), f.low);
    UnderLaws(Range(f), Range(g));
  }

  /** The fixed fields of a split encoding do not overlap, so they can be
      filled and decoded as a template, fully fixed encodings included. */
  lemma SplitFieldsApart(encoding: string, runs: seq<FixedRun>)
    requires |encoding| <= 32 && IsSplit(encoding, runs, |encoding|)
    ensures forall j :: 0 <= j < |runs| ==> runs[j].bits != []
    ensures FieldsOk(RunFields(runs)) && Apart(RunFields(runs))
  {
    hide BinaryValue, LowOnes, Under, Shl, RunOk, FieldOk, Range, Ones;
    forall j | 0 <= j < |runs|
      ensures runs[j].bits != [] && runs[j].start + |runs[j].bits| <= |encoding|
    {
      assert RunOk(encoding, runs[j]);
      RunBounds(encoding, runs[j]);
    }
    var fs := RunFields(runs);
    forall j | 0 <= j < |fs|
      ensures FieldOk(fs[j]) && Under(fs[j].mask, Ones(fs[j])) == fs[j].mask
    {
      RunFieldOk(runs[j]);
    }
    forall i, j | 0 <= i < |fs| && 0 <= j < |fs| && i != j
      ensures Under(Range(fs[i]), Range(fs[j])) == ZERO
    {
      if i < j {
        assert runs[i].start + |runs[i].bits| < runs[j].start;
        RangesApart(fs[i], fs[j]);
      } else {
        assert runs[j].start + |runs[j].bits| < runs[i].start;
        RangesApart(fs[j], fs[i]);
      }
    }
  }

  lemma RunFieldOk(r: FixedRun)
    requires r.bits != [] && r.start + |r.bits| <= 32
    ensures FieldOk(RunField(r)) && Under(RunField(r).mask, Ones(RunField(r))) == RunField(r).mask
  {
    hide BinaryValue, LowOnes, Under;
    BinaryFits(r.bits);
    UnderSelf(LowOnes(|r.bits|));
  }

  lemma RunBounds(encoding: string, r: FixedRun)
    requires RunOk(encoding, r)
    ensures r.bits != [] && r.start + |r.bits| <= |encoding|
  {
  }

  lemma UnderSelf(x: Word)
    ensures Under(x, x) == x
  {
  }

  // ---------------------------------------------------------------------
  // Mask and value of an encoding
  // ---------------------------------------------------------------------

  /** Bit b of the number is the digit that many places from the right. */
  lemma {:induction false} BinaryBit(bits: string, b: nat)
    requires b < 32
    ensures HasBit(BinaryValue(bits), b) <==> b < |bits| && bits[|bits| - 1 - b] == '1'
  {
    hide HasBit, OrWord, Shl1;
    if bits == [] {
      BitZero(b);
    } else {
      var k := |bits| - 1;
      var last := if bits[k] == '1' then Word(1) else ZERO;
      BitOr(Shl1(BinaryValue(bits[..k])), last, b);
      BitShl1(BinaryValue(bits[..k]), b);
      BitOne(b);
      BitZero(b);
      if b > 0 { BinaryBit(bits[..k], b - 1); }
    }
  }

  lemma RunBit(encoding: string, r: FixedRun, b: nat)
    requires RunOk(encoding, r) && |encoding| <= 32 && r.start <= b < r.start + |r.bits|
    ensures InField(RunField(r), b) && b < |encoding|
    ensures HasBit(RunField(r).mask, b - r.start)
    ensures HasBit(RunField(r).value, b - r.start) <==> DigitAt(encoding, b) == '1'
  {
    hide HasBit, BinaryValue, LowOnes;
    BinaryBit(r.bits, b - r.start);
    BitLowOnes(|r.bits|, b - r.start);
  }

  /** The combined mask has the bits whose digit is not a dash, and the combined
      value those whose digit is a one. */
  lemma EncodingBits(encoding: string, runs: seq<FixedRun>, b: nat)
    requires |encoding| <= 32 && IsSplit(encoding, runs, |encoding|) && b < 32
    ensures (forall j :: 0 <= j < |runs| ==> runs[j].bits != []) && FieldsOk(RunFields(runs))
    ensures HasBit(CombinedMask(RunFields(runs)), b) <==> b < |encoding| && DigitAt(encoding, b) != '-'
    ensures HasBit(CombinedValue(RunFields(runs)), b) <==> b < |encoding| && DigitAt(encoding, b) == '1'
  {
    hide HasBit, CombinedMask, CombinedValue, FieldOk, Apart, RunField, IsSplit, MasksInFields, SomeMask, SomeValue;
    SplitFieldsApart(encoding, runs);
    var fs := RunFields(runs);
    ApartMasks(fs);
    CombinedBits(fs, b);
    FixedDigits(encoding, runs, fs, b);
  }

  lemma FixedDigits(encoding: string, runs: seq<FixedRun>, fs: seq<Field>, b: nat)
    requires |encoding| <= 32 && IsSplit(encoding, runs, |encoding|) && b < 32
    requires |fs| == |runs| && forall j :: 0 <= j < |runs| ==> runs[j].bits != [] && fs[j] == RunField(runs[j])
    ensures SomeMask(fs, b) <==> b < |encoding| && DigitAt(encoding, b) != '-'
    ensures SomeValue(fs, b) <==> b < |encoding| && DigitAt(encoding, b) == '1'
  {
    hide HasBit, RunField, InField, DigitAt;
    forall j | 0 <= j < |runs|
      ensures fs[j].low == runs[j].start && (InField(fs[j], b) <==> runs[j].start <= b < runs[j].start + |runs[j].bits|)
    {
      RunRange(runs[j], b);
    }
    forall j | 0 <= j < |runs| && InField(fs[j], b)
      ensures b < |encoding| && HasBit(fs[j].mask, b - fs[j].low) && DigitAt(encoding, b) != '-'
      ensures HasBit(fs[j].value, b - fs[j].low) <==> DigitAt(encoding, b) == '1'
    {
      assert RunOk(encoding, runs[j]);
      RunBit(encoding, runs[j], b);
    }
    if b < |encoding| && DigitAt(encoding, b) != '-' {
      assert Covered(runs, b);
      var j :| 0 <= j < |runs| && runs[j].start <= b < runs[j].start + |runs[j].bits|;
      assert InField(fs[j], b);
    }
  }

  lemma RunRange(r: FixedRun, b: nat)
    requires r.bits != []
    ensures RunField(r).low == r.start && (InField(RunField(r), b) <==> r.start <= b < r.start + |r.bits|)
  {
    hide BinaryValue, LowOnes;
  }
}
