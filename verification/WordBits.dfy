/** Words bit by bit: what the masks and the bit count of the decoder mean. */
module WordBits {
  import opened DecoderIndex

  // ---------------------------------------------------------------------
  // Bits of the operations
  // ---------------------------------------------------------------------

  lemma ShrUnder(x: Word, y: Word) ensures Shr1(Under(x, y)) == Under(Shr1(x), Shr1(y)) {}
  lemma ShrOr(x: Word, y: Word) ensures Shr1(OrWord(x, y)) == OrWord(Shr1(x), Shr1(y)) {}
  lemma LowUnder(x: Word, y: Word) ensures HasBit(Under(x, y), 0) <==> HasBit(x, 0) && HasBit(y, 0) {}
  lemma LowOr(x: Word, y: Word) ensures HasBit(OrWord(x, y), 0) <==> HasBit(x, 0) || HasBit(y, 0) {}

  lemma {:induction false} BitUnder(x: Word, y: Word, b: nat)
    ensures HasBit(Under(x, y), b) <==> HasBit(x, b) && HasBit(y, b)
    decreases b
  {
    hide Under, Shr1;
    if b == 0 {
      LowUnder(x, y);
    } else {
      ShrUnder(x, y);
      BitUnder(Shr1(x), Shr1(y), b - 1);
    }
  }

  lemma {:induction false} BitOr(x: Word, y: Word, b: nat)
    ensures HasBit(OrWord(x, y), b) <==> HasBit(x, b) || HasBit(y, b)
    decreases b
  {
    hide OrWord, Shr1;
    if b == 0 {
      LowOr(x, y);
    } else {
      ShrOr(x, y);
      BitOr(Shr1(x), Shr1(y), b - 1);
    }
  }

  lemma {:induction false} BitZero(b: nat)
    ensures !HasBit(ZERO, b)
  {
    if b > 0 {
      assert Shr1(ZERO) == ZERO;
      BitZero(b - 1);
    }
  }

  // ---------------------------------------------------------------------
  // A word is its 32 bits
  // ---------------------------------------------------------------------

  function ShrN(x: Word, n: nat): Word
    decreases n
  {
    if n == 0 then x else ShrN(Shr1(x), n - 1)
  }

  /** The 31 lowest bits after k shifts to the right. */
  function Ones31(k: nat): Word
    requires k <= 31
  {
    Word((0x7fff_ffff as bv32) >> k)
  }

  lemma Ones31Shr(k: nat) requires k < 31 ensures Shr1(Ones31(k)) == Ones31(k + 1) {}
  lemma Ones31Low(k: nat) requires k < 31 ensures HasBit(Ones31(k), 0) {}
  lemma Ones31Ends() ensures Ones31(0) == Word(0x7fff_ffff) && Ones31(31) == ZERO {}
  lemma AllShr() ensures Shr1(Word(0xffff_ffff)) == Word(0x7fff_ffff) {}
  lemma UnderEnds(x: Word) ensures Under(x, Word(0xffff_ffff)) == x && Under(x, ZERO) == ZERO {}

  lemma {:induction false} Ones31Gone(k: nat)
    requires k <= 31
    ensures ShrN(Ones31(k), 31 - k) == ZERO
    decreases 31 - k
  {
    hide Ones31, Shr1;
    if k == 31 {
      Ones31Ends();
    } else {
      Ones31Shr(k);
      Ones31Gone(k + 1);
    }
  }

  lemma {:induction false} ShrNUnder(x: Word, y: Word, n: nat)
    ensures ShrN(Under(x, y), n) == Under(ShrN(x, n), ShrN(y, n))
    decreases n
  {
    hide Under, Shr1;
    if n > 0 {
      ShrUnder(x, y);
      ShrNUnder(Shr1(x), Shr1(y), n - 1);
    }
  }

  /** Nothing is left after 32 shifts. */
  lemma Shr32(x: Word)
    ensures ShrN(x, 32) == ZERO
  {
    hide Under, Shr1, Ones31;
    var all := Word(0xffff_ffff);
    UnderEnds(x);
    ShrNUnder(x, all, 32);
    AllShr();
    Ones31Ends();
    Ones31Gone(0);
    assert ShrN(all, 32) == ShrN(Shr1(all), 31) == ZERO;
    UnderEnds(ShrN(x, 32));
  }

  function LowOf(x: Word): bv32 { x.v & 1 }
  function Rebuild(h: Word, low: bv32): Word { Word((h.v << 1) | low) }
  lemma RawRebuild(v: bv32) ensures ((v >> 1) << 1) | (v & 1) == v {}
  lemma RebuildIs(x: Word) ensures Rebuild(Shr1(x), LowOf(x)) == x { RawRebuild(x.v); }
  lemma LowCases(x: Word) ensures LowOf(x) == if HasBit(x, 0) then 1 else 0 { RawLow(x.v); }
  lemma RawLow(v: bv32) ensures v & 1 == 0 || v & 1 == 1 {}

  lemma HalfAndBit(x: Word, y: Word)
    requires Shr1(x) == Shr1(y) && (HasBit(x, 0) <==> HasBit(y, 0))
    ensures x == y
  {
    hide Shr1, HasBit, LowOf, Rebuild;
    RebuildIs(x);
    RebuildIs(y);
    LowCases(x);
    LowCases(y);
  }

  lemma {:induction false} SameBitsUpTo(x: Word, y: Word, n: nat)
    requires ShrN(x, n) == ShrN(y, n) && forall b: nat :: b < n ==> (HasBit(x, b) <==> HasBit(y, b))
    ensures x == y
    decreases n
  {
    hide Shr1;
    if n > 0 {
      forall b: nat | b < n - 1
        ensures HasBit(Shr1(x), b) <==> HasBit(Shr1(y), b)
      {
        assert HasBit(x, b + 1) <==> HasBit(y, b + 1);
      }
      SameBitsUpTo(Shr1(x), Shr1(y), n - 1);
      assert HasBit(x, 0) <==> HasBit(y, 0);
      HalfAndBit(x, y);
    }
  }

  /** Words with the same 32 bits are the same. */
  lemma SameBits(x: Word, y: Word)
    requires forall b: nat :: b < 32 ==> (HasBit(x, b) <==> HasBit(y, b))
    ensures x == y
  {
    hide HasBit, ShrN;
    Shr32(x);
    Shr32(y);
    SameBitsUpTo(x, y, 32);
  }

  lemma {:induction false} NoHighBits(x: Word, b: nat)
    requires 32 <= b
    ensures !HasBit(x, b)
  {
    hide HasBit;
    ShiftedBit(x, 32, b - 32);
    Shr32(x);
    BitZero(b - 32);
  }

  lemma {:induction false} ShiftedBit(x: Word, n: nat, b: nat)
    ensures HasBit(ShrN(x, n), b) <==> HasBit(x, n + b)
    decreases n
  {
    if n > 0 { ShiftedBit(Shr1(x), n - 1, b); }
  }

  // ---------------------------------------------------------------------
  // The bit count
  // ---------------------------------------------------------------------

  /** The positions below k whose bit is set. */
  function Positions(m: Word, k: nat): set<nat> {
    set b: nat | b < k && HasBit(m, b)
  }

  lemma {:induction false} CountIsCard(m: Word, k: nat)
    ensures CountBits(m, k) == |Positions(m, k)|
  {
    hide HasBit;
    if k == 0 {
      assert Positions(m, 0) == {};
    } else {
      CountIsCard(m, k - 1);
      if HasBit(m, k - 1) {
        assert Positions(m, k) == Positions(m, k - 1) + {k - 1};
      } else {
        assert Positions(m, k) == Positions(m, k - 1);
      }
    }
  }

  /** The bit count of a mask is the number of its set positions. */
  lemma BitCountIs(m: Word)
    ensures BitCount(m) == |Positions(m, 32)|
  {
    CountIsCard(m, 32);
  }

  lemma {:induction false} CountLess(q: Word, p: Word, k: nat)
    requires forall b: nat :: HasBit(q, b) ==> HasBit(p, b)
    ensures CountBits(q, k) <= CountBits(p, k)
    ensures (exists b: nat :: b < k && HasBit(p, b) && !HasBit(q, b)) ==> CountBits(q, k) < CountBits(p, k)
  {
    hide HasBit;
    if k > 0 {
      CountLess(q, p, k - 1);
    }
  }

  /** A mask strictly inside another has fewer bits. */
  lemma SubmaskHasFewer(q: Word, p: Word)
    requires Under(q, p) == q && q != p
    ensures BitCount(q) < BitCount(p)
  {
    hide HasBit, Under, CountBits;
    forall b: nat
      ensures HasBit(q, b) ==> HasBit(p, b)
    {
      BitUnder(q, p, b);
    }
    if forall b: nat :: b < 32 ==> (HasBit(q, b) <==> HasBit(p, b)) {
      SameBits(q, p);
    }
    CountLess(q, p, 32);
  }
}
