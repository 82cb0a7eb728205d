/**
 The Mersenne Twister MT19937, which client and server each implement so that
 both can generate the same inputs from one seed.
 */
module Mt19937 {
  import opened Bytes
  import opened Bits

  const N: nat := 624
  const M: nat := 397

  /** A 32-bit unsigned integer. */
  type u32 = x: nat | x < U32

  // ---------------------------------------------------------------------
  // The recurrence
  // ---------------------------------------------------------------------

  /** A word mixed with itself shifted right. */
  function MixRight(y: u32, k: nat): u32 {
    ShrShrinks(y, k);
    XorFits(y, Shr(y, k));
    Xor(y, Shr(y, k))
  }

  /** A word mixed with itself shifted left, under a mask. */
  function MixLeft(y: u32, k: nat, mask: u32): u32 {
    AndShrinks(Low(Shl(y, k)), mask);
    XorFits(y, And(Low(Shl(y, k)), mask));
    Xor(y, And(Low(Shl(y, k)), mask))
  }

  function NextSeed(x: u32, i: nat): u32 {
    Low(1812433253 * MixRight(x, 30) + i)
  }

  /** Top bit of one word, other bits of the next. */
  function Join(hi: u32, lo: u32): u32 {
    AndShrinks(hi, 0x8000_0000);
    AndShrinks(lo, 0x7fff_ffff);
    OrFits(And(hi, 0x8000_0000), And(lo, 0x7fff_ffff));
    Or(And(hi, 0x8000_0000), And(lo, 0x7fff_ffff))
  }

  function Fold(y: u32): u32 {
    ShrShrinks(y, 1);
    XorFits(Shr(y, 1), 0x9908_B0DF);
    if y % 2 != 0 then Xor(Shr(y, 1), 0x9908_B0DF) else Shr(y, 1)
  }

  function Twisted(far: u32, hi: u32, lo: u32): u32 {
    XorFits(far, Fold(Join(hi, lo)));
    Xor(far, Fold(Join(hi, lo)))
  }

  function Temper(y: u32): u32 {
    MixRight(MixLeft(MixLeft(MixRight(y, 11), 7, 0x9D2C_5680), 15, 0xEFC6_0000), 18)
  }

  /** Word k of the sequence that starts with x0. */
  function X(x0: u32, k: nat): u32 {
    if k == 0 then x0
    else if k < N then NextSeed(X(x0, k - 1), k)
    else Twisted(X(x0, k - N + M), X(x0, k - N), X(x0, k - N + 1))
  }

  /** Output k of the generator. */
  function Output(x0: u32, k: nat): u32 {
    Temper(X(x0, N + k))
  }

  lemma FirstWord(x0: u32)
    ensures X(x0, 0) == x0
  {
  }

  lemma SeedStep(x0: u32, k: nat)
    requires 0 < k < N
    ensures X(x0, k) == NextSeed(X(x0, k - 1), k)
  {
    hide NextSeed;
  }

  lemma Recurrence(x0: u32, k: nat)
    ensures X(x0, k + N) == Twisted(X(x0, k + M), X(x0, k), X(x0, k + 1))
  {
    hide Twisted, NextSeed;
  }

  // ---------------------------------------------------------------------
  // Windows of the recurrence in a circular array
  // ---------------------------------------------------------------------

  /** The array holds words base to base + 623. */
  ghost predicate Window(x0: u32, words: seq<nat>, base: nat) {
    |words| == N && forall i :: 0 <= i < N ==> words[i] == X(x0, base + i)
  }

  /** Where the word in slot j comes from when the first i slots are twisted. */
  function Origin(base: nat, i: nat, j: nat): nat {
    if j < i then base + N + j else base + j
  }

  /** Half-way through a twist: the first i words are already of the next window. */
  ghost predicate Between(x0: u32, words: seq<nat>, base: nat, i: nat) {
    |words| == N && i <= N && forall j :: 0 <= j < N ==> words[j] == X(x0, Origin(base, i, j))
  }

  /** The slots that a twist of slot i reads: two are old, the far one may be new. */
  lemma TwistReads(x0: u32, words: seq<nat>, base: nat, i: nat)
    requires Between(x0, words, base, i) && i < N
    ensures words[i] == X(x0, base + i)
    ensures words[(i + 1) % N] == X(x0, base + i + 1)
    ensures words[(i + M) % N] == X(x0, base + i + M)
  {
    hide X;
    assert Origin(base, i, (i + 1) % N) == base + i + 1;
    assert Origin(base, i, (i + M) % N) == base + i + M;
  }

  lemma TwistStep(x0: u32, words: seq<nat>, base: nat, i: nat, w: nat)
    requires Between(x0, words, base, i) && i < N
    requires w == Twisted(X(x0, base + i + M), X(x0, base + i), X(x0, base + i + 1))
    ensures Between(x0, words[i := w], base, i + 1)
  {
    hide Twisted, X;
    Recurrence(x0, base + i);
    var words' := words[i := w];
    forall j | 0 <= j < N
      ensures words'[j] == X(x0, Origin(base, i + 1, j))
    {
      if j != i {
        assert words'[j] == words[j];
      }
    }
  }

  lemma StartTwist(x0: u32, words: seq<nat>, base: nat)
    requires Window(x0, words, base)
    ensures Between(x0, words, base, 0)
  {
    hide X;
  }

  lemma EndTwist(x0: u32, words: seq<nat>, base: nat)
    requires Between(x0, words, base, N)
    ensures Window(x0, words, base + N)
  {
    hide X;
  }

  // ---------------------------------------------------------------------
  // The client's generator
  // ---------------------------------------------------------------------

  /** The first word for a 64-bit seed: both halves are used. */
  function ClientFirst(seed: nat): u32 {
    XorFits(Low(And(seed, 0xFFFF_FFFF)), Low(Shr(seed, 32)));
    Xor(Low(And(seed, 0xFFFF_FFFF)), Low(Shr(seed, 32)))
  }

  class ClientRng {
    const mt: array<nat>
    var index: nat
    /** Which sequence this is, and how many outputs were drawn from it. */
    ghost var first: u32
    ghost var drawn: nat

    ghost predicate Valid()
      reads this, mt
    {
      mt.Length == N && index <= N && Window(first, mt[..], N + drawn - index)
    }

    /** rng_init. */
    constructor (seed: nat)
      ensures Valid() && fresh(mt)
      ensures first == ClientFirst(seed) && drawn == 0
    {
      hide Xor, Shr, And, Low, X;
      mt := new nat[N];
      index := N;
      first, drawn := ClientFirst(seed), 0;
      new;
      mt[0] := Xor(Low(And(seed, 0xFFFF_FFFF)), Low(Shr(seed, 32)));
      FirstWord(first);
      for i := 1 to N
        invariant index == N && first == ClientFirst(seed) && drawn == 0
        invariant forall j :: 0 <= j < i ==> mt[j] == X(first, j)
      {
        SeedStep(first, i);
        mt[i] := Low(1812433253 * Xor(mt[i - 1], Shr(mt[i - 1], 30)) + i);
      }
    }

    /** rng_twist: in place, the array becomes the next window. */
    method Twist()
      requires Valid() && index == N
      modifies this, mt
      ensures Valid() && index == 0 && first == old(first) && drawn == old(drawn)
    {
      hide X, Xor, And, Or, Shr, Between;
      ghost var base := drawn;
      StartTwist(first, mt[..], base);
      for i := 0 to N
        invariant mt.Length == N && first == old(first) && drawn == old(drawn)
        invariant Between(first, mt[..], base, i)
      {
        TwistReads(first, mt[..], base, i);
        var y := Or(And(mt[i], 0x8000_0000), And(mt[(i + 1) % N], 0x7fff_ffff));
        var xA := Shr(y, 1);
        if y % 2 != 0 {
          xA := Xor(xA, 0x9908_B0DF);
        }
        var w := Xor(mt[(i + M) % N], xA);
        TwistStep(first, mt[..], base, i, w);
        ghost var before := mt[..];
        mt[i] := w;
        assert mt[..] == before[i := w];
      }
      EndTwist(first, mt[..], base);
      index := 0;
    }

    /** rng_next: the next output of the sequence. */
    method Next() returns (y: nat)
      requires Valid()
      modifies this, mt
      ensures Valid() && first == old(first) && drawn == old(drawn) + 1
      ensures y == Output(first, old(drawn))
    {
      hide X, Xor, And, Shr, Shl, Low;
      if index >= N {
        Twist();
      }
      y := mt[index];
      index := index + 1;
      drawn := drawn + 1;
      y := Xor(y, Shr(y, 11));
      y := Xor(y, And(Low(Shl(y, 7)), 0x9D2C_5680));
      y := Xor(y, And(Low(Shl(y, 15)), 0xEFC6_0000));
      y := Xor(y, Shr(y, 18));
    }
  }

  // ---------------------------------------------------------------------
  // The server's generator, on unbounded integers
  // ---------------------------------------------------------------------

  function ServerFirst(seed: nat): u32 {
    Low(seed)
  }

  class SharedRng {
    const mt: array<nat>
    var index: nat
    ghost var first: u32
    ghost var drawn: nat

    ghost predicate Valid()
      reads this, mt
    {
      mt.Length == N && index <= N && Window(first, mt[..], N + drawn - index)
    }

    /** _seed_mt. */
    constructor (seed: nat)
      ensures Valid() && fresh(mt)
      ensures first == ServerFirst(seed) && drawn == 0
    {
      hide Xor, Shr, And, Low, X;
      mt := new nat[N];
      index := N;
      first, drawn := ServerFirst(seed), 0;
      new;
      mt[0] := And(seed, 0xFFFF_FFFF);
      MaskIsLow(seed);
      FirstWord(first);
      for i := 1 to N
        invariant index == N && first == ServerFirst(seed) && drawn == 0
        invariant forall j :: 0 <= j < i ==> mt[j] == X(first, j)
      {
        SeedStep(first, i);
        MaskIsLow(1812433253 * Xor(mt[i - 1], Shr(mt[i - 1], 30)) + i);
        mt[i] := And(1812433253 * Xor(mt[i - 1], Shr(mt[i - 1], 30)) + i, 0xFFFF_FFFF);
      }
    }

    /** _twist: in place, the list becomes the next window. */
    method Twist()
      requires Valid() && index == N
      modifies this, mt
      ensures Valid() && index == 0 && first == old(first) && drawn == old(drawn)
    {
      hide X, Xor, And, Or, Shr, Between;
      ghost var base := drawn;
      StartTwist(first, mt[..], base);
      for i := 0 to N
        invariant mt.Length == N && first == old(first) && drawn == old(drawn)
        invariant Between(first, mt[..], base, i)
      {
        TwistReads(first, mt[..], base, i);
        var y := And(mt[i], 0x8000_0000) + And(mt[(i + 1) % N], 0x7FFF_FFFF);
        ghost var before := mt[..];
        ServerTwist(mt[(i + M) % N], mt[i], mt[(i + 1) % N]);
        mt[i] := Xor(mt[(i + M) % N], Shr(y, 1));
        if y % 2 != 0 {
          mt[i] := Xor(mt[i], 0x9908_B0DF);
        }
        TwistStep(first, before, base, i, mt[i]);
        assert mt[..] == before[i := mt[i]];
      }
      EndTwist(first, mt[..], base);
      index := 0;
    }

    /** _extract_number: the next output of the sequence. */
    method Next() returns (y: nat)
      requires Valid()
      modifies this, mt
      ensures Valid() && first == old(first) && drawn == old(drawn) + 1
      ensures y == Output(first, old(drawn))
    {
      hide X, Xor, And, Shr, Shl, Low;
      if index >= N {
        Twist();
      }
      y := mt[index];
      index := index + 1;
      drawn := drawn + 1;
      y := Xor(y, Shr(y, 11));
      MaskCuts(Shl(y, 7), 0x9D2C_5680);
      y := Xor(y, And(Shl(y, 7), 0x9D2C_5680));
      MaskCuts(Shl(y, 15), 0xEFC6_0000);
      y := Xor(y, And(Shl(y, 15), 0xEFC6_0000));
      y := Xor(y, Shr(y, 18));
    }
  }

  /** A 32-bit mask also cuts what a 32-bit shift would lose. */
  lemma MaskCuts(x: nat, mask: u32)
    ensures And(x, mask) == And(Low(x), mask)
  {
    hide Bit, And, Low;
    forall i: nat
      ensures Bit(And(x, mask), i) == Bit(And(Low(x), mask), i)
    {
      BitAnd(x, mask, i);
      BitAnd(Low(x), mask, i);
      BitLow(x, i);
      if 32 <= i { WordBits(mask, i); }
    }
    Extensional(And(x, mask), And(Low(x), mask));
  }

  /** Joining by addition, and folding after the exclusive or, is the same twist. */
  lemma ServerTwist(far: u32, hi: u32, lo: u32)
    ensures And(hi, 0x8000_0000) + And(lo, 0x7FFF_FFFF) == Join(hi, lo)
    ensures var y := Join(hi, lo);
      Twisted(far, hi, lo) == if y % 2 != 0 then Xor(Xor(far, Shr(y, 1)), 0x9908_B0DF) else Xor(far, Shr(y, 1))
  {
    hide And, Or, Xor, Shr;
    JoinIsSum(hi, lo);
    XorSwap(far, Shr(Join(hi, lo), 1), 0x9908_B0DF);
  }

  lemma TopBit(i: nat)
    ensures Bit(0x8000_0000, i) <==> i == 31
    ensures Bit(0x7FFF_FFFF, i) <==> i < 31
  {
    hide Bit;
    Pow32();
    assert Pow2(31) == 0x8000_0000;
    BitPow(31, i);
    BitOnes(31, i);
  }

  lemma JoinIsSum(hi: u32, lo: u32)
    ensures And(hi, 0x8000_0000) + And(lo, 0x7FFF_FFFF) == Join(hi, lo)
  {
    hide Bit, And, Or;
    var a, b := And(hi, 0x8000_0000), And(lo, 0x7FFF_FFFF);
    forall i: nat
      ensures Bit(And(a, b), i) == Bit(0, i)
    {
      BitAnd(a, b, i);
      BitAnd(hi, 0x8000_0000, i);
      BitAnd(lo, 0x7FFF_FFFF, i);
      TopBit(i);
      BitZero(i);
    }
    Extensional(And(a, b), 0);
    OrIsSum(a, b);
  }

  // ---------------------------------------------------------------------
  // Every step can be undone
  // ---------------------------------------------------------------------

  lemma {:induction false} MixRightBits(a: u32, b: u32, k: nat, i: nat)
    requires k > 0 && MixRight(a, k) == MixRight(b, k)
    ensures Bit(a, i) == Bit(b, i)
    decreases 32 - i
  {
    hide Bit, Xor, Shr;
    if 32 <= i {
      WordBits(a, i);
      WordBits(b, i);
    } else {
      MixRightBits(a, b, k, i + k);
      BitXor(a, Shr(a, k), i);
      BitXor(b, Shr(b, k), i);
      BitShr(a, k, i);
      BitShr(b, k, i);
    }
  }

  lemma MixRightInjective(a: u32, b: u32, k: nat)
    requires k > 0 && MixRight(a, k) == MixRight(b, k)
    ensures a == b
  {
    hide Bit, MixRight;
    forall i: nat
      ensures Bit(a, i) == Bit(b, i)
    {
      MixRightBits(a, b, k, i);
    }
    Extensional(a, b);
  }

  lemma {:induction false} MixLeftBits(a: u32, b: u32, k: nat, mask: u32, i: nat)
    requires k > 0 && MixLeft(a, k, mask) == MixLeft(b, k, mask)
    ensures Bit(a, i) == Bit(b, i)
    decreases i
  {
    hide Bit, Xor, And, Shl, Low;
    if k <= i {
      MixLeftBits(a, b, k, mask, i - k);
    }
    MixLeftBit(a, k, mask, i);
    MixLeftBit(b, k, mask, i);
  }

  lemma MixLeftBit(a: u32, k: nat, mask: u32, i: nat)
    ensures Bit(MixLeft(a, k, mask), i) <==> (Bit(a, i) != (i < 32 && Bit(mask, i) && k <= i && Bit(a, i - k)))
  {
    hide Bit, Xor, And, Shl, Low;
    BitXor(a, And(Low(Shl(a, k)), mask), i);
    BitAnd(Low(Shl(a, k)), mask, i);
    BitLow(Shl(a, k), i);
    BitShl(a, k, i);
  }

  lemma MixLeftInjective(a: u32, b: u32, k: nat, mask: u32)
    requires k > 0 && MixLeft(a, k, mask) == MixLeft(b, k, mask)
    ensures a == b
  {
    hide Bit, MixLeft;
    forall i: nat
      ensures Bit(a, i) == Bit(b, i)
    {
      MixLeftBits(a, b, k, mask, i);
    }
    Extensional(a, b);
  }

  /** The output determines the word. */
  lemma TemperInjective(a: u32, b: u32)
    requires Temper(a) == Temper(b)
    ensures a == b
  {
    hide MixLeft, MixRight;
    var a1, b1 := MixRight(a, 11), MixRight(b, 11);
    var a2, b2 := MixLeft(a1, 7, 0x9D2C_5680), MixLeft(b1, 7, 0x9D2C_5680);
    MixRightInjective(MixLeft(a2, 15, 0xEFC6_0000), MixLeft(b2, 15, 0xEFC6_0000), 18);
    MixLeftInjective(a2, b2, 15, 0xEFC6_0000);
    MixLeftInjective(a1, b1, 7, 0x9D2C_5680);
    MixRightInjective(a, b, 11);
  }

  /** The folding constant has its top bit set, which tells odd from even. */
  lemma FoldTop(y: u32)
    ensures Bit(Fold(y), 31) <==> y % 2 != 0
  {
    hide Bit, Xor, Shr;
    BitShr(y, 1, 31);
    WordBits(y, 32);
    BitXor(Shr(y, 1), 0x9908_B0DF, 31);
    assert Bit(0x9908_B0DF, 31) by { ConstantTop(); }
  }

  lemma ConstantTop()
    ensures Bit(0x9908_B0DF, 31)
  {
    hide Bit;
    Pow32();
    BitTop(0x9908_B0DF, 31);
  }

  lemma {:induction false} BitTop(x: nat, n: nat)
    requires Pow2(n) <= x < Pow2(n + 1)
    ensures Bit(x, n)
    decreases n
  {
    if n > 0 { BitTop(x / 2, n - 1); }
  }

  lemma DivTwice(x: nat, p: nat)
    requires p > 0
    ensures x / 2 / p == x / (2 * p)
  {
    var q, r := x / 2 / p, x / 2 % p;
    assert x / 2 == q * p + r;
    assert x == q * (2 * p) + (2 * r + x % 2);
    Remainder(x, 2 * p, q, 2 * r + x % 2);
  }

  lemma FoldInjective(a: u32, b: u32)
    requires Fold(a) == Fold(b)
    ensures a == b
  {
    FoldTop(a);
    FoldTop(b);
    assert Shr(a, 1) == Shr(b, 1) by {
      if a % 2 != 0 {
        XorCommutes(Shr(a, 1), 0x9908_B0DF);
        XorCommutes(Shr(b, 1), 0x9908_B0DF);
        XorCancel(0x9908_B0DF, Shr(a, 1), Shr(b, 1));
      }
    }
    assert Shr(a, 1) == a / 2 && Shr(b, 1) == b / 2;
  }

  lemma {:induction false} XorCommutes(x: nat, y: nat)
    ensures Xor(x, y) == Xor(y, x)
    decreases x + y
  {
    if x > 0 || y > 0 { XorCommutes(x / 2, y / 2); }
  }

  /** Equal in the top bit, and in the other bits. */
  ghost predicate SameTop(a: u32, b: u32) { Bit(a, 31) == Bit(b, 31) }
  ghost predicate SameRest(a: u32, b: u32) { forall i: nat :: i < 31 ==> Bit(a, i) == Bit(b, i) }

  lemma SameWord(a: u32, b: u32)
    requires SameTop(a, b) && SameRest(a, b)
    ensures a == b
  {
    hide Bit;
    forall i: nat
      ensures Bit(a, i) == Bit(b, i)
    {
      if 32 <= i {
        WordBits(a, i);
        WordBits(b, i);
      }
    }
    Extensional(a, b);
  }

  lemma JoinBit(hi: u32, lo: u32, i: nat)
    ensures Bit(Join(hi, lo), i) <==> if i == 31 then Bit(hi, 31) else i < 31 && Bit(lo, i)
  {
    hide Bit, And, Or;
    BitOr(And(hi, 0x8000_0000), And(lo, 0x7fff_ffff), i);
    BitAnd(hi, 0x8000_0000, i);
    BitAnd(lo, 0x7fff_ffff, i);
    TopBit(i);
  }

  /** A twisted word and its far word determine what was joined. */
  lemma TwistedInjective(far: u32, a: u32, b: u32, c: u32, d: u32)
    requires Twisted(far, a, b) == Twisted(far, c, d)
    ensures SameTop(a, c) && SameRest(b, d)
  {
    hide Bit, Join, Fold, Xor;
    XorCancel(far, Fold(Join(a, b)), Fold(Join(c, d)));
    FoldInjective(Join(a, b), Join(c, d));
    JoinBit(a, b, 31);
    JoinBit(c, d, 31);
    forall i: nat | i < 31
      ensures Bit(b, i) == Bit(d, i)
    {
      JoinBit(a, b, i);
      JoinBit(c, d, i);
    }
  }

  /** The multiplier is odd, so multiplying modulo 2 to the 32 loses nothing. */
  lemma ProductInjective(u: u32, v: u32, i: nat)
    requires Low(1812433253 * u + i) == Low(1812433253 * v + i)
    ensures u == v
  {
    var p, q := 1812433253 * u + i, 1812433253 * v + i;
    assert p == p / U32 * U32 + Low(p) && q == q / U32 * U32 + Low(q);
    Unmultiply(u - v, p / U32 - q / U32);
  }

  /** 2520285293 is the inverse of the multiplier. */
  lemma Unmultiply(d: int, k: int)
    requires 1812433253 * d == k * 0x1_0000_0000 && -0x1_0000_0000 < d < 0x1_0000_0000
    ensures d == 0
  {
    var t := 2520285293 * k - 1063535193 * d;
    assert d == t * 0x1_0000_0000;
  }

  lemma NextSeedInjective(a: u32, b: u32, i: nat)
    requires NextSeed(a, i) == NextSeed(b, i)
    ensures a == b
  {
    hide MixRight, Low;
    ProductInjective(MixRight(a, 30), MixRight(b, 30), i);
    MixRightInjective(a, b, 30);
  }

  // ---------------------------------------------------------------------
  // The generator bit by bit
  // ---------------------------------------------------------------------

  lemma MixRightBit(y: u32, k: nat, i: nat)
    ensures Bit(MixRight(y, k), i) <==> Bit(y, i) != Bit(y, i + k)
  {
    hide Bit, Xor, Shr;
    BitXor(y, Shr(y, k), i);
    BitShr(y, k, i);
  }

  /** The first 624 words: each is 1812433253 times the word before, mixed with
      its top two bits, plus the position. */
  lemma SeedWord(x0: u32, k: nat, u: u32)
    requires 0 < k < 624 && forall i: nat :: Bit(u, i) <==> Bit(X(x0, k - 1), i) != Bit(X(x0, k - 1), i + 30)
    ensures X(x0, k) == (1812433253 * u + k) % 0x1_0000_0000
  {
    hide Bit, MixRight, X;
    var x := X(x0, k - 1);
    forall i: nat
      ensures Bit(u, i) == Bit(MixRight(x, 30), i)
    {
      MixRightBit(x, 30, i);
    }
    Extensional(u, MixRight(x, 30));
    SeedStep(x0, k);
  }

  /** The later words: bit i comes from the word 397 places on and from the bit
      above it in the join of two neighbours, and the constant is added in
      when the second neighbour is odd. */
  lemma WordBit(x0: u32, k: nat, i: nat)
    requires i < 32
    ensures Bit(X(x0, k + 624), i) <==>
      (Bit(X(x0, k + 397), i)
       != (if i == 31 then false else if i == 30 then Bit(X(x0, k), 31) else Bit(X(x0, k + 1), i + 1)))
      != (Bit(X(x0, k + 1), 0) && Bit(0x9908_B0DF, i))
  {
    hide Bit, X, Join, Fold, Xor;
    var far, hi, lo := X(x0, k + 397), X(x0, k), X(x0, k + 1);
    Recurrence(x0, k);
    BitXor(far, Fold(Join(hi, lo)), i);
    FoldBit(Join(hi, lo), i);
    JoinBit(hi, lo, 0);
    JoinBit(hi, lo, i + 1);
  }

  lemma FoldBit(y: u32, i: nat)
    ensures Bit(Fold(y), i) <==> (Bit(y, i + 1) != (Bit(y, 0) && Bit(0x9908_B0DF, i)))
  {
    assert Bit(y, 0) <==> y % 2 == 1;
    hide Bit, Xor, Shr;
    BitShr(y, 1, i);
    BitXor(Shr(y, 1), 0x9908_B0DF, i);
  }

  // The four steps of tempering on bits.
  ghost predicate Temper1(y: u32, i: nat) { Bit(y, i) != Bit(y, i + 11) }
  ghost predicate Temper2(y: u32, i: nat) { Temper1(y, i) != (i >= 7 && Bit(0x9D2C_5680, i) && Temper1(y, i - 7)) }
  ghost predicate Temper3(y: u32, i: nat) { Temper2(y, i) != (i >= 15 && Bit(0xEFC6_0000, i) && Temper2(y, i - 15)) }
  ghost predicate Temper4(y: u32, i: nat) { Temper3(y, i) != (i + 18 < 32 && Temper3(y, i + 18)) }

  lemma Temper1Is(y: u32, i: nat)
    ensures Bit(MixRight(y, 11), i) <==> Temper1(y, i)
  {
    MixRightBit(y, 11, i);
  }

  lemma Temper2Is(y: u32, i: nat)
    requires i < 32
    ensures Bit(MixLeft(MixRight(y, 11), 7, 0x9D2C_5680), i) <==> Temper2(y, i)
  {
    hide Bit, MixRight, MixLeft, Temper1;
    MixLeftBit(MixRight(y, 11), 7, 0x9D2C_5680, i);
    Temper1Is(y, i);
    if i >= 7 { Temper1Is(y, i - 7); }
  }

  lemma Temper3Is(y: u32, i: nat)
    requires i < 32
    ensures Bit(MixLeft(MixLeft(MixRight(y, 11), 7, 0x9D2C_5680), 15, 0xEFC6_0000), i) <==> Temper3(y, i)
  {
    hide Bit, MixRight, MixLeft, Temper2;
    MixLeftBit(MixLeft(MixRight(y, 11), 7, 0x9D2C_5680), 15, 0xEFC6_0000, i);
    Temper2Is(y, i);
    if i >= 15 { Temper2Is(y, i - 15); }
  }

  /** The bits of an output. */
  lemma OutputBit(x0: u32, k: nat, i: nat)
    requires i < 32
    ensures Bit(Output(x0, k), i) <==> Temper4(X(x0, 624 + k), i)
  {
    hide Bit, MixRight, MixLeft, Temper3, X;
    var y := X(x0, 624 + k);
    var y3 := MixLeft(MixLeft(MixRight(y, 11), 7, 0x9D2C_5680), 15, 0xEFC6_0000);
    MixRightBit(y3, 18, i);
    Temper3Is(y, i);
    if i + 18 < 32 { Temper3Is(y, i + 18); } else { WordBits(y3, i + 18); }
  }

  /** The first word of the client mixes the halves of the seed. */
  lemma ClientFirstBit(seed: nat, i: nat)
    requires i < 32
    ensures Bit(ClientFirst(seed), i) <==> Bit(seed, i) != Bit(seed, i + 32)
  {
    hide Bit, Xor, Shr, And, Low;
    MaskIsLow(seed);
    BitXor(Low(And(seed, 0xFFFF_FFFF)), Low(Shr(seed, 32)), i);
    BitLow(And(seed, 0xFFFF_FFFF), i);
    BitLow(seed, i);
    BitLow(Shr(seed, 32), i);
    BitShr(seed, 32, i);
  }

  // ---------------------------------------------------------------------
  // Streams and seeds
  // ---------------------------------------------------------------------

  /** Walking the recurrence backwards from equal windows. */
  lemma {:induction false} Backwards(a: u32, b: u32, k: nat)
    requires k < N && forall j :: N <= j < 2 * N ==> X(a, j) == X(b, j)
    ensures SameTop(X(a, k), X(b, k))
    ensures forall j :: k < j < 2 * N ==> X(a, j) == X(b, j)
    decreases N - k
  {
    hide X, Twisted, SameTop, SameRest;
    if k + 1 < N {
      Backwards(a, b, k + 1);
    }
    Recurrence(a, k);
    Recurrence(b, k);
    assert X(a, k + N) == X(b, k + N) && X(a, k + M) == X(b, k + M);
    TwistedInjective(X(a, k + M), X(a, k), X(a, k + 1), X(b, k), X(b, k + 1));
    if k + 1 < N {
      SameWord(X(a, k + 1), X(b, k + 1));
    }
  }

  /** A full window determines the first word. */
  lemma WindowDetermines(a: u32, b: u32)
    requires forall j :: N <= j < 2 * N ==> X(a, j) == X(b, j)
    ensures a == b
  {
    hide X, NextSeed, SameTop;
    Backwards(a, b, 0);
    assert X(a, 1) == X(b, 1);
    SeedStep(a, 1);
    SeedStep(b, 1);
    NextSeedInjective(X(a, 0), X(b, 0), 1);
    FirstWord(a);
    FirstWord(b);
  }

  /** Different first words give different streams, within 624 outputs. */
  lemma StreamDetermines(a: u32, b: u32)
    requires forall k :: 0 <= k < N ==> Output(a, k) == Output(b, k)
    ensures a == b
  {
    hide X, Temper;
    forall j | N <= j < 2 * N
      ensures X(a, j) == X(b, j)
    {
      assert Output(a, j - N) == Output(b, j - N);
      TemperInjective(X(a, j), X(b, j));
    }
    WindowDetermines(a, b);
  }

  lemma {:induction false} ShrIsDiv(x: nat, k: nat)
    ensures Shr(x, k) == x / Pow2(k)
    decreases k
  {
    if k > 0 {
      ShrIsDiv(x / 2, k - 1);
      DivTwice(x, Pow2(k - 1));
    }
  }

  lemma FirstsAgree(seed: nat)
    requires seed < U32 * U32
    ensures ClientFirst(seed) == ServerFirst(seed) <==> seed < U32
  {
    hide Xor, And, Shr;
    MaskIsLow(seed);
    Pow32();
    ShrIsDiv(seed, 32);
    var high := Shr(seed, 32);
    assert high < U32;
    if Xor(Low(seed), high) == Low(seed) {
      XorZero(Low(seed));
      XorCancel(Low(seed), high, 0);
    }
    XorZero(Low(seed));
  }

  /** Over all 64-bit seeds, both generators produce the same infinite stream
      exactly for those below 2 to the 32; for any other seed they differ
      within the first 624 outputs. */
  lemma StreamsAgreeIff(seed: nat)
    requires seed < U32 * U32
    ensures (forall k: nat :: Output(ClientFirst(seed), k) == Output(ServerFirst(seed), k)) <==> seed < U32
    ensures seed >= U32 ==> exists k: nat :: k < N && Output(ClientFirst(seed), k) != Output(ServerFirst(seed), k)
  {
    hide Output, ClientFirst, ServerFirst;
    FirstsAgree(seed);
    if forall k: nat :: k < N ==> Output(ClientFirst(seed), k) == Output(ServerFirst(seed), k) {
      StreamDetermines(ClientFirst(seed), ServerFirst(seed));
    }
  }
}
