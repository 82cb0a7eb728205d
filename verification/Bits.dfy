/**
 Bitwise operations on natural numbers, defined and reasoned about bit by bit.
 Each operation is given by recursion on halves, its effect on a single bit is
 a lemma, and two numbers with the same bits are equal; every law of masks,
 shifts and exclusive or follows from these. Nothing is cut off here: a
 conversion to 32 bits is an explicit remainder, so that the same operations
 serve the client's fixed-width words and the server's unbounded integers. The
 last part lists the operations that stay within 32 bits.
 */
module Bits {

  import opened Bytes

  function Bit(x: nat, i: nat): bool {
    if i == 0 then x % 2 == 1 else Bit(x / 2, i - 1)
  }

  function Xor(x: nat, y: nat): nat {
    if x == 0 && y == 0 then 0 else 2 * Xor(x / 2, y / 2) + if x % 2 != y % 2 then 1 else 0
  }

  function And(x: nat, y: nat): nat {
    if x == 0 || y == 0 then 0 else 2 * And(x / 2, y / 2) + if x % 2 == 1 && y % 2 == 1 then 1 else 0
  }

  function Or(x: nat, y: nat): nat {
    if x == 0 && y == 0 then 0 else 2 * Or(x / 2, y / 2) + if x % 2 == 1 || y % 2 == 1 then 1 else 0
  }

  function Shr(x: nat, k: nat): nat {
    if k == 0 then x else Shr(x / 2, k - 1)
  }

  function Shl(x: nat, k: nat): nat {
    if k == 0 then x else 2 * Shl(x, k - 1)
  }

  function Pow2(n: nat): (p: nat)
    ensures p > 0
  {
    if n == 0 then 1 else 2 * Pow2(n - 1)
  }

  /** Conversion to a 32-bit unsigned integer. */
  function Low(x: nat): (w: nat)
    ensures w < U32
  {
    x % U32
  }

  lemma Pow32()
    ensures Pow2(32) == U32
  {
    assert Pow2(8) == 256;
    assert Pow2(16) == 65536;
    assert Pow2(24) == 65536 * 256;
  }

  // ---------------------------------------------------------------------
  // Bit by bit
  // ---------------------------------------------------------------------

  lemma {:induction false} BitZero(i: nat)
    ensures !Bit(0, i)
  {
    if i > 0 { BitZero(i - 1); }
  }

  lemma {:induction false} BitXor(x: nat, y: nat, i: nat)
    ensures Bit(Xor(x, y), i) <==> Bit(x, i) != Bit(y, i)
    decreases i
  {
    BitZero(i);
    if i > 0 && !(x == 0 && y == 0) { BitXor(x / 2, y / 2, i - 1); }
  }

  lemma {:induction false} BitAnd(x: nat, y: nat, i: nat)
    ensures Bit(And(x, y), i) <==> Bit(x, i) && Bit(y, i)
    decreases i
  {
    BitZero(i);
    if i > 0 && x != 0 && y != 0 { BitAnd(x / 2, y / 2, i - 1); }
  }

  lemma {:induction false} BitOr(x: nat, y: nat, i: nat)
    ensures Bit(Or(x, y), i) <==> Bit(x, i) || Bit(y, i)
    decreases i
  {
    BitZero(i);
    if i > 0 && !(x == 0 && y == 0) { BitOr(x / 2, y / 2, i - 1); }
  }

  lemma {:induction false} BitShr(x: nat, k: nat, i: nat)
    ensures Bit(Shr(x, k), i) <==> Bit(x, i + k)
    decreases k
  {
    if k > 0 { BitShr(x / 2, k - 1, i); }
  }

  lemma {:induction false} BitShl(x: nat, k: nat, i: nat)
    ensures Bit(Shl(x, k), i) <==> i >= k && Bit(x, i - k)
    decreases k
  {
    if k > 0 && i > 0 {
      assert 2 * Shl(x, k - 1) / 2 == Shl(x, k - 1);
      BitShl(x, k - 1, i - 1);
    }
  }

  /** The ones below position n. */
  lemma {:induction false} BitOnes(n: nat, i: nat)
    ensures Bit(Pow2(n) - 1, i) <==> i < n
    decreases n
  {
    if n == 0 {
      BitZero(i);
    } else {
      assert (Pow2(n) - 1) / 2 == Pow2(n - 1) - 1;
      if i > 0 { BitOnes(n - 1, i - 1); }
    }
  }

  lemma {:induction false} BitPow(n: nat, i: nat)
    ensures Bit(Pow2(n), i) <==> i == n
    decreases n
  {
    if n == 0 {
      if i > 0 { BitZero(i - 1); }
    } else if i > 0 {
      BitPow(n - 1, i - 1);
    }
  }

  /** Numbers with the same bits are the same. */
  lemma {:induction false} Extensional(x: nat, y: nat)
    requires forall i: nat :: Bit(x, i) == Bit(y, i)
    ensures x == y
    decreases x + y
  {
    assert Bit(x, 0) == Bit(y, 0);
    if x > 0 || y > 0 {
      forall i: nat
        ensures Bit(x / 2, i) == Bit(y / 2, i)
      {
        assert Bit(x, i + 1) == Bit(y, i + 1);
      }
      Extensional(x / 2, y / 2);
    }
  }

  lemma {:induction false} SmallBits(x: nat, n: nat, i: nat)
    requires x < Pow2(n) && n <= i
    ensures !Bit(x, i)
    decreases n
  {
    if n == 0 { BitZero(i); } else { SmallBits(x / 2, n - 1, i - 1); }
  }

  lemma {:induction false} SmallIff(x: nat, n: nat)
    requires forall i: nat :: n <= i ==> !Bit(x, i)
    ensures x < Pow2(n)
    decreases n
  {
    if n == 0 {
      forall i: nat
        ensures Bit(x, i) == Bit(0, i)
      {
        BitZero(i);
      }
      Extensional(x, 0);
    } else {
      forall i: nat | n - 1 <= i
        ensures !Bit(x / 2, i)
      {
        assert !Bit(x, i + 1);
      }
      SmallIff(x / 2, n - 1);
    }
  }

  lemma WordBits(x: nat, i: nat)
    requires x < U32 && 32 <= i
    ensures !Bit(x, i)
  {
    Pow32();
    SmallBits(x, 32, i);
  }

  lemma FitsWord(x: nat)
    requires forall i: nat :: 32 <= i ==> !Bit(x, i)
    ensures x < U32
  {
    Pow32();
    SmallIff(x, 32);
  }

  lemma {:induction false} BitMod(x: nat, n: nat, i: nat)
    ensures Bit(x % Pow2(n), i) <==> i < n && Bit(x, i)
    decreases n
  {
    if n == 0 {
      BitZero(i);
    } else {
      HalfMod(x, Pow2(n - 1));
      BitAppend(x / 2 % Pow2(n - 1), x % 2, i);
      if i > 0 { BitMod(x / 2, n - 1, i - 1); }
    }
  }

  lemma BitAppend(h: nat, b: nat, i: nat)
    requires b < 2
    ensures Bit(2 * h + b, i) <==> if i == 0 then b == 1 else Bit(h, i - 1)
  {
  }

  lemma HalfMod(x: nat, p: nat)
    requires p > 0
    ensures x % (2 * p) == 2 * (x / 2 % p) + x % 2
  {
    var q, r := x / 2 / p, x / 2 % p;
    assert x / 2 == q * p + r;
    assert x == q * (2 * p) + (2 * r + x % 2);
    Remainder(x, 2 * p, q, 2 * r + x % 2);
  }

  lemma Remainder(x: nat, d: nat, q: nat, r: nat)
    requires d > 0 && r < d && x == q * d + r
    ensures x % d == r && x / d == q
  {
    var k := x / d - q;
    assert x == d * (x / d) + x % d;
    assert d * k == r - x % d by { assert d * (x / d) - q * d == d * k; }
    Multiples(d, k);
  }

  lemma Multiples(d: int, k: int)
    requires d > 0
    ensures k > 0 ==> d * k >= d
    ensures k < 0 ==> d * k <= -d
  {
  }

  lemma BitLow(x: nat, i: nat)
    ensures Bit(Low(x), i) <==> i < 32 && Bit(x, i)
  {
    Pow32();
    BitMod(x, 32, i);
  }

  /** Masking with all ones is the conversion. */
  lemma MaskIsLow(x: nat)
    ensures And(x, 0xFFFF_FFFF) == Low(x)
  {
    hide Bit, And, Low;
    forall i: nat
      ensures Bit(And(x, 0xFFFF_FFFF), i) == Bit(Low(x), i)
    {
      BitAnd(x, 0xFFFF_FFFF, i);
      BitLow(x, i);
      Pow32();
      BitOnes(32, i);
    }
    Extensional(And(x, 0xFFFF_FFFF), Low(x));
  }

  lemma {:induction false} OrIsSum(x: nat, y: nat)
    requires And(x, y) == 0
    ensures Or(x, y) == x + y
    decreases x + y
  {
    if x != 0 || y != 0 {
      OrIsSum(x / 2, y / 2);
    }
  }

  // ---------------------------------------------------------------------
  // Results that stay within 32 bits
  // ---------------------------------------------------------------------

  lemma {:induction false} ShrShrinks(x: nat, k: nat)
    ensures Shr(x, k) <= x
    decreases k
  {
    if k > 0 { ShrShrinks(x / 2, k - 1); }
  }

  lemma {:induction false} AndShrinks(x: nat, y: nat)
    ensures And(x, y) <= x && And(x, y) <= y
    decreases x + y
  {
    if x > 0 && y > 0 { AndShrinks(x / 2, y / 2); }
  }

  lemma XorFits(x: nat, y: nat)
    requires x < U32 && y < U32
    ensures Xor(x, y) < U32
  {
    hide Bit, Xor;
    forall i: nat | 32 <= i
      ensures !Bit(Xor(x, y), i)
    {
      BitXor(x, y, i);
      WordBits(x, i);
      WordBits(y, i);
    }
    FitsWord(Xor(x, y));
  }

  lemma OrFits(x: nat, y: nat)
    requires x < U32 && y < U32
    ensures Or(x, y) < U32
  {
    hide Bit, Or;
    forall i: nat | 32 <= i
      ensures !Bit(Or(x, y), i)
    {
      BitOr(x, y, i);
      WordBits(x, i);
      WordBits(y, i);
    }
    FitsWord(Or(x, y));
  }

  /** Exclusive or with a known word can be undone. */
  lemma XorCancel(a: nat, x: nat, y: nat)
    requires Xor(a, x) == Xor(a, y)
    ensures x == y
  {
    hide Bit, Xor;
    forall i: nat
      ensures Bit(x, i) == Bit(y, i)
    {
      BitXor(a, x, i);
      BitXor(a, y, i);
    }
    Extensional(x, y);
  }

  lemma XorSwap(a: nat, x: nat, y: nat)
    ensures Xor(Xor(a, x), y) == Xor(a, Xor(x, y))
  {
    hide Bit, Xor;
    var l, r := Xor(Xor(a, x), y), Xor(a, Xor(x, y));
    forall i: nat
      ensures Bit(l, i) == Bit(r, i)
    {
      BitXor(Xor(a, x), y, i);
      BitXor(a, x, i);
      BitXor(a, Xor(x, y), i);
      BitXor(x, y, i);
    }
    Extensional(l, r);
  }

  lemma XorUndo(a: nat, x: nat)
    ensures Xor(Xor(a, x), a) == x
  {
    hide Bit, Xor;
    var y := Xor(Xor(a, x), a);
    forall i: nat
      ensures Bit(y, i) == Bit(x, i)
    {
      BitXor(Xor(a, x), a, i);
      BitXor(a, x, i);
    }
    Extensional(y, x);
  }

  lemma XorZero(a: nat)
    ensures Xor(a, 0) == a
  {
    hide Bit, Xor;
    forall i: nat
      ensures Bit(Xor(a, 0), i) == Bit(a, i)
    {
      BitXor(a, 0, i);
      BitZero(i);
    }
    Extensional(Xor(a, 0), a);
  }
}
