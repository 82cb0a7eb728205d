/**
 Bytes, little-endian numbers and splicing of byte strings into a buffer. A
 field of n bytes holds the numbers below 256 to the power n; writing a number
 and reading it back gives the number, and byte strings of one length are equal
 exactly when their numbers are. Splicing describes a buffer after a write: the
 bytes before the offset, the bytes written, and the bytes behind them. Writes
 that follow each other splice the concatenation.
 */
module Bytes {

  type byte = b: int | 0 <= b < 256

  datatype Option<+T> = None | Some(value: T)

  const U8: nat := 0x100
  const U16: nat := 0x1_0000
  const U32: nat := 0x1_0000_0000
  const U64: nat := 0x1_0000_0000_0000_0000

  /** The smaller of two numbers. */
  function Min(a: int, b: int): int {
    if a < b then a else b
  }

  function Sum(ns: seq<nat>): nat {
    if ns == [] then 0 else ns[0] + Sum(ns[1..])
  }

  lemma {:induction false} SumSnoc(ns: seq<nat>, n: nat)
    ensures Sum(ns + [n]) == Sum(ns) + n
  {
    if ns == [] {
      assert [] + [n] == [n] && [n][1..] == [];
    } else {
      assert (ns + [n])[1..] == ns[1..] + [n];
      SumSnoc(ns[1..], n);
    }
  }

  /** 256 to the power n: the number of values an n-byte field can hold. */
  function Pow256(n: nat): (p: nat)
    ensures 0 < p
  {
    if n == 0 then 1 else 256 * Pow256(n - 1)
  }

  /** The n low bytes of v, least significant first. */
  function LE(n: nat, v: nat): (s: seq<byte>)
    ensures |s| == n
  {
    if n == 0 then [] else [v % 256] + LE(n - 1, v / 256)
  }

  /** Byte i of the n low bytes counts 256 to the power i. */
  lemma {:induction false} LEDigit(n: nat, v: nat, i: nat)
    requires i < n
    ensures LE(n, v)[i] == v / Pow256(i) % 256
  {
    if i > 0 {
      LEDigit(n - 1, v / 256, i - 1);
      DivDiv(v, Pow256(i - 1));
    }
  }

  lemma DivDiv(v: nat, p: nat)
    requires p > 0
    ensures v / 256 / p == v / (256 * p)
  {
    var q, r := v / 256 / p, v / 256 % p;
    assert v / 256 == q * p + r;
    assert v == q * (256 * p) + (256 * r + v % 256);
    var d, x := 256 * p, 256 * r + v % 256;
    assert 0 <= x < d;
    var k := v / d - q;
    assert v == d * (v / d) + v % d;
    assert d * k == x - v % d by { assert d * (v / d) - q * d == d * k; }
    MultipleInRange(d, k);
  }

  /** A multiple of d strictly between -d and d is zero. */
  lemma MultipleInRange(d: int, k: int)
    requires d > 0
    ensures -d < d * k < d ==> k == 0
  {
    if k > 0 {
      assert d * k >= d;
    } else if k < 0 {
      assert d * k <= -d;
    }
  }

  /** The number spelled by a little-endian byte string. */
  function FromLE(s: seq<byte>): (v: nat) {
    if s == [] then 0 else s[0] + 256 * FromLE(s[1..])
  }

  /** The reader of an n-byte field gets back every number that fits the field. */
  lemma {:induction false} LERoundTrip(n: nat, v: nat)
    requires v < Pow256(n)
    ensures FromLE(LE(n, v)) == v
  {
    if n > 0 {
      LERoundTrip(n - 1, v / 256);
      assert LE(n, v)[1..] == LE(n - 1, v / 256);
    }
  }

  /** Fixed-width little-endian strings and numbers are in bijection. */
  lemma {:induction false} FromLEInjective(a: seq<byte>, b: seq<byte>)
    requires |a| == |b|
    ensures FromLE(a) == FromLE(b) <==> a == b
  {
    if a != [] && FromLE(a) == FromLE(b) {
      assert a[0] == FromLE(a) % 256 == b[0];
      FromLEInjective(a[1..], b[1..]);
      assert a == [a[0]] + a[1..] && b == [b[0]] + b[1..];
    }
  }

  lemma {:induction false} FromLEBound(s: seq<byte>)
    ensures FromLE(s) < Pow256(|s|)
  {
    if s != [] {
      FromLEBound(s[1..]);
    }
  }

  /** The values of the field widths used on the wire. */
  lemma Widths()
    ensures Pow256(1) == 0x100
    ensures Pow256(2) == 0x1_0000
    ensures Pow256(4) == 0x1_0000_0000
    ensures Pow256(8) == 0x1_0000_0000_0000_0000
  {
    assert Pow256(2) == 256 * Pow256(1);
    assert Pow256(4) == 256 * (256 * Pow256(2));
    assert Pow256(6) == 256 * (256 * Pow256(4));
    assert Pow256(8) == 256 * (256 * Pow256(6));
  }

  /** A result frame: a 16-bit length and the body. */
  function Frame(body: seq<byte>): (s: seq<byte>)
    ensures |s| == 2 + |body|
  {
    LE(2, |body|) + body
  }

  /** Buffer o after the bytes e have been written at offset off. */
  function Splice(o: seq<byte>, off: nat, e: seq<byte>): (s: seq<byte>)
    requires off + |e| <= |o|
    ensures |s| == |o|
  {
    o[..off] + e + o[off + |e|..]
  }

  lemma SpliceExtend(o: seq<byte>, off: nat, a: seq<byte>, b: seq<byte>)
    requires off + |a| + |b| <= |o|
    ensures Splice(Splice(o, off, a), off + |a|, b) == Splice(o, off, a + b)
  {
  }

  lemma SpliceNothing(o: seq<byte>, off: nat)
    requires off <= |o|
    ensures Splice(o, off, []) == o
  {
  }

  /** Copies bs into the buffer at offset off and returns the advanced offset. */
  method Put(out: array<byte>, off: nat, bs: seq<byte>) returns (next: nat)
    requires off + |bs| <= out.Length
    modifies out
    ensures out[..] == Splice(old(out[..]), off, bs)
    ensures next == off + |bs|
  {
    for k := 0 to |bs|
      invariant forall j :: 0 <= j < k ==> out[off + j] == bs[j]
      invariant forall j :: 0 <= j < out.Length && !(off <= j < off + k) ==> out[j] == old(out[j])
    {
      out[off + k] := bs[k];
    }
    next := off + |bs|;
    assert out[..] == Splice(old(out[..]), off, bs);
  }
}
