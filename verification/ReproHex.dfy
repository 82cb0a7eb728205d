/**
 Hexadecimal payloads of reproducer files. A vector register is one numeral,
 highest byte first. A mapping is a row of 64-bit words in memory order, each
 printed as a numeral of 16 digits, so that the bytes of a word appear in
 reverse. Loading goes through the digits of a numeral from its end, two at a
 time, and through the words of a mapping from the front.
 */
module ReproHex {
  import opened Bytes

  // ---------------------------------------------------------------------
  // Digits and numerals
  // ---------------------------------------------------------------------

  function Digit(d: nat): (c: char)
    requires d < 16
    ensures Nibble(c) == d
  {
    if d < 10 then '0' + d as char else 'a' + (d - 10) as char
  }

  function Nibble(c: char): (d: int)
    ensures -1 <= d < 16
  {
    if '0' <= c <= '9' then (c - '0') as int
    else if 'a' <= c <= 'f' then 10 + (c - 'a') as int
    else if 'A' <= c <= 'F' then 10 + (c - 'A') as int
    else -1
  }

  /** The digits in both cases: the value of a digit is its position. */
  const LOWER := "0123456789abcdef"
  const UPPER := "0123456789ABCDEF"

  lemma DigitIs(d: nat)
    requires d < 16
    ensures Digit(d) == LOWER[d] && Nibble(LOWER[d]) == d && Nibble(UPPER[d]) == d
  {
  }

  lemma NibbleIs(c: char)
    ensures Nibble(c) == -1 <==> c !in LOWER && c !in UPPER
  {
    if Nibble(c) >= 0 {
      var d := Nibble(c);
      assert c == if 'A' <= c <= 'F' then UPPER[d] else LOWER[d];
    }
    if c in LOWER {
      var d :| 0 <= d < |LOWER| && LOWER[d] == c;
      DigitIs(d);
    }
    if c in UPPER {
      var d :| 0 <= d < |UPPER| && UPPER[d] == c;
      DigitIs(d);
    }
  }

  predicate IsHex(c: char) {
    Nibble(c) >= 0
  }

  /** A character that is no digit counts as zero. */
  function DigitValue(c: char): nat {
    if Nibble(c) >= 0 then Nibble(c) else 0
  }

  /** The number a numeral stands for, most significant digit first. */
  function Value(s: string): nat {
    if s == "" then 0 else 16 * Value(s[..|s| - 1]) + DigitValue(s[|s| - 1])
  }

  /** A number printed with w digits. */
  function Numeral(v: nat, w: nat): (s: string)
    ensures |s| == w
  {
    if w == 0 then "" else Numeral(v / 16, w - 1) + [Digit(v % 16)]
  }

  function Pow16(w: nat): nat {
    if w == 0 then 1 else 16 * Pow16(w - 1)
  }

  lemma {:induction false} NumeralValue(v: nat, w: nat)
    requires v < Pow16(w)
    ensures Value(Numeral(v, w)) == v
    ensures forall i :: 0 <= i < w ==> IsHex(Numeral(v, w)[i])
    decreases w
  {
    if w > 0 {
      NumeralValue(v / 16, w - 1);
      var s := Numeral(v, w);
      assert s[..w - 1] == Numeral(v / 16, w - 1) && s[w - 1] == Digit(v % 16);
    }
  }

  /** Digits as the printers write them. */
  predicate LowerCase(s: string) {
    forall i :: 0 <= i < |s| ==> IsHex(s[i]) && !('A' <= s[i] <= 'F')
  }

  lemma LowerDigit(c: char)
    requires IsHex(c) && !('A' <= c <= 'F')
    ensures DigitValue(c) < 16 && Digit(DigitValue(c)) == c
  {
  }

  lemma {:induction false} ValueNumeral(s: string)
    requires LowerCase(s)
    ensures Value(s) < Pow16(|s|)
    ensures Numeral(Value(s), |s|) == s
  {
    hide IsHex, Nibble, Digit, DigitValue;
    if s != "" {
      var k := |s| - 1;
      ValueNumeral(s[..k]);
      var d := DigitValue(s[k]);
      LowerDigit(s[k]);
      assert Value(s) / 16 == Value(s[..k]) && Value(s) % 16 == d;
      assert s == s[..k] + [s[k]];
    }
  }

  lemma {:induction false} PowSquare(n: nat)
    ensures Pow16(2 * n) == Pow256(n)
  {
    if n > 0 {
      PowSquare(n - 1);
      assert Pow16(2 * n) == 16 * (16 * Pow16(2 * n - 2));
    }
  }

  // ---------------------------------------------------------------------
  // Vector registers
  // ---------------------------------------------------------------------

  function ByteHex(b: byte): string {
    [Digit(b / 16), Digit(b % 16)]
  }

  /** The bytes of a register, highest first. */
  function HighFirst(v: seq<byte>): (s: string)
    ensures |s| == 2 * |v|
  {
    if v == [] then "" else HighFirst(v[1..]) + ByteHex(v[0])
  }

  /** fprint_vec. */
  method PrintVec(v: seq<byte>) returns (text: string)
    ensures text == "0x" + HighFirst(v)
  {
    hide HighFirst, ByteHex, Digit;
    text := "0x";
    var j: nat := |v|;
    NoBytes(v);
    while j > 0
      invariant j <= |v|
      invariant text == "0x" + HighFirst(v[j..])
    {
      j := j - 1;
      HighFirstStep("0x", v, j);
      text := text + ByteHex(v[j]);
    }
    AllBytes(v);
  }

  lemma NoBytes(v: seq<byte>)
    ensures "0x" + HighFirst(v[|v|..]) == "0x"
  {
    assert v[|v|..] == [];
  }

  lemma AllBytes(v: seq<byte>)
    ensures HighFirst(v[0..]) == HighFirst(v)
  {
    assert v[0..] == v;
  }

  lemma HighFirstStep(prefix: string, v: seq<byte>, j: nat)
    requires j < |v|
    ensures prefix + HighFirst(v[j..]) == prefix + HighFirst(v[j + 1..]) + ByteHex(v[j])
  {
    hide ByteHex;
    assert v[j..][1..] == v[j + 1..] && v[j..][0] == v[j];
    var a, b := HighFirst(v[j + 1..]), ByteHex(v[j]);
    assert prefix + (a + b) == prefix + a + b;
  }

  /** The printed register, read as a number, is its little-endian value. */
  lemma {:induction false} VecValue(v: seq<byte>)
    ensures Value(HighFirst(v)) == FromLE(v)
    ensures forall i :: 0 <= i < 2 * |v| ==> IsHex(HighFirst(v)[i])
  {
    if v != [] {
      VecValue(v[1..]);
      TwoDigits(HighFirst(v[1..]), v[0]);
    }
  }

  lemma TwoDigits(s: string, b: byte)
    ensures Value(s + ByteHex(b)) == 256 * Value(s) + b
  {
    var t := s + ByteHex(b);
    var u := s + [Digit(b / 16)];
    assert t[..|t| - 1] == u && u[..|u| - 1] == s;
  }

  /** The last byte of a numeral, and what is left. */
  lemma SplitPair(s: string)
    requires |s| >= 2
    ensures Value(s) == 256 * Value(s[..|s| - 2]) + 16 * DigitValue(s[|s| - 2]) + DigitValue(s[|s| - 1])
  {
    var u := s[..|s| - 1];
    assert u[..|u| - 1] == s[..|s| - 2];
  }

  lemma {:induction false} ZeroBytes(n: nat)
    ensures LE(n, 0) == seq(n, (_: nat) => 0)
  {
    if n > 0 { ZeroBytes(n - 1); }
  }

  method Clear(out: array<byte>)
    modifies out
    ensures forall j :: 0 <= j < out.Length ==> out[j] == 0
  {
    for i := 0 to out.Length
      invariant forall j :: 0 <= j < i ==> out[j] == 0
    {
      out[i] := 0;
    }
  }

  /** parse_hex_le_bytes: for every string, of any length, the buffer gets its
      value modulo the buffer's capacity. */
  method ParseHexLeBytes(hex: string, out: array<byte>)
    modifies out
    ensures out[..] == LE(out.Length, Value(hex))
  {
    hide Value, LE, Nibble;
    var n := out.Length;
    Clear(out);
    var pos, off: nat := |hex|, 0;
    assert hex[..pos] == hex;
    while pos > 0 && off < n
      invariant 0 <= pos <= |hex| && off <= n
      invariant forall j :: off <= j < n ==> out[j] == 0
      invariant LE(n, Value(hex)) == out[..off] + LE(n - off, Value(hex[..pos]))
    {
      ghost var rest := hex[..pos];
      pos := pos - 1;
      var lo := Nibble(hex[pos]);
      var hi := 0;
      if pos > 0 {
        pos := pos - 1;
        var h := Nibble(hex[pos]);
        if h >= 0 { hi := h; }
      }
      if lo < 0 { lo := 0; }
      TakeByte(rest, hi, lo, n - off);
      assert hex[..pos] == rest[..pos];
      out[off] := 16 * hi + lo;
      off := off + 1;
    }
    if off < n {
      assert hex[..pos] == "";
      assert Value("") == 0 by { NoDigits(); }
      ZeroBytes(n - off);
      assert out[off..] == LE(n - off, 0);
    } else {
      NoneLeft(Value(hex[..pos]));
    }
    assert out[..] == out[..off] + out[off..];
  }

  /** One round takes the lowest byte, from two digits or from the last one. */
  lemma NextByte(s: string, hi: nat, lo: nat)
    requires s != "" && lo == DigitValue(s[|s| - 1])
    requires hi == if |s| > 1 then DigitValue(s[|s| - 2]) else 0
    ensures Value(s) % 256 == 16 * hi + lo
    ensures Value(s) / 256 == Value(s[..if |s| > 1 then |s| - 2 else 0])
  {
    if |s| > 1 { SplitPair(s); }
  }

  lemma TakeByte(s: string, hi: nat, lo: nat, n: nat)
    requires s != "" && lo == DigitValue(s[|s| - 1]) && n > 0
    requires hi == if |s| > 1 then DigitValue(s[|s| - 2]) else 0
    ensures hi < 16 && lo < 16
    ensures LE(n, Value(s)) == [16 * hi + lo] + LE(n - 1, Value(s[..if |s| > 1 then |s| - 2 else 0]))
  {
    hide Value;
    NextByte(s, hi, lo);
  }

  lemma NoDigits()
    ensures Value("") == 0
  {
  }

  lemma NoneLeft(v: nat)
    ensures LE(0, v) == []
  {
  }

  lemma HexValue(c: char)
    requires IsHex(c)
    ensures DigitValue(c) == Nibble(c)
  {
  }

  /** Digits at the start of a text. */
  function HexLength(s: string): (k: nat)
    ensures k <= |s|
    ensures forall i :: 0 <= i < k ==> IsHex(s[i])
    ensures k < |s| ==> !IsHex(s[k])
  {
    if s == "" || !IsHex(s[0]) then 0 else 1 + HexLength(s[1..])
  }

  lemma HexLengthIs(s: string, k: nat)
    requires k <= |s| && (forall i :: 0 <= i < k ==> IsHex(s[i])) && (k < |s| ==> !IsHex(s[k]))
    ensures HexLength(s) == k
  {
  }

  /** Reading a register line after its 0x prefix. */
  method LoadVec(text: string, reg: array<byte>)
    modifies reg
    ensures reg[..] == LE(reg.Length, Value(text[..Min(HexLength(text), 2 * reg.Length)]))
  {
    var k: nat := 0;
    while k < |text| && IsHex(text[k]) && k < 2 * reg.Length
      invariant k <= |text| && k <= 2 * reg.Length
      invariant forall i :: 0 <= i < k ==> IsHex(text[i])
    {
      k := k + 1;
    }
    assert k == Min(HexLength(text), 2 * reg.Length) by {
      if k < 2 * reg.Length { HexLengthIs(text, k); }
    }
    ParseHexLeBytes(text[..k], reg);
  }

  /** A register that was printed is read back, whatever follows it. */
  lemma VecRoundTrip(v: seq<byte>, rest: string)
    ensures var text := HighFirst(v) + rest;
      LE(|v|, Value(text[..Min(HexLength(text), 2 * |v|)])) == v
  {
    hide HighFirst, Value, LE, FromLE, IsHex;
    var text := HighFirst(v) + rest;
    VecValue(v);
    assert forall i :: 0 <= i < 2 * |v| ==> text[i] == HighFirst(v)[i];
    assert text[..2 * |v|] == HighFirst(v);
    ReadBack(v);
  }

  lemma ReadBack(v: seq<byte>)
    ensures LE(|v|, FromLE(v)) == v
  {
    FromLEBound(v);
    LERoundTrip(|v|, FromLE(v));
    FromLEInjective(LE(|v|, FromLE(v)), v);
  }

  lemma {:induction false} ValueBound(s: string)
    ensures Value(s) < Pow16(|s|)
  {
    hide Nibble;
    if s != "" { ValueBound(s[..|s| - 1]); }
  }

  /** Short and odd numerals, in either case, keep their numeric value. */
  lemma ShortNumerals(s: string, n: nat)
    requires |s| <= 2 * n
    ensures FromLE(LE(n, Value(s))) == Value(s)
  {
    ValueBound(s);
    PowMonotone(|s|, 2 * n);
    PowSquare(n);
    LERoundTrip(n, Value(s));
  }

  lemma {:induction false} PowMonotone(a: nat, b: nat)
    requires a <= b
    ensures 0 < Pow16(a) <= Pow16(b)
    decreases b
  {
    if a < b { PowMonotone(a, b - 1); } else if b > 0 { PowMonotone(b - 1, b - 1); }
  }

  // ---------------------------------------------------------------------
  // Mappings
  // ---------------------------------------------------------------------

  lemma Eighths(n: nat)
    ensures n < 8 ==> n / 8 == 0
    ensures n >= 8 ==> n / 8 == (n - 8) / 8 + 1
  {
  }

  /** Whole 64-bit words of a mapping, each printed with 16 digits. */
  function WordsHex(bs: seq<byte>): (s: string)
    ensures |s| == 16 * (|bs| / 8)
  {
    hide Numeral, FromLE;
    Eighths(|bs|);
    if |bs| < 8 then "" else Numeral(FromLE(bs[..8]), 16) + WordsHex(bs[8..])
  }

  /** The printer of a mapping's contents, with its quotes. */
  method PrintMapping(bs: seq<byte>) returns (text: string)
    ensures text == "\"" + WordsHex(bs) + "\""
  {
    text := "\"";
    assert bs[0..] == bs;
    for j := 0 to |bs| / 8
      invariant "\"" + WordsHex(bs) == text + WordsHex(bs[8 * j..])
    {
      ghost var rest := bs[8 * j..];
      assert rest[..8] == bs[8 * j..8 * j + 8] && rest[8..] == bs[8 * j + 8..];
      text := text + Numeral(FromLE(bs[8 * j..8 * j + 8]), 16);
    }
    text := text + "\"";
  }

  /** The bytes of digits in groups of 16. */
  function WordsOf(s: string): seq<byte> {
    if |s| < 16 then [] else LE(8, Value(s[..16])) + WordsOf(s[16..])
  }

  predicate IsSpace(c: char) {
    c == ' ' || '\t' <= c <= '\r'
  }

  function SkipSpaces(s: string): string {
    if s != "" && IsSpace(s[0]) then SkipSpaces(s[1..]) else s
  }

  /** Where the digits of a value begin: after blanks, a quote and a prefix. */
  function Payload(s: string): string {
    var t := SkipSpaces(s);
    var u := if t != "" && t[0] == '"' then t[1..] else t;
    if |u| >= 2 && u[0] == '0' && (u[1] == 'x' || u[1] == 'X') then u[2..] else u
  }

  /** What loading a text of n bytes gives: the digits must be there in full. */
  function Loaded(text: string, n: nat): Option<seq<byte>> {
    var p := Payload(text);
    if n % 8 == 0 && HexLength(p) == 2 * n then Some(WordsOf(p[..2 * n])) else None
  }

  method SkipBlanks(text: string) returns (rest: string)
    ensures rest == SkipSpaces(text)
  {
    rest := text;
    while rest != "" && IsSpace(rest[0])
      invariant SkipSpaces(text) == SkipSpaces(rest)
      decreases |rest|
    {
      rest := rest[1..];
    }
  }

  method CountDigits(text: string) returns (k: nat)
    ensures k == HexLength(text)
  {
    k := 0;
    while k < |text| && text[k] != '"' && IsHex(text[k])
      invariant k <= |text| && forall i :: 0 <= i < k ==> IsHex(text[i])
    {
      k := k + 1;
    }
    HexLengthIs(text, k);
  }

  /** The loader, on the text behind the val: key; None when it aborts. */
  method LoadMapping(text: string, n: nat) returns (val: Option<seq<byte>>)
    ensures val == Loaded(text, n)
  {
    hide WordsOf, HexLength, SkipSpaces, IsHex;
    var valp := SkipBlanks(text);
    if valp != "" && valp[0] == '"' {
      valp := valp[1..];
    }
    if |valp| >= 2 && valp[0] == '0' && (valp[1] == 'x' || valp[1] == 'X') {
      valp := valp[2..];
    }
    assert valp == Payload(text);
    var k := CountDigits(valp);
    if n % 8 != 0 || k != 2 * n {
      return None;
    }
    var bytes := LoadWords(valp[..k]);
    return Some(bytes);
  }

  /** The loop over the groups. */
  method LoadWords(digits: string) returns (val: seq<byte>)
    requires |digits| % 16 == 0 && forall i :: 0 <= i < |digits| ==> IsHex(digits[i])
    ensures val == WordsOf(digits)
  {
    hide WordsOf, LE, Value, IsHex;
    val := [];
    var w := 0;
    assert digits[0..] == digits;
    while w < |digits|
      invariant w <= |digits| && w % 16 == 0
      invariant WordsOf(digits) == val + WordsOf(digits[w..])
    {
      WordsOfStep(digits, w);
      var word := LoadWord(digits[w..w + 16]);
      val := val + word;
      w := w + 16;
    }
    NoWords(digits[w..]);
  }

  lemma WordsOfStep(s: string, w: nat)
    requires w + 16 <= |s|
    ensures WordsOf(s[w..]) == LE(8, Value(s[w..w + 16])) + WordsOf(s[w + 16..])
  {
    hide LE, Value;
    var rest := s[w..];
    assert rest[..16] == s[w..w + 16] && rest[16..] == s[w + 16..];
  }

  lemma NoWords(s: string)
    requires |s| < 16
    ensures WordsOf(s) == []
  {
  }

  /** One group: its pairs from right to left. */
  method LoadWord(group: string) returns (word: seq<byte>)
    requires |group| == 16 && forall i :: 0 <= i < 16 ==> IsHex(group[i])
    ensures word == LE(8, Value(group))
  {
    hide Value, LE, DigitValue, Nibble;
    word := [];
    var p := 7;
    assert group[..16] == group;
    while p >= 0
      invariant -1 <= p <= 7
      invariant LE(8, Value(group)) == word + LE(p + 1, Value(group[..2 * p + 2]))
    {
      var hi := Nibble(group[p * 2]);
      var lo := Nibble(group[p * 2 + 1]);
      ghost var rest := group[..2 * p + 2];
      assert hi == DigitValue(rest[2 * p]) && lo == DigitValue(rest[2 * p + 1]) by { HexValue(rest[2 * p]); HexValue(rest[2 * p + 1]); }
      TakeByte(rest, hi, lo, p + 1);
      assert group[..2 * p] == rest[..2 * p];
      word := word + [16 * hi + lo];
      p := p - 1;
    }
    NoneLeft(Value(group[..0]));
  }

  // ---------------------------------------------------------------------
  // Round trips of mappings
  // ---------------------------------------------------------------------

  lemma WordFits(bs: seq<byte>)
    requires |bs| == 8
    ensures FromLE(bs) < Pow16(16)
  {
    hide FromLE, Pow16, Pow256;
    FromLEBound(bs);
    PowSquare(8);
  }

  lemma {:induction false} WordsRoundTrip(bs: seq<byte>)
    requires |bs| % 8 == 0
    ensures WordsOf(WordsHex(bs)) == bs
    ensures forall i :: 0 <= i < |WordsHex(bs)| ==> IsHex(WordsHex(bs)[i])
  {
    if |bs| >= 8 {
      var s := WordsHex(bs);
      WordFits(bs[..8]);
      NumeralValue(FromLE(bs[..8]), 16);
      ReadBack(bs[..8]);
      assert s[..16] == Numeral(FromLE(bs[..8]), 16) && s[16..] == WordsHex(bs[8..]);
      WordsRoundTrip(bs[8..]);
      assert bs[..8] + bs[8..] == bs;
    }
  }

  /** Loading what was printed restores the mapping exactly when its size is a
      multiple of eight; otherwise the loader aborts. */
  lemma MappingRoundTrip(bs: seq<byte>)
    ensures var text := " \"" + WordsHex(bs) + "\"";
      Loaded(text, |bs|) == if |bs| % 8 == 0 then Some(bs) else None
  {
    hide WordsHex, WordsOf, Payload, IsHex, HexLength;
    if |bs| % 8 == 0 {
      var s := WordsHex(bs);
      var text := " \"" + s + "\"";
      WordsRoundTrip(bs);
      PrintedPayload(s);
      var p := s + "\"";
      DigitsThenQuote(s);
      assert p[..|s|] == s;
    }
  }

  lemma DigitsThenQuote(s: string)
    requires forall i :: 0 <= i < |s| ==> IsHex(s[i])
    ensures HexLength(s + "\"") == |s|
  {
    var p := s + "\"";
    assert forall i :: 0 <= i < |s| ==> p[i] == s[i];
    HexLengthIs(p, |s|);
  }

  /** White space, an opening quote and the prefix of a hexadecimal number are
      skipped, whatever follows them. */
  lemma PrefixIsSkipped(spaces: string, quote: string, prefix: string, p: string)
    requires forall i :: 0 <= i < |spaces| ==> spaces[i] in " \t\n\U{0b}\U{0c}\r"
    requires quote in ["", "\""] && prefix in ["0x", "0X"]
    ensures Payload(spaces + (quote + (prefix + p))) == p
  {
    var t := quote + (prefix + p);
    SpacesAreSkipped(spaces, t);
    assert SkipSpaces(t) == t;
    if quote == "" {
      assert t == prefix + p;
    } else {
      assert t[1..] == prefix + p;
    }
    assert (prefix + p)[2..] == p;
  }

  lemma {:induction false} SpacesAreSkipped(spaces: string, t: string)
    requires forall i :: 0 <= i < |spaces| ==> spaces[i] in " \t\n\U{0b}\U{0c}\r"
    ensures SkipSpaces(spaces + t) == SkipSpaces(t)
  {
    if spaces == "" {
      assert spaces + t == t;
    } else {
      assert spaces[0] in " \t\n\U{0b}\U{0c}\r";
      assert (spaces + t)[1..] == spaces[1..] + t;
      SpacesAreSkipped(spaces[1..], t);
    }
  }

  /** What starts with none of these is the payload itself. */
  lemma PlainPayload(p: string)
    requires p == "" || (p[0] !in " \t\n\U{0b}\U{0c}\r\"" && !("0x" <= p) && !("0X" <= p))
    ensures Payload(p) == p
  {
    if p != "" {
      SpaceIs(p[0]);
      if |p| >= 2 { assert p[..2] == [p[0], p[1]]; }
    }
  }

  lemma SpaceIs(c: char)
    ensures IsSpace(c) <==> c in " \t\n\U{0b}\U{0c}\r"
  {
    var all := " \t\n\U{0b}\U{0c}\r";
    assert all[0] in all && all[1] in all && all[2] in all && all[3] in all && all[4] in all && all[5] in all;
  }

  lemma PrintedPayload(s: string)
    requires forall i :: 0 <= i < |s| ==> IsHex(s[i])
    ensures Payload(" \"" + s + "\"") == s + "\""
  {
    var text := " \"" + s + "\"";
    var t := text[1..];
    assert SkipSpaces(text) == SkipSpaces(t) == t;
    assert t[1..] == s + "\"";
    if |s| >= 2 {
      assert IsHex(s[1]) && (s + "\"")[1] == s[1];
    }
  }

  /** And every lower-case payload of whole words is what the printer writes
      for the bytes loaded from it. */
  lemma {:induction false} WordsReprint(s: string)
    requires LowerCase(s) && |s| % 16 == 0
    ensures WordsHex(WordsOf(s)) == s
  {
    hide Value, Numeral, LE, FromLE, IsHex, Pow16, Pow256;
    if |s| >= 16 {
      var g := s[..16];
      ValueNumeral(g);
      PowSquare(8);
      LERoundTrip(8, Value(g));
      var bs := WordsOf(s);
      assert bs[..8] == LE(8, Value(g)) && bs[8..] == WordsOf(s[16..]);
      WordsReprint(s[16..]);
      assert s == g + s[16..];
    }
  }
}
