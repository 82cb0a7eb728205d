/** Packed inputs and the client's walk over a merged batch with its variable stride. */
module InputCodec {
  import opened Bytes

  /** An input: its register bytes (none, selectors or full values, as built),
      the full-sequence flag and the instruction words. */
  datatype Input = Input(regs: seq<byte>, fullSeq: bool, instrs: seq<nat>)

  /** Register bytes per input and the longest sequence, fixed by the build. */
  datatype Shape = Shape(regBytes: nat, maxSeqLen: nat)

  /** Offset of the instruction words: the two header bytes follow the
      registers and the words are aligned to four bytes. */
  function Header(regBytes: nat): (h: nat)
    ensures regBytes + 2 <= h < regBytes + 6 && h % 4 == 0
  {
    (regBytes + 5) / 4 * 4
  }

  /** What struct.pack accepts (a byte length, 32-bit words) and the build allows. */
  predicate Packable(sh: Shape, i: Input) {
    && |i.regs| == sh.regBytes
    && 0 < |i.instrs| <= sh.maxSeqLen && |i.instrs| < 256
    && forall k :: 0 <= k < |i.instrs| ==> i.instrs[k] < 0x1_0000_0000
  }

  function Words(ws: seq<nat>): (s: seq<byte>)
    ensures |s| == 4 * |ws|
  {
    if ws == [] then [] else LE(4, ws[0]) + Words(ws[1..])
  }

  function Zeros(n: nat): (s: seq<byte>)
    ensures |s| == n
  {
    seq(n, _ => 0)
  }

  /** FullInput.pack behind its register bytes. */
  function Pack(sh: Shape, i: Input): (s: seq<byte>)
    requires Packable(sh, i)
    ensures |s| == Header(sh.regBytes) + 4 * |i.instrs|
  {
    i.regs + [|i.instrs|] + [if i.fullSeq then 1 else 0] + Zeros(Header(sh.regBytes) - sh.regBytes - 2) + Words(i.instrs)
  }

  lemma {:induction false} WordByte(ws: seq<nat>, k: nat, j: nat)
    requires k < |ws| && j < 4
    ensures Words(ws)[4 * k + j] == ws[k] / Pow256(j) % 256
  {
    if k == 0 {
      LEDigit(4, ws[0], j);
    } else {
      WordByte(ws[1..], k - 1, j);
      assert Words(ws)[4 * k + j] == Words(ws[1..])[4 * (k - 1) + j];
    }
  }

  /** Where everything is in a packed input: the registers, the length, the flag,
      and from the next multiple of four on the words, lowest byte first. */
  lemma PackLayout(sh: Shape, i: Input, k: nat, j: nat)
    requires Packable(sh, i) && k < |i.instrs| && j < 4
    ensures var s, n, h := Pack(sh, i), sh.regBytes, Header(sh.regBytes);
      && s[..n] == i.regs && s[n] == |i.instrs| && s[n + 1] == (if i.fullSeq then 1 else 0)
      && (forall p :: n + 2 <= p < h ==> s[p] == 0)
      && s[h + 4 * k + j] == i.instrs[k] / Pow256(j) % 256
  {
    hide Words, Pow256;
    WordByte(i.instrs, k, j);
    var s, h := Pack(sh, i), Header(sh.regBytes);
    assert s[h..] == Words(i.instrs);
    assert s[h..][4 * k + j] == s[h + 4 * k + j];
  }

  predicate AllPackable(sh: Shape, ins: seq<Input>) {
    forall k :: 0 <= k < |ins| ==> Packable(sh, ins[k])
  }

  function PackAll(sh: Shape, ins: seq<Input>): seq<byte>
    requires AllPackable(sh, ins)
  {
    if ins == [] then [] else Pack(sh, ins[0]) + PackAll(sh, ins[1..])
  }

  // ---------------------------------------------------------------------
  // Client side
  // ---------------------------------------------------------------------

  function ReadWords(buf: seq<byte>, n: nat): seq<nat>
    requires 4 * n <= |buf|
  {
    if n == 0 then [] else [FromLE(buf[..4])] + ReadWords(buf[4..], n - 1)
  }

  /** The struct input at the front of the buffer, or None when it does not fit. */
  function ReadInput(sh: Shape, buf: seq<byte>): (r: Option<Input>) {
    if |buf| < Header(sh.regBytes) then None
    else
      var n: nat := buf[sh.regBytes];
      if |buf| < Header(sh.regBytes) + 4 * n then None
      else Some(Input(buf[..sh.regBytes], buf[sh.regBytes + 1] != 0, ReadWords(buf[Header(sh.regBytes)..], n)))
  }

  /** Distance to the next input. */
  function Stride(sh: Shape, i: Input): nat {
    Header(sh.regBytes) + 4 * |i.instrs|
  }

  lemma {:induction false} ReadWordsLength(buf: seq<byte>, n: nat)
    requires 4 * n <= |buf|
    ensures |ReadWords(buf, n)| == n
  {
    if n > 0 {
      ReadWordsLength(buf[4..], n - 1);
    }
  }

  /** The inputs the batch loop visits for a count of n. */
  function Walk(sh: Shape, buf: seq<byte>, n: nat): (r: Option<seq<Input>>)
    decreases n
  {
    if n == 0 then Some([])
    else
      var i := ReadInput(sh, buf);
      if i.None? || |buf| < Stride(sh, i.value) then None
      else
        var rest := Walk(sh, buf[Stride(sh, i.value)..], n - 1);
        if rest.None? then None else Some([i.value] + rest.value)
  }

  lemma {:induction false} WordsRoundTrip(ws: seq<nat>, rest: seq<byte>)
    requires forall k :: 0 <= k < |ws| ==> ws[k] < 0x1_0000_0000
    ensures ReadWords(Words(ws) + rest, |ws|) == ws
  {
    hide LE, FromLE;
    if ws != [] {
      var buf := Words(ws) + rest;
      assert buf[..4] == LE(4, ws[0]);
      assert buf[4..] == Words(ws[1..]) + rest;
      Widths();
      LERoundTrip(4, ws[0]);
      WordsRoundTrip(ws[1..], rest);
    }
  }

  lemma PackRoundTrip(sh: Shape, i: Input, rest: seq<byte>)
    requires Packable(sh, i)
    ensures ReadInput(sh, Pack(sh, i) + rest) == Some(i)
    ensures Stride(sh, i) == |Pack(sh, i)|
  {
    hide ReadWords, Words, LE;
    var buf := Pack(sh, i) + rest;
    var h := Header(sh.regBytes);
    assert buf[..sh.regBytes] == i.regs;
    assert buf[sh.regBytes] == |i.instrs|;
    assert buf[h..] == Words(i.instrs) + rest;
    WordsRoundTrip(i.instrs, rest);
  }

  /** The stride is right for every input: the client sees exactly the inputs
      that were packed, whatever follows them in the buffer. */
  lemma {:induction false} WalkRoundTrip(sh: Shape, ins: seq<Input>, rest: seq<byte>)
    requires AllPackable(sh, ins)
    ensures Walk(sh, PackAll(sh, ins) + rest, |ins|) == Some(ins)
  {
    hide ReadInput, Pack, Packable;
    if ins != [] {
      var tail := PackAll(sh, ins[1..]) + rest;
      assert PackAll(sh, ins) + rest == Pack(sh, ins[0]) + tail;
      PackRoundTrip(sh, ins[0], tail);
      assert (Pack(sh, ins[0]) + tail)[|Pack(sh, ins[0])|..] == tail;
      WalkRoundTrip(sh, ins[1..], rest);
      assert [ins[0]] + ins[1..] == ins;
    }
  }

  lemma {:induction false} PackAllAppend(sh: Shape, a: seq<Input>, b: seq<Input>)
    requires AllPackable(sh, a) && AllPackable(sh, b)
    ensures AllPackable(sh, a + b)
    ensures PackAll(sh, a + b) == PackAll(sh, a) + PackAll(sh, b)
  {
    hide Pack, Packable;
    if a == [] {
      assert a + b == b;
    } else {
      assert (a + b)[1..] == a[1..] + b;
      PackAllAppend(sh, a[1..], b);
    }
  }

  /** The receive buffer is sized for max_input_size bytes per input. */
  function MaxInputSize(sh: Shape): nat {
    Header(sh.regBytes) + 4 * sh.maxSeqLen
  }

  lemma {:induction false} PackAllFits(sh: Shape, ins: seq<Input>)
    requires AllPackable(sh, ins)
    ensures |PackAll(sh, ins)| <= MaxInputSize(sh) * |ins|
  {
    if ins != [] {
      PackAllFits(sh, ins[1..]);
      assert |Pack(sh, ins[0])| <= MaxInputSize(sh);
      assert MaxInputSize(sh) * |ins| == MaxInputSize(sh) + MaxInputSize(sh) * (|ins| - 1);
    }
  }
}
