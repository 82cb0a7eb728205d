/**
 Builds in which an input is a generator sequence number with a repeat count
 (JUST_SEQ_NUM), and what the announced count then means.
 */
module SeqNumBatches {
  import opened Bytes
  import opened Batching
  import opened Protocol
  import Progress

  /** One slot of the buffer: eight bytes of sequence number, two of repeat
      count, one of length and one flag. */
  datatype SeqNum = SeqNum(seqNum: nat, n: nat, seqLen: nat, fullSeq: bool)

  const SLOT_SIZE: nat := 12

  /** The frame body of repetition a of a slot. */
  type Generator = (SeqNum, nat) -> seq<byte>

  function Repeats(gen: Generator, x: SeqNum, k: nat): (bs: seq<seq<byte>>)
    ensures |bs| == k
    ensures forall i :: 0 <= i < k ==> bs[i] == gen(x, i)
  {
    if k == 0 then [] else Repeats(gen, x, k - 1) + [gen(x, k - 1)]
  }

  /** The bodies a list of slots stands for. */
  function Flat(gen: Generator, xs: seq<SeqNum>): seq<seq<byte>> {
    if xs == [] then [] else Repeats(gen, xs[0], xs[0].n) + Flat(gen, xs[1..])
  }

  /** The number of results, which is the count sent with the batch. */
  function Total(xs: seq<SeqNum>): nat {
    if xs == [] then 0 else xs[0].n + Total(xs[1..])
  }

  // ---------------------------------------------------------------------
  // The client and its buffer
  // ---------------------------------------------------------------------

  /** The buffer after a message: the slots behind it keep what they held. */
  function Store(buf: seq<SeqNum>, xs: seq<SeqNum>): (b: seq<SeqNum>)
    requires |xs| <= |buf|
    ensures |b| == |buf|
  {
    xs + buf[|xs|..]
  }

  /** One batch, with a buffer of big slots: the bodies the client packs and
      its buffer. It walks as many slots as there are results, and it ends when
      the count is above the limit, when the message is longer than the
      announced count of slots, or when its assertions on the reply fail. */
  function Serve(gen: Generator, big: nat, buf: seq<SeqNum>, xs: seq<SeqNum>): (r: Option<(seq<seq<byte>>, seq<SeqNum>)>)
    requires |buf| == big
    ensures r.Some? ==> |r.value.1| == big
  {
    if Total(xs) > big || SLOT_SIZE * |xs| > SLOT_SIZE * Total(xs) then None
    else
      var b := Store(buf, xs);
      var bodies := Flat(gen, b[..Total(xs)]);
      if ReplyFits(bodies) then Some((bodies, b)) else None
  }

  /** A history of batches: the replies and the buffer, or None once the client has ended. */
  function ServeAll(gen: Generator, big: nat, buf: seq<SeqNum>, batches: seq<seq<SeqNum>>)
    : (r: Option<(seq<seq<seq<byte>>>, seq<SeqNum>)>)
    requires |buf| == big
    ensures r.Some? ==> |r.value.1| == big && |r.value.0| == |batches|
  {
    if batches == [] then Some(([], buf))
    else
      var done := ServeAll(gen, big, buf, batches[..|batches| - 1]);
      if done.None? then None
      else
        var last := Serve(gen, big, done.value.1, batches[|batches| - 1]);
        if last.None? then None else Some((done.value.0 + [last.value.0], last.value.1))
  }

  lemma {:induction false} FlatAppend(gen: Generator, a: seq<SeqNum>, b: seq<SeqNum>)
    ensures Flat(gen, a + b) == Flat(gen, a) + Flat(gen, b)
  {
    if a == [] {
      assert a + b == b;
    } else {
      assert (a + b)[1..] == a[1..] + b;
      FlatAppend(gen, a[1..], b);
    }
  }

  lemma {:induction false} FlatLength(gen: Generator, xs: seq<SeqNum>)
    ensures |Flat(gen, xs)| == Total(xs)
  {
    if xs != [] {
      FlatLength(gen, xs[1..]);
    }
  }

  /** Whatever the client answers begins with the wanted bodies: slots left in
      the buffer only add bodies behind them. */
  lemma ReplyStartsRight(gen: Generator, big: nat, buf: seq<SeqNum>, xs: seq<SeqNum>)
    requires |buf| == big && Serve(gen, big, buf, xs).Some?
    ensures |Flat(gen, xs)| == Total(xs) && Flat(gen, xs) <= Serve(gen, big, buf, xs).value.0
  {
    hide ReplyFits, Flat;
    var t, b := Total(xs), Store(buf, xs);
    FlatLength(gen, xs);
    assert b[..t] == xs + b[|xs|..t];
    FlatAppend(gen, xs, b[|xs|..t]);
  }

  /** So splitting is right for every part of an answered batch: the frames
      behind the first skip ones are the wanted ones, whatever the buffer held. */
  lemma SplitIgnoresStale(gen: Generator, big: nat, buf: seq<SeqNum>, xs: seq<SeqNum>, skip: nat, n: nat)
    requires |buf| == big && Serve(gen, big, buf, xs).Some? && skip + n <= Total(xs)
    ensures |Flat(gen, xs)| == Total(xs)
    ensures var want := Flat(gen, xs);
      TakeFrames(Frames(Serve(gen, big, buf, xs).value.0), |Frames(want[..skip])|, n, [])
      == Some((Concat(want[skip..skip + n]), |Frames(want[..skip + n])|))
  {
    hide TakeFrames, Frames, Concat, Flat, ReplyFits;
    ReplyStartsRight(gen, big, buf, xs);
    var want, all := Flat(gen, xs), Serve(gen, big, buf, xs).value.0;
    var a, b, c := want[..skip], want[skip..skip + n], all[skip + n..];
    assert all == a + b + c;
    FramesAppend(a + b, c);
    FramesAppend(a, b);
    assert want[..skip + n] == a + b;
    PartsFit(a + b, c);
    PartsFit(a, b);
    FitsLengths(b);
    TakeFramesRoundTrip(Frames(a), b, Frames(c), []);
    assert [] + Concat(b) == Concat(b);
  }

  /** Slots that all ask for at least one result are never more than the results. */
  lemma {:induction false} PositiveSlots(xs: seq<SeqNum>)
    requires forall j :: 0 <= j < |xs| ==> xs[j].n > 0
    ensures |xs| <= Total(xs)
  {
    if xs != [] {
      PositiveSlots(xs[1..]);
    }
  }

  // ---------------------------------------------------------------------
  // Answers from the history
  // ---------------------------------------------------------------------

  /** What slot j holds: the entry of the last batch that reached it. */
  function SlotAt(initial: seq<SeqNum>, batches: seq<seq<SeqNum>>, j: nat): SeqNum
    requires j < |initial|
  {
    if batches == [] then initial[j]
    else if j < |batches[|batches| - 1]| then batches[|batches| - 1][j]
    else SlotAt(initial, batches[..|batches| - 1], j)
  }

  /** The first n slots. */
  function Slots(initial: seq<SeqNum>, batches: seq<seq<SeqNum>>, n: nat): (s: seq<SeqNum>)
    requires n <= |initial|
    ensures |s| == n
    ensures forall j :: 0 <= j < n ==> s[j] == SlotAt(initial, batches, j)
  {
    if n == 0 then [] else Slots(initial, batches, n - 1) + [SlotAt(initial, batches, n - 1)]
  }

  predicate Accepted(big: nat, xs: seq<SeqNum>) {
    |xs| <= Total(xs) <= big
  }

  /** Batch k has no more slots than results, is within the limit, and the
      entries last written to the slots it announces give a reply that passes
      the client's assertions. */
  ghost predicate Answerable(gen: Generator, big: nat, initial: seq<SeqNum>, batches: seq<seq<SeqNum>>, k: nat)
    requires |initial| == big && k < |batches|
  {
    Accepted(big, batches[k]) && ReplyFits(Flat(gen, Slots(initial, batches[..k + 1], Total(batches[k]))))
  }

  /** The buffer holds in each slot the entry of the last batch that reached it. */
  lemma {:induction false} BufferIs(gen: Generator, big: nat, initial: seq<SeqNum>, batches: seq<seq<SeqNum>>)
    requires |initial| == big && ServeAll(gen, big, initial, batches).Some?
    ensures ServeAll(gen, big, initial, batches).value.1 == Slots(initial, batches, big)
  {
    hide Flat, ReplyFits;
    if batches == [] {
      assert initial == Slots(initial, batches, big);
    } else {
      var k := |batches| - 1;
      BufferIs(gen, big, initial, batches[..k]);
      var b := ServeAll(gen, big, initial, batches).value.1;
      forall j | 0 <= j < big
        ensures b[j] == SlotAt(initial, batches, j)
      {
      }
    }
  }

  /** A history is answered throughout exactly when every batch of it is
      answerable, and then every reply begins with the wanted bodies. */
  lemma {:induction false} HistoryAnswers(gen: Generator, big: nat, initial: seq<SeqNum>, batches: seq<seq<SeqNum>>)
    requires |initial| == big
    ensures ServeAll(gen, big, initial, batches).Some? <==> forall k :: 0 <= k < |batches| ==> Answerable(gen, big, initial, batches, k)
    ensures ServeAll(gen, big, initial, batches).Some? ==>
      forall k :: 0 <= k < |batches| ==> Flat(gen, batches[k]) <= ServeAll(gen, big, initial, batches).value.0[k]
  {
    hide Flat, ReplyFits, Answerable, Slots;
    if batches != [] {
      var n := |batches| - 1;
      var prev := batches[..n];
      HistoryAnswers(gen, big, initial, prev);
      forall k | 0 <= k < n
        ensures Answerable(gen, big, initial, batches, k) <==> Answerable(gen, big, initial, prev, k)
      {
        SameAnswer(gen, big, initial, batches, n, k);
      }
      var done := ServeAll(gen, big, initial, prev);
      if done.Some? {
        LastAnswer(gen, big, initial, batches);
        if Serve(gen, big, done.value.1, batches[n]).Some? {
          ReplyStartsRight(gen, big, done.value.1, batches[n]);
        }
      }
    }
  }

  lemma SameAnswer(gen: Generator, big: nat, initial: seq<SeqNum>, batches: seq<seq<SeqNum>>, n: nat, k: nat)
    requires |initial| == big && k < n <= |batches|
    ensures Answerable(gen, big, initial, batches, k) <==> Answerable(gen, big, initial, batches[..n], k)
  {
    hide Flat, ReplyFits, Slots;
    assert batches[..n][..k + 1] == batches[..k + 1];
  }

  lemma LastAnswer(gen: Generator, big: nat, initial: seq<SeqNum>, batches: seq<seq<SeqNum>>)
    requires |initial| == big && batches != [] && ServeAll(gen, big, initial, batches[..|batches| - 1]).Some?
    ensures Serve(gen, big, ServeAll(gen, big, initial, batches[..|batches| - 1]).value.1, batches[|batches| - 1]).Some?
      <==> Answerable(gen, big, initial, batches, |batches| - 1)
  {
    hide Flat, ReplyFits, ServeAll;
    var n := |batches| - 1;
    var xs, prev := batches[n], batches[..n];
    BufferIs(gen, big, initial, prev);
    assert batches[..n + 1] == batches;
    if Accepted(big, xs) {
      var buf := Slots(initial, prev, big);
      assert Store(buf, xs)[..Total(xs)] == Slots(initial, batches, Total(xs));
    }
  }

  lemma {:induction false} SlotBound(big: nat, initial: seq<SeqNum>, batches: seq<seq<SeqNum>>, j: nat)
    requires j < |initial| && initial[j].n == 0 && forall k :: 0 <= k < |batches| ==> Accepted(big, batches[k])
    ensures SlotAt(initial, batches, j).n <= big
  {
    if batches != [] {
      var k := |batches| - 1;
      if j < |batches[k]| {
        assert Accepted(big, batches[k]);
        SlotWithinTotal(batches[k], j);
      } else {
        SlotBound(big, initial, batches[..k], j);
      }
    }
  }

  lemma {:induction false} SlotWithinTotal(xs: seq<SeqNum>, j: nat)
    requires j < |xs|
    ensures xs[j].n <= Total(xs)
  {
    if j > 0 {
      SlotWithinTotal(xs[1..], j - 1);
    }
  }

  lemma {:induction false} TotalBound(xs: seq<SeqNum>, big: nat)
    requires forall j :: 0 <= j < |xs| ==> xs[j].n <= big
    ensures Total(xs) <= |xs| * big
  {
    if xs != [] {
      TotalBound(xs[1..], big);
      Progress.OneMore(|xs| - 1, big);
    }
  }

  lemma {:induction false} BodiesBound(gen: Generator, xs: seq<SeqNum>, maxBody: nat)
    requires forall x: SeqNum, a: nat :: |gen(x, a)| <= maxBody
    ensures forall k :: 0 <= k < |Flat(gen, xs)| ==> |Flat(gen, xs)[k]| <= maxBody
  {
    if xs != [] {
      BodiesBound(gen, xs[1..], maxBody);
      var r, rest := Repeats(gen, xs[0], xs[0].n), Flat(gen, xs[1..]);
      var both: seq<seq<byte>> := r + rest;
      forall k | 0 <= k < |both|
        ensures |both[k]| <= maxBody
      {
        if k < |r| { assert r[k] == gen(xs[0], k); }
      }
    }
  }

  /** A limit under which nothing left in the buffer matters: with a buffer that
      starts empty and big * big bodies below the output buffer, every history
      of accepted batches is answered. */
  lemma SmallLimitAnswers(gen: Generator, big: nat, maxBody: nat, initial: seq<SeqNum>, batches: seq<seq<SeqNum>>)
    requires |initial| == big && forall j :: 0 <= j < big ==> initial[j].n == 0
    requires forall x: SeqNum, a: nat :: |gen(x, a)| <= maxBody
    requires maxBody < U16 && big * big * (2 + maxBody) < OUT_SIZE
    requires forall k :: 0 <= k < |batches| ==> Accepted(big, batches[k])
    ensures ServeAll(gen, big, initial, batches).Some?
  {
    hide ServeAll, ReplyFits, Slots;
    forall k | 0 <= k < |batches|
      ensures Answerable(gen, big, initial, batches, k)
    {
      assert Accepted(big, batches[k]);
      var n, seen := Total(batches[k]), batches[..k + 1];
      var slots := Slots(initial, seen, n);
      forall j | 0 <= j < n
        ensures slots[j].n <= big
      {
        SlotBound(big, initial, seen, j);
      }
      SmallReply(gen, big, maxBody, slots);
    }
    HistoryAnswers(gen, big, initial, batches);
  }

  lemma SmallReply(gen: Generator, big: nat, maxBody: nat, slots: seq<SeqNum>)
    requires |slots| <= big && forall j :: 0 <= j < |slots| ==> slots[j].n <= big
    requires forall x: SeqNum, a: nat :: |gen(x, a)| <= maxBody
    requires maxBody < U16 && big * big * (2 + maxBody) < OUT_SIZE
    ensures ReplyFits(Flat(gen, slots))
  {
    hide Frames, Flat;
    var bs := Flat(gen, slots);
    BodiesBound(gen, slots, maxBody);
    FlatLength(gen, slots);
    TotalBound(slots, big);
    Progress.Scale(|slots|, big, big);
    Progress.Scale(|bs|, big * big, 2 + maxBody);
    Progress.FramesBound(bs, maxBody);
  }

  // ---------------------------------------------------------------------
  // Where it fails
  // ---------------------------------------------------------------------

  /** One slot that asks for no result makes the message longer than announced,
      and the client ends without an answer. */
  lemma RefusedExample(gen: Generator, buf: seq<SeqNum>)
    requires |buf| == 10
    ensures Serve(gen, 10, buf, [SeqNum(0, 1, 1, false), SeqNum(1, 0, 1, false)]) == None
  {
    var x, y := SeqNum(0, 1, 1, false), SeqNum(1, 0, 1, false);
    assert [x, y][1..] == [y] && [y][1..] == [];
    assert Total([y]) == 0 && Total([x, y]) == 1;
  }

  lemma {:induction false} EmptySlots(gen: Generator, xs: seq<SeqNum>)
    requires forall j :: 0 <= j < |xs| ==> xs[j].n == 0
    ensures Flat(gen, xs) == []
  {
    if xs != [] {
      EmptySlots(gen, xs[1..]);
    }
  }

  lemma {:induction false} FramesLength(bs: seq<seq<byte>>, n: nat)
    requires forall k :: 0 <= k < |bs| ==> |bs[k]| == n
    ensures |Frames(bs)| == |bs| * (2 + n)
  {
    hide LE;
    if bs != [] {
      FramesLength(bs[1..], n);
      assert (|bs| - 1) * (2 + n) + (2 + n) == |bs| * (2 + n);
    }
  }

  const EMPTY := SeqNum(0, 0, 0, false)

  /** The reply over slots that begin with the given ones and are empty behind them. */
  lemma ReplySize(gen: Generator, some: seq<SeqNum>, rest: seq<SeqNum>)
    requires (forall x: SeqNum, a: nat :: |gen(x, a)| == 0xC000) && forall j :: 0 <= j < |rest| ==> rest[j].n == 0
    ensures |Frames(Flat(gen, some + rest))| == Total(some) * 0xC002
    ensures ReplyFits(Flat(gen, some + rest)) <==> Total(some) * 0xC002 < OUT_SIZE
  {
    hide Frames, Flat;
    FlatAppend(gen, some, rest);
    EmptySlots(gen, rest);
    var bs := Flat(gen, some);
    assert Flat(gen, some + rest) == bs + [] == bs;
    FlatLength(gen, some);
    BodiesAre(gen, some);
    FramesLength(bs, 0xC000);
  }

  lemma {:induction false} BodiesAre(gen: Generator, xs: seq<SeqNum>)
    requires forall x: SeqNum, a: nat :: |gen(x, a)| == 0xC000
    ensures forall k :: 0 <= k < |Flat(gen, xs)| ==> |Flat(gen, xs)[k]| == 0xC000
  {
    if xs != [] {
      BodiesAre(gen, xs[1..]);
      var r, rest := Repeats(gen, xs[0], xs[0].n), Flat(gen, xs[1..]);
      var both: seq<seq<byte>> := r + rest;
      forall k | 0 <= k < |both|
        ensures |both[k]| == 0xC000
      {
        if k < |r| { assert r[k] == gen(xs[0], k); }
      }
    }
  }

  lemma StoreTwice(initial: seq<SeqNum>, x: SeqNum, y: SeqNum, z: SeqNum)
    requires |initial| == 200 && forall j :: 0 <= j < 200 ==> initial[j] == EMPTY
    ensures Store(Store(initial, [x, y]), [z])[..20] == [z, y] + initial[..18]
  {
    var two, all := Store(Store(initial, [x, y]), [z])[..20], [z, y] + initial[..18];
    forall j | 0 <= j < 20
      ensures two[j] == all[j]
    {
      if j >= 2 { assert all[j] == initial[j - 2] && two[j] == initial[j]; }
    }
  }

  /** A slot left over from an answered batch overflows the output buffer of a
      later one, although the later one's own reply fits. */
  lemma StaleSlotsOverflow(gen: Generator)
    requires forall x: SeqNum, a: nat :: |gen(x, a)| == 0xC000
    ensures var initial, a, b := seq(200, (_: nat) => EMPTY), [SeqNum(0, 1, 1, false), SeqNum(1, 199, 1, false)], [SeqNum(200, 20, 1, false)];
      && ServeAll(gen, 200, initial, [a]).Some?
      && ServeAll(gen, 200, initial, [a, b]) == None
      && ReplyFits(Flat(gen, b))
  {
    hide Flat, ReplyFits;
    var initial := seq(200, (_: nat) => EMPTY);
    var x, y, z := SeqNum(0, 1, 1, false), SeqNum(1, 199, 1, false), SeqNum(200, 20, 1, false);
    var a, b := [x, y], [z];
    assert a[1..] == [y] && [y][1..] == [] && [z][1..] == [] && Total([]) == 0;
    assert Total([y]) == 199 && Total(a) == 200;
    assert Total([z]) == z.n + Total([z][1..]) == 20;
    assert [z, y][1..] == [y] && Total([z, y]) == 219;
    var one := Store(initial, a);
    assert one[..200] == a + initial[2..];
    ReplySize(gen, a, initial[2..]);
    assert [a][..0] == [] && [a, b][..1] == [a];
    assert ServeAll(gen, 200, initial, []) == Some(([], initial));
    assert ServeAll(gen, 200, initial, [a]).Some? && ServeAll(gen, 200, initial, [a]).value.1 == one;
    var two := Store(one, b);
    StoreTwice(initial, x, y, z);
    ReplySize(gen, [z, y], initial[..18]);
    assert b + [] == b;
    ReplySize(gen, b, []);
  }
}
