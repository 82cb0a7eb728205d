/**
 The whole system for one connection, interleaved in any order: every run
 keeps the invariant that makes batching transparent.
 */
module Protocol {
  import opened Bytes
  import opened InputCodec
  import opened Batching

  type Body = Input -> seq<byte>

  datatype Config = Config(sh: Shape, big: nat, singleStep: bool)

  /** Size of the client's output buffer. */
  const OUT_SIZE: nat := 0xA0_0000

  /** The client's assertions on a reply: every frame length fits 16 bits, and
      the frames stay below the output buffer. */
  predicate ReplyFits(bs: seq<seq<byte>>) {
    (forall k :: 0 <= k < |bs| ==> |bs[k]| < U16) && |Frames(bs)| < OUT_SIZE
  }

  function Bodies(body: Body, ins: seq<Input>): (bs: seq<seq<byte>>)
    ensures |bs| == |ins|
    ensures forall k :: 0 <= k < |ins| ==> bs[k] == body(ins[k])
  {
    if ins == [] then [] else [body(ins[0])] + Bodies(body, ins[1..])
  }

  /** One round of the client: its own checks, the walk over the buffer (the
      message followed by whatever the buffer held before) and the packed reply.
      None when one of its checks or assertions ends it. */
  function ClientReply(cfg: Config, body: Body, m: Message, stale: seq<byte>): Option<seq<byte>> {
    if m.n > cfg.big || |m.packed| > MaxInputSize(cfg.sh) * m.n then None
    else
      var w := Walk(cfg.sh, m.packed + stale, m.n);
      if w.None? || !ReplyFits(Bodies(body, w.value)) then None else Some(Frames(Bodies(body, w.value)))
  }

  /** The batch loop of the client: an input pointer advanced by each input's
      own stride, one packed frame appended per input. */
  method RunBatch(cfg: Config, body: Body, m: Message, stale: seq<byte>) returns (reply: Option<seq<byte>>)
    ensures reply == ClientReply(cfg, body, m, stale)
  {
    hide ReadInput, Frame, Frames, ReplyFits;
    if m.n > cfg.big || |m.packed| > MaxInputSize(cfg.sh) * m.n {
      return None;
    }
    var inputsBuf := m.packed + stale;
    var input := 0;
    var out: seq<byte> := [];
    ghost var seen: seq<Input> := [];
    ghost var walk := Walk(cfg.sh, inputsBuf, m.n);
    assert inputsBuf[0..] == inputsBuf;
    AppendLaws([], [], walk);
    assert ReplyFits(Bodies(body, [])) && Frames(Bodies(body, [])) == [] by { NothingToSend(body); }
    for b := 0 to m.n
      invariant 0 <= input <= |inputsBuf|
      invariant out == Frames(Bodies(body, seen))
      invariant ReplyFits(Bodies(body, seen))
      invariant walk == Append(seen, Walk(cfg.sh, inputsBuf[input..], m.n - b))
    {
      var i := ReadInput(cfg.sh, inputsBuf[input..]);
      if i.None? || |inputsBuf| - input < Stride(cfg.sh, i.value) {
        return None;
      }
      FrameOne(body, seen, i.value);
      var frame := Frame(body(i.value));
      assert inputsBuf[input..][Stride(cfg.sh, i.value)..] == inputsBuf[input + Stride(cfg.sh, i.value)..];
      AppendLaws(seen, [i.value], Walk(cfg.sh, inputsBuf[input + Stride(cfg.sh, i.value)..], m.n - b - 1));
      seen := seen + [i.value];
      input := input + Stride(cfg.sh, i.value);
      if |body(i.value)| >= U16 || |out| + |frame| >= OUT_SIZE {
        // The frame length or the buffer assertion of the client fails.
        Overflow(body, seen, Walk(cfg.sh, inputsBuf[input..], m.n - b - 1));
        return None;
      }
      out := out + frame;
    }
    assert seen + [] == seen;
    return Some(out);
  }

  lemma NothingToSend(body: Body)
    ensures ReplyFits(Bodies(body, [])) && Frames(Bodies(body, [])) == []
  {
  }

  /** Once an assertion fails, it fails for the whole reply. */
  lemma Overflow(body: Body, seen: seq<Input>, rest: Option<seq<Input>>)
    requires !ReplyFits(Bodies(body, seen))
    ensures Append(seen, rest).Some? ==> !ReplyFits(Bodies(body, Append(seen, rest).value))
  {
    hide ReplyFits;
    if rest.Some? && ReplyFits(Bodies(body, seen + rest.value)) {
      FitsSplit(body, seen, rest.value);
    }
  }

  ghost function Append(a: seq<Input>, r: Option<seq<Input>>): Option<seq<Input>> {
    if r.None? then None else Some(a + r.value)
  }

  lemma AppendLaws(a: seq<Input>, b: seq<Input>, r: Option<seq<Input>>)
    ensures Append(a, Append(b, r)) == Append(a + b, r)
    ensures Append([], r) == r
  {
    if r.Some? {
      assert a + (b + r.value) == a + b + r.value;
      assert [] + r.value == r.value;
    }
  }

  lemma FrameOne(body: Body, seen: seq<Input>, i: Input)
    ensures Frames(Bodies(body, seen + [i])) == Frames(Bodies(body, seen)) + Frame(body(i))
    ensures ReplyFits(Bodies(body, seen + [i])) <==>
      ReplyFits(Bodies(body, seen)) && |body(i)| < U16 && |Frames(Bodies(body, seen)) + Frame(body(i))| < OUT_SIZE
  {
    var bs := Bodies(body, seen);
    assert Bodies(body, seen + [i]) == bs + [body(i)];
    assert (bs + [body(i)])[|bs|] == body(i);
    assert forall k :: 0 <= k < |bs| ==> (bs + [body(i)])[k] == bs[k];
    BodiesAppend(body, seen, [i]);
    FramesAppend(Bodies(body, seen), [body(i)]);
    assert Bodies(body, [i]) == [body(i)];
    assert Frames([body(i)]) == Frame(body(i));
  }

  /** issued and delivered record, for the statements only, which inputs a
      ticket stands for and which bytes its getter received. */
  datatype Sys = Sys(server: Server, toClient: seq<Message>, fromClient: seq<seq<byte>>,
                     issued: map<nat, seq<Input>>, delivered: map<nat, seq<byte>>)

  const INIT: Sys := Sys(Server(0, [], Idle, [], [], false, map[], false, None), [], [], map[], map[])

  datatype Label =
    | Issue(ins: seq<Input>, priority: bool)
    | PopBatch
    | CommitSend
    | EndSending
    | GiveUpWaiting
    | ClientRuns(stale: seq<byte>)
    | ReceiveReply
    | Deliver(ticket: nat)
    | LoseClient

  predicate Enabled(cfg: Config, body: Body, s: Sys, l: Label) {
    match l
    case Issue(ins, _) => AllPackable(cfg.sh, ins) && CanSchedule(PackAll(cfg.sh, ins))
    case PopBatch => CanPop(s.server, cfg.singleStep)
    case CommitSend => !s.server.dead && s.server.sending.Busy?
    case EndSending => CanStop(s.server, cfg.singleStep)
    case GiveUpWaiting => CanTimeOut(s.server)
    case ClientRuns(stale) => s.toClient != [] && ClientReply(cfg, body, s.toClient[0], stale).Some?
    case ReceiveReply => s.fromClient != [] && CanReceive(s.server, s.fromClient[0])
    case Deliver(t) => CanGet(s.server, t)
    case LoseClient => !s.server.dead
  }

  function Step(cfg: Config, body: Body, s: Sys, l: Label): Sys
    requires Enabled(cfg, body, s, l)
  {
    match l
    case Issue(ins, priority) =>
      s.(server := Schedule(s.server, |ins|, PackAll(cfg.sh, ins), priority),
         issued := s.issued[s.server.nextTicket := ins])
    case PopBatch => s.(server := Pop(s.server, cfg.big))
    case CommitSend => s.(server := Commit(s.server), toClient := s.toClient + [s.server.sending.msg])
    case EndSending => s.(server := StopSending(s.server))
    case GiveUpWaiting => s.(server := TimeOut(s.server))
    case ClientRuns(stale) =>
      s.(toClient := s.toClient[1..],
         fromClient := s.fromClient + [ClientReply(cfg, body, s.toClient[0], stale).value])
    case ReceiveReply => s.(server := Receive(s.server, s.fromClient[0]), fromClient := s.fromClient[1..])
    case Deliver(t) =>
      s.(server := Get(s.server, t),
         delivered := if t in s.server.results then s.delivered[t := s.server.results[t]] else s.delivered)
    case LoseClient => s.(server := Die(s.server))
  }

  /** trace is a run of the system along labels. */
  ghost predicate IsRun(cfg: Config, body: Body, trace: seq<Sys>, labels: seq<Label>) {
    && |trace| == |labels| + 1
    && trace[0] == INIT
    && forall k :: 0 <= k < |labels| ==>
         Enabled(cfg, body, trace[k], labels[k]) && trace[k + 1] == Step(cfg, body, trace[k], labels[k])
  }

  // ---------------------------------------------------------------------
  // The invariant
  // ---------------------------------------------------------------------

  ghost predicate BatchOk(issued: map<nat, seq<Input>>, b: seq<Share>) {
    forall k :: 0 <= k < |b| ==> b[k].ticket in issued && b[k].n == |issued[b[k].ticket]|
  }

  /** The inputs of a batch, ticket after ticket. */
  ghost function BatchInputs(issued: map<nat, seq<Input>>, b: seq<Share>): seq<Input>
    requires BatchOk(issued, b)
  {
    if b == [] then [] else issued[b[0].ticket] + BatchInputs(issued, b[1..])
  }

  ghost predicate EntryOk(cfg: Config, issued: map<nat, seq<Input>>, e: Entry) {
    && e.ticket in issued && AllPackable(cfg.sh, issued[e.ticket])
    && e.n == |issued[e.ticket]| && e.packed == PackAll(cfg.sh, issued[e.ticket])
  }

  ghost predicate IssuedOk(cfg: Config, s: Sys) {
    && (forall t: nat :: t in s.issued <==> t < s.server.nextTicket)
    && (forall t :: t in s.issued ==> AllPackable(cfg.sh, s.issued[t]))
  }

  ghost predicate QueueOk(cfg: Config, s: Sys) {
    forall k :: 0 <= k < |s.server.queue| ==> EntryOk(cfg, s.issued, s.server.queue[k])
  }

  /** The message carries the inputs of the batch and respects the limit. */
  ghost predicate MessageOk(cfg: Config, issued: map<nat, seq<Input>>, b: seq<Share>, m: Message) {
    && BatchOk(issued, b)
    && var ins := BatchInputs(issued, b);
       AllPackable(cfg.sh, ins) && m.n == |ins| <= cfg.big && m.packed == PackAll(cfg.sh, ins)
  }

  ghost predicate ReplyOk(cfg: Config, body: Body, issued: map<nat, seq<Input>>, b: seq<Share>, data: seq<byte>) {
    && BatchOk(issued, b)
    && AllPackable(cfg.sh, BatchInputs(issued, b))
    && ReplyFits(Bodies(body, BatchInputs(issued, b)))
    && data == Frames(Bodies(body, BatchInputs(issued, b)))
  }

  /** Batches in flight line up with the replies on their way, then with the
      messages the client has not taken yet. */
  ghost predicate WireOk(cfg: Config, body: Body, s: Sys) {
    var f := |s.fromClient|;
    && |s.server.inFlight| == |s.server.inFlightBytes| == f + |s.toClient|
    && (forall k :: 0 <= k < f ==> ReplyOk(cfg, body, s.issued, s.server.inFlight[k], s.fromClient[k]))
    && (forall k :: f <= k < |s.server.inFlight| ==> MessageOk(cfg, s.issued, s.server.inFlight[k], s.toClient[k - f]))
    && (s.server.sending.Busy? ==> MessageOk(cfg, s.issued, s.server.sending.batch, s.server.sending.msg))
  }

  /** Collected bytes are the bodies of the ticket's own inputs, in order. */
  ghost predicate BytesOk(body: Body, issued: map<nat, seq<Input>>, m: map<nat, seq<byte>>) {
    forall t :: t in m ==> t in issued && m[t] == Concat(Bodies(body, issued[t])) && ReplyFits(Bodies(body, issued[t]))
  }

  ghost function QueueTickets(q: seq<Entry>): seq<nat> {
    BatchTickets(Shares(q))
  }

  ghost function FlightTickets(bs: seq<seq<Share>>): seq<nat> {
    if bs == [] then [] else BatchTickets(bs[0]) + FlightTickets(bs[1..])
  }

  ghost function SendingTickets(x: Sending): seq<nat> {
    if x.Idle? then [] else BatchTickets(x.batch)
  }

  /** Every place a ticket can be in, with multiplicity. */
  ghost function Located(s: Sys): multiset<nat> {
    multiset(QueueTickets(s.server.queue)) + multiset(SendingTickets(s.server.sending))
    + multiset(FlightTickets(s.server.inFlight))
    + multiset(s.server.results.Keys) + multiset(s.delivered.Keys)
  }

  /** Each issued ticket is in exactly one place. */
  ghost predicate Conserved(s: Sys) {
    Located(s) == multiset(s.issued.Keys)
  }

  ghost predicate Inv(cfg: Config, body: Body, s: Sys) {
    && IssuedOk(cfg, s) && QueueOk(cfg, s) && WireOk(cfg, body, s)
    && BytesOk(body, s.issued, s.server.results) && BytesOk(body, s.issued, s.delivered)
    && Conserved(s)
  }

  // ---------------------------------------------------------------------
  // Framing and unframing
  // ---------------------------------------------------------------------

  lemma {:induction false} FramesAppend(a: seq<seq<byte>>, b: seq<seq<byte>>)
    ensures Frames(a + b) == Frames(a) + Frames(b)
  {
    if a == [] {
      assert a + b == b;
    } else {
      assert (a + b)[1..] == a[1..] + b;
      FramesAppend(a[1..], b);
    }
  }

  lemma BodiesAppend(body: Body, a: seq<Input>, b: seq<Input>)
    ensures Bodies(body, a + b) == Bodies(body, a) + Bodies(body, b)
  {
  }

  lemma Reassociate(a: seq<byte>, b: seq<byte>, c: seq<byte>, d: seq<byte>, e: seq<byte>)
    ensures a + (b + c + d) + e == a + b + c + (d + e)
  {
  }

  lemma FrameSlices(pre: seq<byte>, len: seq<byte>, b: seq<byte>, rest: seq<byte>)
    requires |len| == 2
    ensures var data, at := pre + len + b + rest, |pre|;
      data[at..at + 2] == len && Slice(data, at + 2, at + 2 + |b|) == b
  {
  }

  /** Frames give their bodies back, wherever they start and whatever follows. */
  lemma {:induction false} TakeFramesRoundTrip(pre: seq<byte>, bs: seq<seq<byte>>, post: seq<byte>, acc: seq<byte>)
    requires forall k :: 0 <= k < |bs| ==> |bs[k]| < U16
    ensures TakeFrames(pre + Frames(bs) + post, |pre|, |bs|, acc) == Some((acc + Concat(bs), |pre| + |Frames(bs)|))
    decreases |bs|
  {
    hide LE, FromLE, Slice;
    var data := pre + Frames(bs) + post;
    if bs == [] {
      assert acc + Concat(bs) == acc;
    } else {
      var b, at := bs[0], |pre|;
      var len := LE(2, |b|);
      var rest := Frames(bs[1..]) + post;
      assert data == pre + len + b + rest by { Reassociate(pre, len, b, Frames(bs[1..]), post); }
      FrameSlices(pre, len, b, rest);
      Widths();
      LERoundTrip(2, |b|);
      TakeFramesRoundTrip(pre + len + b, bs[1..], post, acc + b);
      assert pre + len + b + Frames(bs[1..]) + post == pre + len + b + rest;
      assert acc + b + Concat(bs[1..]) == acc + Concat(bs);
    }
  }

  /** Parts of a reply that fits fit. */
  lemma FitsSplit(body: Body, a: seq<Input>, b: seq<Input>)
    requires ReplyFits(Bodies(body, a + b))
    ensures ReplyFits(Bodies(body, a)) && ReplyFits(Bodies(body, b))
  {
    hide ReplyFits;
    BodiesAppend(body, a, b);
    PartsFit(Bodies(body, a), Bodies(body, b));
  }

  lemma FitsLengths(bs: seq<seq<byte>>)
    requires ReplyFits(bs)
    ensures forall k :: 0 <= k < |bs| ==> |bs[k]| < U16
  {
  }

  lemma {:induction false} FramesSize(bs: seq<seq<byte>>)
    ensures |Frames(bs)| == 2 * |bs| + |Concat(bs)|
  {
    hide LE;
    if bs != [] { FramesSize(bs[1..]); }
  }

  /** A reply passes the client's assertions exactly when every body is shorter
      than 65536 bytes and all frames together are shorter than 10 MiB. */
  lemma ReplyFitsIff(bs: seq<seq<byte>>)
    ensures ReplyFits(bs) <==>
      (forall k :: 0 <= k < |bs| ==> |bs[k]| < 65536) && 2 * |bs| + |Concat(bs)| < 10485760
  {
    FramesSize(bs);
  }

  lemma PartsFit(x: seq<seq<byte>>, y: seq<seq<byte>>)
    requires ReplyFits(x + y)
    ensures ReplyFits(x) && ReplyFits(y)
  {
    hide Frames;
    FramesAppend(x, y);
    var all := x + y;
    forall k | 0 <= k < |x| ensures |x[k]| < U16 { assert all[k] == x[k]; }
    forall k | 0 <= k < |y| ensures |y[k]| < U16 { assert all[|x| + k] == y[k]; }
  }

  /** The results map after a batch has been answered. */
  ghost function Answered(body: Body, issued: map<nat, seq<Input>>, b: seq<Share>, results: map<nat, seq<byte>>)
    : (r: map<nat, seq<byte>>)
    requires BatchOk(issued, b)
    ensures forall t :: t in r <==> t in results || t in BatchTickets(b)
    decreases |b|
  {
    if b == [] then results
    else
      assert BatchTickets(b) == [b[0].ticket] + BatchTickets(b[1..]);
      Answered(body, issued, b[1..], results[b[0].ticket := Concat(Bodies(body, issued[b[0].ticket]))])
  }

  lemma {:induction false} AnsweredBytes(body: Body, issued: map<nat, seq<Input>>, b: seq<Share>, results: map<nat, seq<byte>>)
    requires BatchOk(issued, b) && BytesOk(body, issued, results) && ReplyFits(Bodies(body, BatchInputs(issued, b)))
    ensures BytesOk(body, issued, Answered(body, issued, b, results))
    decreases |b|
  {
    hide ReplyFits, Concat;
    if b != [] {
      FitsSplit(body, issued[b[0].ticket], BatchInputs(issued, b[1..]));
      AnsweredBytes(body, issued, b[1..], results[b[0].ticket := Concat(Bodies(body, issued[b[0].ticket]))]);
    }
  }

  /** Splitting the reply of a batch gives every ticket its own bodies. */
  lemma {:induction false} DemuxRoundTrip(body: Body, issued: map<nat, seq<Input>>, pre: seq<byte>, b: seq<Share>, results: map<nat, seq<byte>>)
    requires BatchOk(issued, b) && ReplyFits(Bodies(body, BatchInputs(issued, b)))
    ensures Demux(pre + Frames(Bodies(body, BatchInputs(issued, b))), |pre|, b, results)
      == Some(Answered(body, issued, b, results))
    decreases |b|
  {
    hide TakeFrames, Frames, Concat, ReplyFits;
    if b != [] {
      var mine, others := issued[b[0].ticket], BatchInputs(issued, b[1..]);
      FitsSplit(body, mine, others);
      FitsLengths(Bodies(body, mine));
      var x, y := Frames(Bodies(body, mine)), Frames(Bodies(body, others));
      var data := pre + x + y;
      assert pre + Frames(Bodies(body, mine + others)) == data by {
        BodiesAppend(body, mine, others);
        FramesAppend(Bodies(body, mine), Bodies(body, others));
        assert pre + (x + y) == pre + x + y;
      }
      TakeFramesRoundTrip(pre, Bodies(body, mine), y, []);
      assert [] + Concat(Bodies(body, mine)) == Concat(Bodies(body, mine));
      DemuxRoundTrip(body, issued, pre + x, b[1..], results[b[0].ticket := Concat(Bodies(body, mine))]);
    }
  }

  /** The client answers a well-formed message exactly when the reply passes its
      assertions, and then with the frames of the batch's inputs. */
  lemma ClientAnswers(cfg: Config, body: Body, issued: map<nat, seq<Input>>, b: seq<Share>, m: Message, stale: seq<byte>)
    requires MessageOk(cfg, issued, b, m)
    ensures ClientReply(cfg, body, m, stale).Some? <==> ReplyFits(Bodies(body, BatchInputs(issued, b)))
    ensures ClientReply(cfg, body, m, stale).Some? ==> ReplyOk(cfg, body, issued, b, ClientReply(cfg, body, m, stale).value)
  {
    hide Walk, PackAll, Frames, MaxInputSize, ReplyFits;
    var ins := BatchInputs(issued, b);
    WalkRoundTrip(cfg.sh, ins, stale);
    PackAllFits(cfg.sh, ins);
  }

  // ---------------------------------------------------------------------
  // Merging keeps entries, messages and tickets
  // ---------------------------------------------------------------------

  lemma {:induction false} MergeKeeps(q: seq<Entry>, big: nat)
    ensures forall e :: e in Merge(q, big).taken || e in Merge(q, big).rest ==> e in q
    ensures multiset(q) == multiset(Merge(q, big).taken) + multiset(Merge(q, big).rest)
  {
    if q != [] {
      var k := |q| - 1;
      MergeKeeps(q[..k], big);
      assert q == q[..k] + [q[k]];
    }
  }

  lemma {:induction false} TicketsOfSplit(q: seq<Entry>, big: nat)
    ensures multiset(QueueTickets(q)) == multiset(QueueTickets(Merge(q, big).taken)) + multiset(QueueTickets(Merge(q, big).rest))
  {
    hide QueueTickets;
    if q != [] {
      var k := |q| - 1;
      TicketsOfSplit(q[..k], big);
      var m := Merge(q[..k], big);
      assert q == q[..k] + [q[k]];
      QueueTicketsSnoc(q[..k], q[k]);
      if m.total + q[k].n <= big {
        QueueTicketsSnoc(m.taken, q[k]);
      } else {
        QueueTicketsSnoc(m.rest, q[k]);
      }
    } else {
      NoTickets();
    }
  }

  lemma NoTickets()
    ensures QueueTickets([]) == []
  {
  }

  lemma QueueTicketsSnoc(q: seq<Entry>, e: Entry)
    ensures QueueTickets(q + [e]) == QueueTickets(q) + [e.ticket]
  {
  }

  lemma QueueTicketsCons(q: seq<Entry>, e: Entry)
    ensures QueueTickets([e] + q) == [e.ticket] + QueueTickets(q)
  {
  }

  lemma {:induction false} BatchInputsSnoc(issued: map<nat, seq<Input>>, b: seq<Share>, x: Share)
    requires BatchOk(issued, b) && BatchOk(issued, b + [x])
    ensures x.ticket in issued
    ensures BatchInputs(issued, b + [x]) == BatchInputs(issued, b) + issued[x.ticket]
  {
    assert (b + [x])[|b|] == x;
    if b == [] {
      assert b + [x] == [x];
      assert BatchInputs(issued, [x][1..]) == [];
      assert issued[x.ticket] + [] == [] + issued[x.ticket];
    } else {
      assert (b + [x])[1..] == b[1..] + [x];
      BatchInputsSnoc(issued, b[1..], x);
      assert issued[b[0].ticket] + (BatchInputs(issued, b[1..]) + issued[x.ticket])
        == issued[b[0].ticket] + BatchInputs(issued, b[1..]) + issued[x.ticket];
    }
  }

  /** The merged message carries exactly the inputs of the taken tickets. */
  lemma {:induction false} MergedMessage(cfg: Config, issued: map<nat, seq<Input>>, q: seq<Entry>)
    requires forall k :: 0 <= k < |q| ==> EntryOk(cfg, issued, q[k])
    ensures var m := Merge(q, cfg.big);
      MessageOk(cfg, issued, Shares(m.taken), Message(m.total, Packed(m.taken)))
  {
    hide MessageOk, EntryOk, Shares, Packed;
    if q == [] {
      assert MessageOk(cfg, issued, Shares([]), Message(0, Packed([]))) by { EmptyMessage(cfg, issued); }
    } else {
      var k := |q| - 1;
      MergedMessage(cfg, issued, q[..k]);
      var m := Merge(q[..k], cfg.big);
      var e := q[k];
      assert EntryOk(cfg, issued, e);
      if m.total + e.n <= cfg.big {
        ExtendMessage(cfg, issued, m.taken, m.total, e);
      }
    }
  }

  lemma EmptyMessage(cfg: Config, issued: map<nat, seq<Input>>)
    ensures MessageOk(cfg, issued, Shares([]), Message(0, Packed([])))
  {
  }

  lemma ExtendMessage(cfg: Config, issued: map<nat, seq<Input>>, taken: seq<Entry>, total: nat, e: Entry)
    requires MessageOk(cfg, issued, Shares(taken), Message(total, Packed(taken)))
    requires EntryOk(cfg, issued, e) && total + e.n <= cfg.big
    ensures MessageOk(cfg, issued, Shares(taken + [e]), Message(total + e.n, Packed(taken + [e])))
  {
    hide PackAll, AllPackable;
    var b, x := Shares(taken), Share(e.ticket, e.n);
    assert (taken + [e])[..|taken|] == taken;
    assert Shares(taken + [e]) == b + [x];
    assert Packed(taken + [e]) == Packed(taken) + e.packed;
    BatchInputsSnoc(issued, b, x);
    PackAllAppend(cfg.sh, BatchInputs(issued, b), issued[e.ticket]);
  }

  // ---------------------------------------------------------------------
  // A new ticket disturbs nothing
  // ---------------------------------------------------------------------

  lemma {:induction false} BatchFrame(issued: map<nat, seq<Input>>, t: nat, ins: seq<Input>, b: seq<Share>)
    requires t !in issued && BatchOk(issued, b)
    ensures BatchOk(issued[t := ins], b)
    ensures BatchInputs(issued[t := ins], b) == BatchInputs(issued, b)
  {
    if b != [] {
      BatchFrame(issued, t, ins, b[1..]);
    }
  }

  lemma WireFrame(cfg: Config, body: Body, s: Sys, s': Sys, t: nat, ins: seq<Input>)
    requires WireOk(cfg, body, s) && t !in s.issued && s'.issued == s.issued[t := ins]
    requires s'.toClient == s.toClient && s'.fromClient == s.fromClient
    requires s'.server.inFlight == s.server.inFlight && s'.server.inFlightBytes == s.server.inFlightBytes
    requires s'.server.sending == s.server.sending
    ensures WireOk(cfg, body, s')
  {
    hide PackAll, Frames, AllPackable;
    var f := |s.fromClient|;
    forall k | 0 <= k < f
      ensures ReplyOk(cfg, body, s'.issued, s.server.inFlight[k], s.fromClient[k])
    {
      assert ReplyOk(cfg, body, s.issued, s.server.inFlight[k], s.fromClient[k]);
      BatchFrame(s.issued, t, ins, s.server.inFlight[k]);
    }
    forall k | f <= k < |s.server.inFlight|
      ensures MessageOk(cfg, s'.issued, s.server.inFlight[k], s.toClient[k - f])
    {
      assert MessageOk(cfg, s.issued, s.server.inFlight[k], s.toClient[k - f]);
      BatchFrame(s.issued, t, ins, s.server.inFlight[k]);
    }
    if s.server.sending.Busy? {
      BatchFrame(s.issued, t, ins, s.server.sending.batch);
    }
  }

  // ---------------------------------------------------------------------
  // Every step keeps the invariant
  // ---------------------------------------------------------------------

  lemma IssueKeeps(cfg: Config, body: Body, s: Sys, ins: seq<Input>, priority: bool)
    requires Inv(cfg, body, s) && Enabled(cfg, body, s, Issue(ins, priority))
    ensures Inv(cfg, body, Step(cfg, body, s, Issue(ins, priority)))
  {
    hide PackAll, AllPackable, WireOk, QueueOk, Concat, Bodies, QueueTickets, Conserved, ReplyFits;
    var s' := Step(cfg, body, s, Issue(ins, priority));
    var t := s.server.nextTicket;
    var e := Entry(t, |ins|, PackAll(cfg.sh, ins));
    WireFrame(cfg, body, s, s', t, ins);
    IssueQueue(cfg, s, s', e, ins, priority);
    IssueConserves(s, s', e, ins, priority);
  }

  lemma IssueQueue(cfg: Config, s: Sys, s': Sys, e: Entry, ins: seq<Input>, priority: bool)
    requires QueueOk(cfg, s) && e.ticket !in s.issued && s'.issued == s.issued[e.ticket := ins] && AllPackable(cfg.sh, ins)
    requires e.n == |ins| && e.packed == PackAll(cfg.sh, ins)
    requires s'.server.queue == if priority then [e] + s.server.queue else s.server.queue + [e]
    ensures QueueOk(cfg, s')
  {
    hide PackAll, AllPackable;
    assert EntryOk(cfg, s'.issued, e);
    forall k | 0 <= k < |s'.server.queue|
      ensures EntryOk(cfg, s'.issued, s'.server.queue[k])
    {
      var x := s'.server.queue[k];
      if x != e {
        var j := if priority then k - 1 else k;
        assert x == s.server.queue[j] && EntryOk(cfg, s.issued, s.server.queue[j]);
      }
    }
  }

  /** A new queue entry and its fresh ticket go together. */
  lemma IssueConserves(s: Sys, s': Sys, e: Entry, ins: seq<Input>, priority: bool)
    requires Conserved(s) && e.ticket !in s.issued
    requires s' == s.(server := s'.server, issued := s.issued[e.ticket := ins])
    requires s'.server == s.server.(nextTicket := s'.server.nextTicket,
                                    queue := if priority then [e] + s.server.queue else s.server.queue + [e])
    ensures Conserved(s')
  {
    hide QueueTickets, FlightTickets, SendingTickets;
    var q := QueueTickets(s.server.queue);
    if priority {
      QueueTicketsCons(s.server.queue, e);
      assert multiset(QueueTickets(s'.server.queue)) == multiset(q) + multiset{e.ticket};
    } else {
      QueueTicketsSnoc(s.server.queue, e);
      assert multiset(QueueTickets(s'.server.queue)) == multiset(q) + multiset{e.ticket};
    }
    assert s'.issued.Keys == s.issued.Keys + {e.ticket};
    assert multiset(s'.issued.Keys) == multiset(s.issued.Keys) + multiset{e.ticket};
    Regroup(multiset(q), multiset{e.ticket}, multiset(SendingTickets(s.server.sending)),
            multiset(FlightTickets(s.server.inFlight)), multiset(s.server.results.Keys), multiset(s.delivered.Keys));
  }

  /** A part moves from one place to the next. */
  lemma Regroup(a: multiset<nat>, x: multiset<nat>, b: multiset<nat>, c: multiset<nat>, d: multiset<nat>, e: multiset<nat>)
    ensures (a + x) + b + c + d + e == (a + b + c + d + e) + x
    ensures (a + x) + b + c + d + e == a + (x + b) + c + d + e
    ensures a + (b + x) + c + d + e == a + b + (c + x) + d + e
    ensures a + b + (x + c) + d + e == a + b + c + (x + d) + e
    ensures a + b + c + (d + x) + e == a + b + c + d + (e + x)
  {
  }

  lemma PopKeeps(cfg: Config, body: Body, s: Sys)
    requires Inv(cfg, body, s) && Enabled(cfg, body, s, PopBatch)
    ensures Inv(cfg, body, Step(cfg, body, s, PopBatch))
  {
    hide Merge, MessageOk, ReplyOk, EntryOk, Concat, Bodies, Packed, Shares, BytesOk, Conserved;
    var s' := Step(cfg, body, s, PopBatch);
    MergedMessage(cfg, s.issued, s.server.queue);
    assert QueueOk(cfg, s') by {
      MergeKeeps(s.server.queue, cfg.big);
      forall k | 0 <= k < |s'.server.queue|
        ensures EntryOk(cfg, s.issued, s'.server.queue[k])
      {
        assert s'.server.queue[k] in s.server.queue;
      }
    }
    PopConserves(s, cfg.big);
  }

  lemma PopConserves(s: Sys, big: nat)
    requires Conserved(s) && s.server.sending.Idle?
    ensures Conserved(s.(server := Pop(s.server, big)))
  {
    hide Merge, FlightTickets, QueueTickets;
    TicketsOfSplit(s.server.queue, big);
    var m := Merge(s.server.queue, big);
    assert SendingTickets(Pop(s.server, big).sending) == QueueTickets(m.taken) by { SentAre(s.server, big); }
    Regroup(multiset(QueueTickets(m.rest)), multiset(QueueTickets(m.taken)), multiset{},
            multiset(FlightTickets(s.server.inFlight)), multiset(s.server.results.Keys), multiset(s.delivered.Keys));
  }

  lemma SentAre(v: Server, big: nat)
    requires v.sending.Idle?
    ensures SendingTickets(Pop(v, big).sending) == QueueTickets(Merge(v.queue, big).taken)
  {
    hide Merge;
  }

  lemma {:induction false} FlightTicketsSnoc(bs: seq<seq<Share>>, b: seq<Share>)
    ensures FlightTickets(bs + [b]) == FlightTickets(bs) + BatchTickets(b)
  {
    if bs == [] {
      assert bs + [b] == [b];
    } else {
      assert (bs + [b])[1..] == bs[1..] + [b];
      FlightTicketsSnoc(bs[1..], b);
      assert BatchTickets(bs[0]) + (FlightTickets(bs[1..]) + BatchTickets(b))
        == BatchTickets(bs[0]) + FlightTickets(bs[1..]) + BatchTickets(b);
    }
  }

  lemma CommitKeeps(cfg: Config, body: Body, s: Sys)
    requires Inv(cfg, body, s) && Enabled(cfg, body, s, CommitSend)
    ensures Inv(cfg, body, Step(cfg, body, s, CommitSend))
  {
    hide MessageOk, ReplyOk, EntryOk, Concat, Bodies, BytesOk, Conserved;
    CommitConserves(s);
  }

  lemma CommitConserves(s: Sys)
    requires Conserved(s) && s.server.sending.Busy?
    ensures Conserved(Sys(Commit(s.server), s.toClient + [s.server.sending.msg], s.fromClient, s.issued, s.delivered))
  {
    hide QueueTickets, FlightTickets, BatchTickets;
    var b := s.server.sending.batch;
    FlightTicketsSnoc(s.server.inFlight, b);
    assert multiset(FlightTickets(s.server.inFlight + [b])) == multiset(FlightTickets(s.server.inFlight)) + multiset(BatchTickets(b));
    Regroup(multiset(QueueTickets(s.server.queue)), multiset(BatchTickets(b)), multiset{},
            multiset(FlightTickets(s.server.inFlight)), multiset(s.server.results.Keys), multiset(s.delivered.Keys));
  }

  lemma ClientKeeps(cfg: Config, body: Body, s: Sys, stale: seq<byte>)
    requires Inv(cfg, body, s) && Enabled(cfg, body, s, ClientRuns(stale))
    ensures Inv(cfg, body, Step(cfg, body, s, ClientRuns(stale)))
  {
    hide BytesOk, QueueTickets, FlightTickets, SendingTickets, ClientReply, IssuedOk, QueueOk, WireOk;
    var s' := Step(cfg, body, s, ClientRuns(stale));
    assert IssuedOk(cfg, s') && QueueOk(cfg, s') by { Unmoved(cfg, s, s'); }
    ClientWire(cfg, body, s, stale);
  }

  lemma ClientWire(cfg: Config, body: Body, s: Sys, stale: seq<byte>)
    requires WireOk(cfg, body, s) && Enabled(cfg, body, s, ClientRuns(stale))
    ensures WireOk(cfg, body, Step(cfg, body, s, ClientRuns(stale)))
  {
    hide MessageOk, ReplyOk, ClientReply;
    var f := |s.fromClient|;
    var s' := Step(cfg, body, s, ClientRuns(stale));
    assert MessageOk(cfg, s.issued, s.server.inFlight[f], s.toClient[f - f]);
    ClientAnswers(cfg, body, s.issued, s.server.inFlight[f], s.toClient[0], stale);
    assert forall k :: 0 <= k < f ==> s'.fromClient[k] == s.fromClient[k];
    assert s'.fromClient[f] == ClientReply(cfg, body, s.toClient[0], stale).value;
    forall k | f + 1 <= k < |s.server.inFlight|
      ensures MessageOk(cfg, s.issued, s.server.inFlight[k], s'.toClient[k - (f + 1)])
    {
      assert s'.toClient[k - (f + 1)] == s.toClient[k - f];
    }
  }

  lemma AddKeys(results: map<nat, seq<byte>>, b: seq<nat>, r: map<nat, seq<byte>>, all: set<nat>, others: multiset<nat>)
    requires others + multiset(b) + multiset(results.Keys) == multiset(all)
    requires forall t :: t in r <==> t in results || t in b
    ensures multiset(r.Keys) == multiset(b) + multiset(results.Keys)
  {
    forall t
      ensures multiset(r.Keys)[t] == multiset(b)[t] + multiset(results.Keys)[t]
    {
      assert (others + multiset(b) + multiset(results.Keys))[t] <= 1;
      assert t in r.Keys <==> t in results.Keys || t in b;
      assert t in b <==> multiset(b)[t] > 0;
    }
  }

  lemma ReceiveKeeps(cfg: Config, body: Body, s: Sys)
    requires Inv(cfg, body, s) && Enabled(cfg, body, s, ReceiveReply)
    ensures Inv(cfg, body, Step(cfg, body, s, ReceiveReply))
  {
    hide PackAll, AllPackable, Frames, BytesOk, Demux, IssuedOk, QueueOk, MessageOk, Conserved;
    var b := s.server.inFlight[0];
    var s' := Step(cfg, body, s, ReceiveReply);
    assert IssuedOk(cfg, s') && QueueOk(cfg, s') by { Unmoved(cfg, s, s'); }
    assert ReplyOk(cfg, body, s.issued, b, s.fromClient[0]);
    DemuxRoundTrip(body, s.issued, [], b, s.server.results);
    assert [] + s.fromClient[0] == s.fromClient[0];
    AnsweredBytes(body, s.issued, b, s.server.results);
    ReceiveConserves(s, Step(cfg, body, s, ReceiveReply));
  }

  lemma ReceiveConserves(s: Sys, s': Sys)
    requires Conserved(s) && s.server.inFlight != [] && s'.issued == s.issued && s'.delivered == s.delivered
    requires s'.server == s.server.(inFlight := s.server.inFlight[1..], inFlightBytes := s'.server.inFlightBytes,
                                    receiving := s'.server.receiving, results := s'.server.results)
    requires forall t :: t in s'.server.results <==> t in s.server.results || t in BatchTickets(s.server.inFlight[0])
    ensures Conserved(s')
  {
    hide QueueTickets, SendingTickets, BatchTickets;
    var b, f := s.server.inFlight[0], s.server.inFlight[1..];
    var mq, ms := multiset(QueueTickets(s.server.queue)), multiset(SendingTickets(s.server.sending));
    var mb, mf := multiset(BatchTickets(b)), multiset(FlightTickets(f));
    var mr, md := multiset(s.server.results.Keys), multiset(s.delivered.Keys);
    assert multiset(FlightTickets(s.server.inFlight)) == mb + mf;
    Regroup(mq, mb, ms, mf, mr, md);
    assert (mq + ms + mf + md) + mb + mr == mq + ms + (mb + mf) + mr + md;
    AddKeys(s.server.results, BatchTickets(b), s'.server.results, s.issued.Keys, mq + ms + mf + md);
  }

  lemma DeliverKeeps(cfg: Config, body: Body, s: Sys, t: nat)
    requires Inv(cfg, body, s) && Enabled(cfg, body, s, Deliver(t))
    ensures Inv(cfg, body, Step(cfg, body, s, Deliver(t)))
  {
    hide PackAll, AllPackable, Bodies, Concat, EntryOk, MessageOk, ReplyOk, Conserved;
    if t in s.server.results {
      DeliverConserves(s, t);
    } else {
      assert s.server.results - {t} == s.server.results;
    }
  }

  lemma DeliverConserves(s: Sys, t: nat)
    requires Conserved(s) && t in s.server.results
    ensures Conserved(s.(server := Get(s.server, t), delivered := s.delivered[t := s.server.results[t]]))
  {
    hide QueueTickets, FlightTickets, SendingTickets;
    var r, d := s.server.results, s.delivered;
    assert t !in d by {
      assert Located(s)[t] == multiset(s.issued.Keys)[t] <= 1;
    }
    assert d[t := r[t]].Keys == d.Keys + {t};
    assert (r - {t}).Keys == r.Keys - {t};
    assert multiset(r.Keys) == multiset((r - {t}).Keys) + multiset{t};
    assert multiset(d[t := r[t]].Keys) == multiset(d.Keys) + multiset{t};
    Regroup(multiset(QueueTickets(s.server.queue)), multiset{t}, multiset(SendingTickets(s.server.sending)),
            multiset(FlightTickets(s.server.inFlight)), multiset((r - {t}).Keys), multiset(d.Keys));
  }

  lemma StepKeeps(cfg: Config, body: Body, s: Sys, l: Label)
    requires Inv(cfg, body, s) && Enabled(cfg, body, s, l)
    ensures Inv(cfg, body, Step(cfg, body, s, l))
  {
    hide Inv, Enabled, Step;
    match l
    case Issue(ins, priority) => IssueKeeps(cfg, body, s, ins, priority);
    case PopBatch => PopKeeps(cfg, body, s);
    case CommitSend => CommitKeeps(cfg, body, s);
    case ClientRuns(stale) => ClientKeeps(cfg, body, s, stale);
    case ReceiveReply => ReceiveKeeps(cfg, body, s);
    case Deliver(t) => DeliverKeeps(cfg, body, s, t);
    case LoseClient => PhaseKeeps(cfg, body, s, l);
    case EndSending => PhaseKeeps(cfg, body, s, l);
    case GiveUpWaiting => PhaseKeeps(cfg, body, s, l);
  }

  /** Steps that only change where the process is. */
  lemma PhaseKeeps(cfg: Config, body: Body, s: Sys, l: Label)
    requires Inv(cfg, body, s) && Enabled(cfg, body, s, l) && (l.LoseClient? || l.EndSending? || l.GiveUpWaiting?)
    ensures Inv(cfg, body, Step(cfg, body, s, l))
  {
    hide IssuedOk, QueueOk, BytesOk, ReplyOk, MessageOk, FlightTickets, QueueTickets, SendingTickets, Concat, Bodies;
    var s' := Step(cfg, body, s, l);
    assert IssuedOk(cfg, s') && QueueOk(cfg, s') by { Unmoved(cfg, s, s'); }
  }

  /** The queue and the issued tickets are untouched. */
  lemma Unmoved(cfg: Config, s: Sys, s': Sys)
    requires s'.issued == s.issued && s'.server.queue == s.server.queue && s'.server.nextTicket == s.server.nextTicket
    ensures IssuedOk(cfg, s) ==> IssuedOk(cfg, s')
    ensures QueueOk(cfg, s) ==> QueueOk(cfg, s')
  {
    hide EntryOk, AllPackable;
  }

  /** Safety over whole runs. */
  lemma {:induction false} RunKeeps(cfg: Config, body: Body, trace: seq<Sys>, labels: seq<Label>, k: nat)
    requires IsRun(cfg, body, trace, labels) && k < |trace|
    ensures Inv(cfg, body, trace[k])
  {
    hide Inv, Enabled, Step;
    if k == 0 {
      InitHolds(cfg, body);
    } else {
      RunKeeps(cfg, body, trace, labels, k - 1);
      assert Enabled(cfg, body, trace[k - 1], labels[k - 1]);
      StepKeeps(cfg, body, trace[k - 1], labels[k - 1]);
    }
  }

  lemma InitHolds(cfg: Config, body: Body)
    ensures Inv(cfg, body, INIT)
  {
    assert QueueTickets([]) == [];
  }
}
