/** Progress of the batching protocol: bounds on its work, and how each ticket gets its answer. */
module Progress {
  import opened Bytes
  import opened InputCodec
  import opened Batching
  import opened Protocol
  import opened Transparency
  import ResultCodec
  import ResultRoundTrip

  // ---------------------------------------------------------------------
  // Builds whose client never aborts
  // ---------------------------------------------------------------------

  /** No body is larger than maxBody, and a full batch of such bodies stays
      below the output buffer. */
  ghost predicate NeverAborts(cfg: Config, body: Body, maxBody: nat) {
    && maxBody < U16 && cfg.big * (2 + maxBody) < OUT_SIZE
    && forall i: Input :: Packable(cfg.sh, i) ==> |body(i)| <= maxBody
  }

  lemma {:induction false} FramesBound(bs: seq<seq<byte>>, maxBody: nat)
    requires forall k :: 0 <= k < |bs| ==> |bs[k]| <= maxBody
    ensures |Frames(bs)| <= |bs| * (2 + maxBody)
  {
    hide LE;
    if bs != [] {
      FramesBound(bs[1..], maxBody);
      OneMore(|bs| - 1, 2 + maxBody);
    }
  }

  lemma OneMore(a: nat, c: nat)
    ensures (a + 1) * c == a * c + c
  {
  }

  lemma Scale(a: nat, b: nat, c: nat)
    requires a <= b
    ensures a * c <= b * c
  {
  }

  lemma EveryReplyFits(cfg: Config, body: Body, maxBody: nat, ins: seq<Input>)
    requires NeverAborts(cfg, body, maxBody) && AllPackable(cfg.sh, ins) && |ins| <= cfg.big
    ensures ReplyFits(Bodies(body, ins))
  {
    hide Frames, Packable, Bodies;
    var bs := Bodies(body, ins);
    forall k | 0 <= k < |bs|
      ensures |bs[k]| <= maxBody
    {
      assert Packable(cfg.sh, ins[k]) && bs[k] == body(ins[k]);
    }
    FramesBound(bs, maxBody);
    Scale(|ins|, cfg.big, 2 + maxBody);
  }

  /** A condition on the build: with at most m prefixes per input, where m is
      at most 15, a limit of cfg.big inputs keeps every reply within bounds. */
  lemma BuildNeverAborts(f: ResultCodec.Flags, cfg: Config, machine: Machine, m: nat)
    requires ResultCodec.Buildable(f) && MachineOk(f, machine) && m <= 15
    requires cfg.big * (4 + 4347 * m) < OUT_SIZE
    requires forall i: Input :: ResultRoundTrip.Prefixes(machine(i).1) <= m && FewChanges(machine(i).1)
    ensures NeverAborts(cfg, BodyOf(f, machine), 2 + 4347 * m)
  {
    hide ResultCodec.ClientSlots, ResultCodec.EncBody, ResultCodec.ReplyInRange, ResultRoundTrip.Prefixes;
    forall i: Input | Packable(cfg.sh, i)
      ensures |BodyOf(f, machine)(i)| <= 2 + 4347 * m
    {
      ResultRoundTrip.FrameFits(f, machine(i).0, machine(i).1);
      assert 4347 * ResultRoundTrip.Prefixes(machine(i).1) <= 4347 * m;
    }
  }

  /** No outcome lists more memory changes than the scan records. */
  predicate FewChanges(p: ResultCodec.Reply) {
    match p
    case Single(r) => |r.mem| <= 100
    case Multi(rs) => forall i :: 0 <= i < |rs| ==> |rs[i].mem| <= 100
  }

  // ---------------------------------------------------------------------
  // When the client aborts
  // ---------------------------------------------------------------------

  /** The client has a message and cannot answer it. */
  ghost predicate Aborts(cfg: Config, body: Body, s: Sys) {
    s.toClient != [] && forall stale :: ClientReply(cfg, body, s.toClient[0], stale).None?
  }

  /** The client aborts on its next message exactly when the reply to that
      batch breaks one of its assertions. */
  lemma AbortsIff(cfg: Config, body: Body, trace: seq<Sys>, labels: seq<Label>, k: nat)
    requires IsRun(cfg, body, trace, labels) && k < |trace| && trace[k].toClient != []
    ensures var s := trace[k];
      && |s.fromClient| < |s.server.inFlight| && BatchOk(s.issued, s.server.inFlight[|s.fromClient|])
      && (Aborts(cfg, body, s) <==> !ReplyFits(Bodies(body, BatchInputs(s.issued, s.server.inFlight[|s.fromClient|]))))
  {
    hide IsRun, ReplyOk, BytesOk, QueueOk, IssuedOk, ClientReply, Conserved, PackAll, ReplyFits, AllPackable;
    RunKeeps(cfg, body, trace, labels, k);
    var s := trace[k];
    var f := |s.fromClient|;
    assert MessageOk(cfg, s.issued, s.server.inFlight[f], s.toClient[f - f]);
    forall stale: seq<byte>
      ensures ClientReply(cfg, body, s.toClient[0], stale).Some? <==> ReplyFits(Bodies(body, BatchInputs(s.issued, s.server.inFlight[f])))
    {
      ClientAnswers(cfg, body, s.issued, s.server.inFlight[f], s.toClient[0], stale);
    }
    assert ClientReply(cfg, body, s.toClient[0], []).Some? <==> ReplyFits(Bodies(body, BatchInputs(s.issued, s.server.inFlight[f])));
  }

  // ---------------------------------------------------------------------
  // Bounded work
  // ---------------------------------------------------------------------

  /** Merge, send, run and split: what is done for the batches, empty ones included. */
  predicate Internal(l: Label) {
    l.PopBatch? || l.CommitSend? || l.ClientRuns? || l.ReceiveReply?
  }

  /** With nothing sent or in flight, an unanswered ticket is in the queue. */
  lemma SomewhereWaiting(s: Sys, t: nat)
    requires Conserved(s) && s.server.sending.Idle? && s.server.inFlight == []
    requires t in s.issued && t !in s.server.results && t !in s.delivered
    ensures s.server.queue != []
  {
    assert multiset(s.issued.Keys)[t] == 1;
    assert Located(s)[t] == multiset(QueueTickets(s.server.queue))[t];
    assert t in QueueTickets(s.server.queue);
  }

  /** How many of the labels satisfy p. */
  function CountOf(labels: seq<Label>, p: Label -> bool): nat {
    if labels == [] then 0
    else CountOf(labels[..|labels| - 1], p) + Count(p(labels[|labels| - 1]))
  }

  lemma CountStep(labels: seq<Label>, p: Label -> bool, i: nat, j: nat)
    requires i < j <= |labels|
    ensures CountOf(labels[i..j], p) == CountOf(labels[i..j - 1], p) + Count(p(labels[j - 1]))
  {
    assert labels[i..j][..j - 1 - i] == labels[i..j - 1];
  }

  lemma CountNone(labels: seq<Label>, p: Label -> bool, i: nat)
    requires i <= |labels|
    ensures CountOf(labels[i..i], p) == 0
  {
    assert labels[i..i] == [];
  }

  /** Steps still owed to what is queued, being sent, at the client or on its way back. */
  function Work(s: Sys): nat {
    4 * |s.server.queue| + (if s.server.sending.Busy? then 3 else 0) + 2 * |s.toClient| + |s.fromClient|
  }

  ghost predicate AllFit(q: seq<Entry>, big: nat) {
    forall k :: 0 <= k < |q| ==> q[k].n <= big
  }

  lemma PopTakesHead(q: seq<Entry>, big: nat)
    requires q != [] && AllFit(q, big)
    ensures |Merge(q, big).rest| < |q|
    ensures AllFit(Merge(q, big).rest, big)
  {
    hide Merge, Picked;
    MergeMoves(q, big, 0);
    assert |Merge(q, big).taken| > 0;
    MergeKeeps(q, big);
    forall k | 0 <= k < |Merge(q, big).rest|
      ensures Merge(q, big).rest[k].n <= big
    {
      assert Merge(q, big).rest[k] in q;
    }
  }

  /** With entries that fit, every internal step uses up work, and only new
      tickets bring more. */
  lemma StepWorks(cfg: Config, body: Body, s: Sys, l: Label)
    requires Enabled(cfg, body, s, l) && !l.Issue? && AllFit(s.server.queue, cfg.big)
    ensures Work(Step(cfg, body, s, l)) + Count(Internal(l)) <= Work(s)
    ensures AllFit(Step(cfg, body, s, l).server.queue, cfg.big)
  {
    hide ClientReply, Demux, Merge, CanSchedule, PackAll, AllPackable, Sum, AllFit;
    if l.PopBatch? {
      PopTakesHead(s.server.queue, cfg.big);
    }
  }

  /** Between any two points of a run without new tickets, the number of
      internal steps is bounded by the work at the first. */
  lemma {:induction false} BoundedWork(cfg: Config, body: Body, trace: seq<Sys>, labels: seq<Label>, i: nat, j: nat)
    requires IsRun(cfg, body, trace, labels) && i <= j <= |labels|
    requires AllFit(trace[i].server.queue, cfg.big) && forall x :: i <= x < j ==> !labels[x].Issue?
    ensures CountOf(labels[i..j], Internal) + Work(trace[j]) <= Work(trace[i])
    ensures AllFit(trace[j].server.queue, cfg.big)
    decreases j
  {
    hide Enabled, Step, Work, AllFit, CountOf, Internal;
    if i < j {
      BoundedWork(cfg, body, trace, labels, i, j - 1);
      assert Enabled(cfg, body, trace[j - 1], labels[j - 1]);
      StepWorks(cfg, body, trace[j - 1], labels[j - 1]);
      CountStep(labels, Internal, i, j);
    } else {
      CountNone(labels, Internal, i);
    }
  }

  /** So once everything queued fits and nothing new is scheduled, a run of that
      many internal steps has answered every ticket. */
  lemma QueueDrains(cfg: Config, body: Body, trace: seq<Sys>, labels: seq<Label>, i: nat, j: nat, t: nat)
    requires IsRun(cfg, body, trace, labels) && i <= j <= |labels|
    requires AllFit(trace[i].server.queue, cfg.big) && forall x :: i <= x < j ==> !labels[x].Issue?
    requires CountOf(labels[i..j], Internal) >= Work(trace[i]) && t in trace[j].issued
    ensures t in trace[j].server.results || t in trace[j].delivered
  {
    hide AllFit, Enabled, Step;
    BoundedWork(cfg, body, trace, labels, i, j);
    RunKeeps(cfg, body, trace, labels, j);
    NothingLeft(cfg, body, trace[j], t);
  }

  lemma NothingLeft(cfg: Config, body: Body, s: Sys, t: nat)
    requires Inv(cfg, body, s) && Work(s) == 0 && t in s.issued
    ensures t in s.server.results || t in s.delivered
  {
    hide ReplyOk, MessageOk, BytesOk, QueueOk, IssuedOk;
    if t !in s.server.results && t !in s.delivered {
      SomewhereWaiting(s, t);
    }
  }

  // ---------------------------------------------------------------------
  // Every ticket within the limit is answered
  // ---------------------------------------------------------------------

  ghost predicate HasAnswer(s: Sys, t: nat) {
    t in s.server.results || t in s.delivered
  }

  /** t is at position p of the queue. */
  predicate QueuedAt(s: Sys, t: nat, p: nat) {
    p < |s.server.queue| && s.server.queue[p].ticket == t
  }

  /** t is in batch d of those in flight. */
  predicate FlyingAt(s: Sys, t: nat, d: nat) {
    d < |s.server.inFlight| && t in BatchTickets(s.server.inFlight[d])
  }

  /** The step queues an entry with priority. */
  predicate Jumps(l: Label) {
    l.Issue? && l.priority
  }

  /** A priority entry pushes a queued ticket back by one, a merge takes it or
      moves it up, and every other step leaves it where it is. */
  lemma QueueStep(cfg: Config, body: Body, s: Sys, l: Label, t: nat, p: nat)
    requires QueueOk(cfg, s) && Enabled(cfg, body, s, l) && QueuedAt(s, t, p)
    requires t in s.issued && |s.issued[t]| <= cfg.big
    ensures var s' := Step(cfg, body, s, l);
      if l.PopBatch? then BeingSent(s', t) || exists q: nat :: q < p && QueuedAt(s', t, q)
      else QueuedAt(s', t, if Jumps(l) then p + 1 else p)
  {
    hide ClientReply, Demux, Merge, CanSchedule, PackAll, AllPackable, Sum, Picked, Packed, Shares;
    var s' := Step(cfg, body, s, l);
    if l.PopBatch? {
      var q := s.server.queue;
      assert EntryOk(cfg, s.issued, q[p]);
      FittingMoves(q, cfg.big, p);
      if Picked(q, cfg.big, p) {
        MergeKeepsEntry(q, cfg.big, p);
        SentTicket(Merge(q, cfg.big).taken, q[p]);
      } else {
        assert QueuedAt(s', t, Moved(q, cfg.big, p));
      }
    }
  }

  lemma SentTicket(taken: seq<Entry>, e: Entry)
    requires e in taken
    ensures e.ticket in BatchTickets(Shares(taken))
  {
    var j :| 0 <= j < |taken| && taken[j] == e;
    assert BatchTickets(Shares(taken))[j] == e.ticket;
  }

  /** The queue after a merge holds tickets of the queue before it; so does the batch. */
  lemma MergedTickets(s: Sys, cfg: Config, t: nat)
    requires !InQueue(s, t)
    ensures t !in QueueTickets(Merge(s.server.queue, cfg.big).rest)
    ensures t !in BatchTickets(Shares(Merge(s.server.queue, cfg.big).taken))
  {
    hide Merge, Shares, BatchTickets;
    var q, m := s.server.queue, Merge(s.server.queue, cfg.big);
    TicketsOfSplit(q, cfg.big);
    var a: multiset<nat>, b: multiset<nat>, c: multiset<nat> := multiset(QueueTickets(q)), multiset(QueueTickets(m.taken)), multiset(QueueTickets(m.rest));
    assert a == b + c;
    assert a[t] == 0 && b[t] == 0 && c[t] == 0;
  }

  /** A ticket that has left the queue does not come back, and one that is not
      being sent either never is again. */
  lemma NoReturn(cfg: Config, body: Body, s: Sys, l: Label, t: nat)
    requires IssuedOk(cfg, s) && Enabled(cfg, body, s, l) && t in s.issued && !InQueue(s, t)
    ensures !InQueue(Step(cfg, body, s, l), t)
    ensures !BeingSent(s, t) || l.CommitSend? ==> !BeingSent(Step(cfg, body, s, l), t)
  {
    hide ClientReply, Demux, Merge, CanSchedule, PackAll, AllPackable, Sum, Packed, Shares, QueueTickets, BatchTickets;
    match l
    case Issue(ins, priority) =>
      var e := Entry(s.server.nextTicket, |ins|, PackAll(cfg.sh, ins));
      QueueTicketsSnoc(s.server.queue, e);
      QueueTicketsCons(s.server.queue, e);
    case PopBatch => MergedTickets(s, cfg, t);
    case _ =>
  }

  /** Once past the sender, a ticket moves towards the front with every reply. */
  lemma FlightStep(cfg: Config, body: Body, s: Sys, l: Label, t: nat, d: nat)
    requires Inv(cfg, body, s) && Enabled(cfg, body, s, l) && FlyingAt(s, t, d)
    ensures var s' := Step(cfg, body, s, l);
      if l.ReceiveReply? then (if d == 0 then t in s'.server.results else FlyingAt(s', t, d - 1)) else FlyingAt(s', t, d)
  {
    hide ClientReply, Demux, Merge, CanSchedule, PackAll, AllPackable, Sum, BatchTickets, Conserved, BytesOk, QueueOk, MessageOk, ReplyFits, Frames;
    if l.ReceiveReply? && d == 0 {
      var b := s.server.inFlight[0];
      assert ReplyOk(cfg, body, s.issued, b, s.fromClient[0]);
      DemuxRoundTrip(body, s.issued, [], b, s.server.results);
      assert [] + s.fromClient[0] == s.fromClient[0];
    }
  }

  /** Answered tickets stay answered. */
  lemma AnsweredStays(cfg: Config, body: Body, s: Sys, l: Label, t: nat)
    requires Inv(cfg, body, s) && Enabled(cfg, body, s, l) && HasAnswer(s, t)
    ensures HasAnswer(Step(cfg, body, s, l), t)
  {
    hide ClientReply, Demux, Merge, CanSchedule, PackAll, AllPackable, Sum, BatchTickets, Conserved, BytesOk, QueueOk, MessageOk, ReplyFits, Frames;
    if l.ReceiveReply? {
      var b := s.server.inFlight[0];
      assert ReplyOk(cfg, body, s.issued, b, s.fromClient[0]);
      DemuxRoundTrip(body, s.issued, [], b, s.server.results);
      assert [] + s.fromClient[0] == s.fromClient[0];
    }
  }

  predicate IsPop(l: Label) { l.PopBatch? }
  predicate IsCommit(l: Label) { l.CommitSend? }
  predicate IsReceive(l: Label) { l.ReceiveReply? }

  /** The inputs of a ticket never change. */
  lemma {:induction false} IssuedStays(cfg: Config, body: Body, trace: seq<Sys>, labels: seq<Label>, i: nat, j: nat, t: nat)
    requires IsRun(cfg, body, trace, labels) && i <= j < |trace| && t in trace[i].issued
    ensures t in trace[j].issued && trace[j].issued[t] == trace[i].issued[t]
    decreases j
  {
    hide Inv, ClientReply, Demux, Merge, CanSchedule, PackAll, AllPackable, Sum, Schedule, Pop, Commit, Receive, Get, Die;
    if i < j {
      IssuedStays(cfg, body, trace, labels, i, j - 1, t);
      RunKeeps(cfg, body, trace, labels, j - 1);
      InvQueue(cfg, body, trace[j - 1]);
      assert Enabled(cfg, body, trace[j - 1], labels[j - 1]);
    }
  }

  /** By position: a ticket within the limit leaves the queue within as many
      merges as its position, plus one, plus the priority entries that arrive. */
  lemma {:induction false} LeavesQueue(cfg: Config, body: Body, trace: seq<Sys>, labels: seq<Label>, i: nat, j: nat, t: nat, p: nat)
    requires IsRun(cfg, body, trace, labels) && i <= j <= |labels|
    requires t in trace[i].issued && |trace[i].issued[t]| <= cfg.big && QueuedAt(trace[i], t, p)
    ensures !InQueue(trace[j], t)
      || exists q: nat :: q + CountOf(labels[i..j], IsPop) <= p + CountOf(labels[i..j], Jumps) && QueuedAt(trace[j], t, q)
    decreases j
  {
    hide Enabled, Step, Inv, CountOf, InQueue, QueuedAt;
    if i < j {
      LeavesQueue(cfg, body, trace, labels, i, j - 1, t, p);
      var s, l := trace[j - 1], labels[j - 1];
      IssuedStays(cfg, body, trace, labels, i, j - 1, t);
      RunKeeps(cfg, body, trace, labels, j - 1);
      InvQueue(cfg, body, s);
      assert Enabled(cfg, body, s, l);
      CountStep(labels, IsPop, i, j);
      CountStep(labels, Jumps, i, j);
      if !InQueue(s, t) {
        NoReturn(cfg, body, s, l, t);
      } else {
        var q: nat :| q + CountOf(labels[i..j - 1], IsPop) <= p + CountOf(labels[i..j - 1], Jumps) && QueuedAt(s, t, q);
        QueueStep(cfg, body, s, l, t, q);
        if l.PopBatch? && BeingSent(trace[j], t) {
          TicketIsInOnePlace(cfg, body, trace, labels, j, t);
        }
      }
    } else {
      CountNone(labels, IsPop, i);
      CountNone(labels, Jumps, i);
    }
  }

  // ---------------------------------------------------------------------
  // Priority
  // ---------------------------------------------------------------------

  /** A new ticket goes to the end of the queue and moves no one; with priority
      it goes to the front, and everyone else one position back. */
  lemma IssuePlaces(cfg: Config, body: Body, trace: seq<Sys>, labels: seq<Label>, k: nat)
    requires IsRun(cfg, body, trace, labels) && k < |labels| && labels[k].Issue?
    ensures var s, s', t := trace[k], trace[k + 1], trace[k].server.nextTicket;
      && t !in s.issued && t in s'.issued && s'.issued[t] == labels[k].ins
      && |s'.server.queue| == |s.server.queue| + 1
      && QueuedAt(s', t, if labels[k].priority then 0 else |s.server.queue|)
      && forall u: nat, p: nat :: QueuedAt(s, u, p) ==> QueuedAt(s', u, if labels[k].priority then p + 1 else p)
  {
    hide Inv, ClientReply, Demux, Merge, CanSchedule, PackAll, AllPackable, Sum;
    RunKeeps(cfg, body, trace, labels, k);
    InvQueue(cfg, body, trace[k]);
    assert Enabled(cfg, body, trace[k], labels[k]) && trace[k + 1] == Step(cfg, body, trace[k], labels[k]);
  }

  lemma {:induction false} StaysInFront(cfg: Config, body: Body, trace: seq<Sys>, labels: seq<Label>, i: nat, j: nat, t: nat)
    requires IsRun(cfg, body, trace, labels) && i <= j <= |labels|
    requires t in trace[i].issued && |trace[i].issued[t]| <= cfg.big && QueuedAt(trace[i], t, 0)
    requires forall x :: i <= x < j ==> !Jumps(labels[x]) && !IsPop(labels[x])
    ensures QueuedAt(trace[j], t, 0)
    decreases j
  {
    hide Enabled, Step, Inv, QueuedAt;
    if i < j {
      StaysInFront(cfg, body, trace, labels, i, j - 1, t);
      IssuedStays(cfg, body, trace, labels, i, j - 1, t);
      RunKeeps(cfg, body, trace, labels, j - 1);
      InvQueue(cfg, body, trace[j - 1]);
      assert Enabled(cfg, body, trace[j - 1], labels[j - 1]);
      QueueStep(cfg, body, trace[j - 1], labels[j - 1], t, 0);
    }
  }

  /** A merge puts a head within the limit first in its message. */
  lemma HeadGoesFirst(cfg: Config, body: Body, s: Sys, t: nat)
    requires QueueOk(cfg, s) && Enabled(cfg, body, s, PopBatch) && QueuedAt(s, t, 0)
    requires t in s.issued && |s.issued[t]| <= cfg.big
    ensures var x := Step(cfg, body, s, PopBatch).server.sending;
      x.Busy? && x.batch != [] && x.batch[0] == Share(t, |s.issued[t]|)
  {
    hide Merge, PackAll, AllPackable, Sum, Packed, Shares;
    var q := s.server.queue;
    assert EntryOk(cfg, s.issued, q[0]);
    MergeNothing(cfg.big);
    MergeOne(q, cfg.big, 0);
    PrefixRest(q, cfg.big, 1);
    assert q[..0] == [];
    assert Merge(q[..1], cfg.big).taken == [q[0]];
    assert Merge(q, cfg.big).taken[0] == q[0];
  }

  /** A ticket within the limit that is issued with priority is the first in the
      next merged message, unless another priority entry comes in before. */
  lemma PriorityGoesFirst(cfg: Config, body: Body, trace: seq<Sys>, labels: seq<Label>, k: nat, j: nat)
    requires IsRun(cfg, body, trace, labels) && k < j < |labels|
    requires labels[k].Issue? && labels[k].priority && |labels[k].ins| <= cfg.big
    requires labels[j].PopBatch? && forall x :: k < x < j ==> !Jumps(labels[x]) && !IsPop(labels[x])
    ensures var x := trace[j + 1].server.sending;
      x.Busy? && x.batch != [] && x.batch[0] == Share(trace[k].server.nextTicket, |labels[k].ins|)
  {
    hide Enabled, Step, Inv, QueuedAt;
    var t := trace[k].server.nextTicket;
    IssuePlaces(cfg, body, trace, labels, k);
    StaysInFront(cfg, body, trace, labels, k + 1, j, t);
    IssuedStays(cfg, body, trace, labels, k + 1, j, t);
    RunKeeps(cfg, body, trace, labels, j);
    InvQueue(cfg, body, trace[j]);
    assert Enabled(cfg, body, trace[j], labels[j]);
    HeadGoesFirst(cfg, body, trace[j], t);
  }

  /** A ticket that is neither queued nor being sent stays so. */
  lemma {:induction false} PastSender(cfg: Config, body: Body, trace: seq<Sys>, labels: seq<Label>, i: nat, j: nat, t: nat)
    requires IsRun(cfg, body, trace, labels) && i <= j <= |labels| && t in trace[i].issued && !InQueue(trace[i], t)
    requires !BeingSent(trace[i], t) || CountOf(labels[i..j], IsCommit) > 0
    ensures !InQueue(trace[j], t) && !BeingSent(trace[j], t)
    decreases j
  {
    hide Enabled, Step, Inv, InQueue, BeingSent;
    if i < j {
      var s, l := trace[j - 1], labels[j - 1];
      CountStep(labels, IsCommit, i, j);
      IssuedStays(cfg, body, trace, labels, i, j - 1, t);
      RunKeeps(cfg, body, trace, labels, j - 1);
      InvQueue(cfg, body, s);
      assert Enabled(cfg, body, s, l);
      if BeingSent(trace[i], t) && CountOf(labels[i..j - 1], IsCommit) == 0 {
        LeftStays(cfg, body, trace, labels, i, j - 1, t);
      } else {
        PastSender(cfg, body, trace, labels, i, j - 1, t);
      }
      NoReturn(cfg, body, s, l, t);
    } else {
      CountNone(labels, IsCommit, i);
    }
  }

  lemma {:induction false} LeftStays(cfg: Config, body: Body, trace: seq<Sys>, labels: seq<Label>, i: nat, j: nat, t: nat)
    requires IsRun(cfg, body, trace, labels) && i <= j <= |labels| && t in trace[i].issued && !InQueue(trace[i], t)
    ensures !InQueue(trace[j], t)
    decreases j
  {
    hide Enabled, Step, Inv, InQueue, BeingSent;
    if i < j {
      LeftStays(cfg, body, trace, labels, i, j - 1, t);
      IssuedStays(cfg, body, trace, labels, i, j - 1, t);
      RunKeeps(cfg, body, trace, labels, j - 1);
      InvQueue(cfg, body, trace[j - 1]);
      assert Enabled(cfg, body, trace[j - 1], labels[j - 1]);
      NoReturn(cfg, body, trace[j - 1], labels[j - 1], t);
    }
  }

  /** A ticket in flight is answered once the replies of the batches up to its own are in. */
  lemma {:induction false} LandsInOrder(cfg: Config, body: Body, trace: seq<Sys>, labels: seq<Label>, i: nat, j: nat, t: nat, d: nat)
    requires IsRun(cfg, body, trace, labels) && i <= j <= |labels| && FlyingAt(trace[i], t, d)
    ensures HasAnswer(trace[j], t) || exists e: nat :: e + CountOf(labels[i..j], IsReceive) <= d && FlyingAt(trace[j], t, e)
    decreases j
  {
    hide Enabled, Step, Inv, CountOf, FlyingAt;
    if i < j {
      LandsInOrder(cfg, body, trace, labels, i, j - 1, t, d);
      var s, l := trace[j - 1], labels[j - 1];
      RunKeeps(cfg, body, trace, labels, j - 1);
      assert Enabled(cfg, body, s, l);
      CountStep(labels, IsReceive, i, j);
      if HasAnswer(s, t) {
        AnsweredStays(cfg, body, s, l, t);
      } else {
        var e: nat :| e + CountOf(labels[i..j - 1], IsReceive) <= d && FlyingAt(s, t, e);
        FlightStep(cfg, body, s, l, t, e);
      }
    } else {
      CountNone(labels, IsReceive, i);
    }
  }

  lemma FliesSomewhere(s: Sys, t: nat)
    requires InFlight(s, t)
    ensures exists d: nat :: d < |s.server.inFlight| && FlyingAt(s, t, d)
  {
    hide FlyingAt;
    FlightIndex(s.server.inFlight, t);
    var d :| 0 <= d < |s.server.inFlight| && t in BatchTickets(s.server.inFlight[d]);
    assert FlyingAt(s, t, d) by { FlyingIs(s, t, d); }
  }

  lemma FlyingIs(s: Sys, t: nat, d: nat)
    requires d < |s.server.inFlight| && t in BatchTickets(s.server.inFlight[d])
    ensures FlyingAt(s, t, d)
  {
  }

  lemma {:induction false} FlightIndex(bs: seq<seq<Share>>, t: nat)
    requires t in FlightTickets(bs)
    ensures exists d :: 0 <= d < |bs| && t in BatchTickets(bs[d])
  {
    hide BatchTickets;
    if t !in BatchTickets(bs[0]) {
      FlightIndex(bs[1..], t);
      var d :| 0 <= d < |bs[1..]| && t in BatchTickets(bs[1..][d]);
      assert t in BatchTickets(bs[d + 1]);
    }
  }

  /** Every ticket within the limit is answered, whatever else is queued or
      arrives, as soon as the run has gone on far enough for it: more merges
      than its position and the priority entries that came in, then a completed
      send, then a reply for each batch in flight at that time. */
  lemma EveryTicketIsAnswered(cfg: Config, body: Body, trace: seq<Sys>, labels: seq<Label>,
                              i: nat, a: nat, b: nat, j: nat, t: nat, p: nat)
    requires IsRun(cfg, body, trace, labels) && i <= a <= b <= j <= |labels|
    requires t in trace[i].issued && |trace[i].issued[t]| <= cfg.big && QueuedAt(trace[i], t, p)
    requires CountOf(labels[i..a], IsPop) > p + CountOf(labels[i..a], Jumps)
    requires CountOf(labels[a..b], IsCommit) > 0
    requires CountOf(labels[b..j], IsReceive) >= |trace[b].server.inFlight|
    ensures HasAnswer(trace[j], t)
  {
    hide CountOf, InQueue, BeingSent, InFlight, Enabled, Step, FlyingAt, Located, QueuedAt;
    LeavesQueue(cfg, body, trace, labels, i, a, t, p);
    IssuedStays(cfg, body, trace, labels, i, a, t);
    PastSender(cfg, body, trace, labels, a, b, t);
    IssuedStays(cfg, body, trace, labels, i, b, t);
    assert t < trace[b].server.nextTicket by { Known(cfg, body, trace, labels, b, t); }
    TicketIsInOnePlace(cfg, body, trace, labels, b, t);
    if InFlight(trace[b], t) {
      FliesSomewhere(trace[b], t);
      var d: nat :| d < |trace[b].server.inFlight| && FlyingAt(trace[b], t, d);
      LandsInOrder(cfg, body, trace, labels, b, j, t, d);
    } else {
      StaysAnswered(cfg, body, trace, labels, b, j, t);
    }
  }

  lemma Known(cfg: Config, body: Body, trace: seq<Sys>, labels: seq<Label>, k: nat, t: nat)
    requires IsRun(cfg, body, trace, labels) && k < |trace| && t in trace[k].issued
    ensures t < trace[k].server.nextTicket
  {
    hide IsRun;
    RunKeeps(cfg, body, trace, labels, k);
  }

  lemma {:induction false} StaysAnswered(cfg: Config, body: Body, trace: seq<Sys>, labels: seq<Label>, i: nat, j: nat, t: nat)
    requires IsRun(cfg, body, trace, labels) && i <= j <= |labels| && HasAnswer(trace[i], t)
    ensures HasAnswer(trace[j], t)
    decreases j
  {
    hide Enabled, Step, Inv, HasAnswer;
    if i < j {
      StaysAnswered(cfg, body, trace, labels, i, j - 1, t);
      RunKeeps(cfg, body, trace, labels, j - 1);
      assert Enabled(cfg, body, trace[j - 1], labels[j - 1]);
      AnsweredStays(cfg, body, trace[j - 1], labels[j - 1], t);
    }
  }

  // ---------------------------------------------------------------------
  // What may be in flight
  // ---------------------------------------------------------------------

  /** A further batch is sent only while fewer than 524288 bytes are in flight,
      and when single stepping only when none is. */
  ghost predicate FlightOk(cfg: Config, s: Server) {
    var ib := s.inFlightBytes;
    && |s.inFlight| == |ib|
    && (|ib| >= 2 ==> Sum(ib[..|ib| - 1]) < 524288)
    && (s.sending.Busy? && ib != [] ==> Sum(ib) < 524288)
    && (cfg.singleStep ==> |ib| + Count(s.sending.Busy?) <= 1)
  }

  lemma FlightKeeps(cfg: Config, body: Body, s: Sys, l: Label)
    requires Enabled(cfg, body, s, l) && FlightOk(cfg, s.server)
    ensures FlightOk(cfg, Step(cfg, body, s, l).server)
  {
    hide ClientReply, Demux, Merge, CanSchedule, PackAll, AllPackable, Packed, Shares, Sum;
    var ib := s.server.inFlightBytes;
    if l.CommitSend? {
      var ib' := Step(cfg, body, s, l).server.inFlightBytes;
      assert ib'[..|ib'| - 1] == ib;
    }
    if l.ReceiveReply? && |ib| >= 3 {
      SumTail(ib[..|ib| - 1]);
      assert ib[1..][..|ib| - 2] == ib[..|ib| - 1][1..];
    }
  }

  lemma SumTail(ns: seq<nat>)
    requires ns != []
    ensures Sum(ns[1..]) <= Sum(ns)
  {
  }

  /** In every run at most one batch starts its flight beyond the limit, and
      single stepping never has two batches under way. */
  lemma {:induction false} FlightIsBounded(cfg: Config, body: Body, trace: seq<Sys>, labels: seq<Label>, k: nat)
    requires IsRun(cfg, body, trace, labels) && k < |trace|
    ensures FlightOk(cfg, trace[k].server)
  {
    hide FlightOk, Enabled, Step;
    if k == 0 {
      NothingFlies(cfg);
    } else {
      FlightIsBounded(cfg, body, trace, labels, k - 1);
      assert Enabled(cfg, body, trace[k - 1], labels[k - 1]);
      FlightKeeps(cfg, body, trace[k - 1], labels[k - 1]);
    }
  }

  lemma NothingFlies(cfg: Config)
    ensures FlightOk(cfg, INIT.server)
  {
  }
}
