/** When replies are read: exactly when some waiting ticket can still be answered. */
module Answering {
  import opened Bytes
  import opened InputCodec
  import opened Batching
  import opened Protocol
  import opened Transparency
  import opened Progress

  // ---------------------------------------------------------------------
  // The bytes that can fill the pipe
  // ---------------------------------------------------------------------

  ghost predicate HasOversize(q: seq<Entry>, big: nat) {
    exists k :: 0 <= k < |q| && q[k].n > big
  }

  /** Packed bytes of the entries within the limit. */
  function FitBytes(q: seq<Entry>, big: nat): nat {
    if q == [] then 0
    else FitBytes(q[..|q| - 1], big) + if q[|q| - 1].n <= big then |q[|q| - 1].packed| else 0
  }

  /** The number of entries within the limit. */
  function FitCount(q: seq<Entry>, big: nat): nat {
    if q == [] then 0 else FitCount(q[..|q| - 1], big) + Count(q[|q| - 1].n <= big)
  }

  function SendingBytes(x: Sending): nat {
    if x.Busy? then |x.msg.packed| else 0
  }

  /** Bytes in flight, being sent, or queued within the limit. */
  function Load(s: Server, big: nat): nat {
    Sum(s.inFlightBytes) + SendingBytes(s.sending) + FitBytes(s.queue, big)
  }

  /** An entry above the limit is queued, and what else there is cannot fill
      the pipe: the sending loop, once entered, does not end. */
  ghost predicate Starved(cfg: Config, s: Sys) {
    !cfg.singleStep && HasOversize(s.server.queue, cfg.big) && Load(s.server, cfg.big) < MAX_IN_FLIGHT_BYTES
  }

  ghost predicate Doomed(cfg: Config, s: Sys) {
    Starved(cfg, s) && !s.server.receiving
  }

  lemma {:induction false} MergeBytes(q: seq<Entry>, big: nat)
    ensures |Packed(Merge(q, big).taken)| + FitBytes(Merge(q, big).rest, big) == FitBytes(q, big)
    ensures |Merge(q, big).taken| + FitCount(Merge(q, big).rest, big) == FitCount(q, big)
    ensures HasOversize(Merge(q, big).rest, big) <==> HasOversize(q, big)
  {
    hide HasOversize, FitBytes, FitCount, Packed;
    if q == [] {
      NothingFits(big);
    } else {
      var k := |q| - 1;
      var m, e := Merge(q[..k], big), q[k];
      MergeBytes(q[..k], big);
      assert q == q[..k] + [e];
      FitSnoc(q[..k], e, big);
      if m.total + e.n <= big {
        FitSnoc(m.taken, e, big);
      } else {
        FitSnoc(m.rest, e, big);
      }
    }
  }

  lemma NothingFits(big: nat)
    ensures Merge([], big) == Merged(0, [], []) && Packed([]) == [] && FitBytes([], big) == 0 && FitCount([], big) == 0
  {
  }

  lemma FitSnoc(q: seq<Entry>, e: Entry, big: nat)
    ensures FitBytes(q + [e], big) == FitBytes(q, big) + if e.n <= big then |e.packed| else 0
    ensures FitCount(q + [e], big) == FitCount(q, big) + if e.n <= big then 1 else 0
    ensures HasOversize(q + [e], big) <==> HasOversize(q, big) || e.n > big
    ensures |Packed(q + [e])| == |Packed(q)| + |e.packed|
  {
    hide HasOversize;
    assert (q + [e])[..|q|] == q;
    OversizeSnoc(q, e, big);
  }

  lemma OversizeSnoc(q: seq<Entry>, e: Entry, big: nat)
    ensures HasOversize(q + [e], big) <==> HasOversize(q, big) || e.n > big
  {
    var all := q + [e];
    assert all[|q|] == e && forall k :: 0 <= k < |q| ==> all[k] == q[k];
  }

  /** Everything but a new ticket: the client goes on living. */
  predicate Quiet(l: Label) {
    !l.Issue? && !l.LoseClient?
  }

  /** Only a reply takes load away, and nothing takes an oversize entry away. */
  lemma LoadStep(cfg: Config, body: Body, s: Sys, l: Label)
    requires Enabled(cfg, body, s, l) && !l.Issue?
    ensures var s' := Step(cfg, body, s, l);
      && (HasOversize(s'.server.queue, cfg.big) <==> HasOversize(s.server.queue, cfg.big))
      && Load(s'.server, cfg.big) <= Load(s.server, cfg.big)
      && (!l.ReceiveReply? || s.server.inFlightBytes[0] == 0 ==> Load(s'.server, cfg.big) == Load(s.server, cfg.big))
  {
    hide ClientReply, Demux, Merge, FitBytes, HasOversize, Packed, Shares;
    if l.PopBatch? {
      MergeBytes(s.server.queue, cfg.big);
    } else if l.CommitSend? {
      SumSnoc(s.server.inFlightBytes, |s.server.sending.msg.packed|);
    }
  }

  lemma StarvedStays(cfg: Config, body: Body, s: Sys, l: Label)
    requires Starved(cfg, s) && Enabled(cfg, body, s, l) && !l.Issue?
    ensures Starved(cfg, Step(cfg, body, s, l))
  {
    hide Enabled, Step, HasOversize, Load;
    LoadStep(cfg, body, s, l);
  }

  lemma StarvedSendsMore(cfg: Config, s: Sys)
    requires Starved(cfg, s)
    ensures SendsMore(s.server, cfg.singleStep)
  {
    hide FitBytes, Sum;
  }

  // ---------------------------------------------------------------------
  // The end of the sending loop
  // ---------------------------------------------------------------------

  /** In a doomed state no reply is read, and it stays doomed. */
  lemma DoomedStays(cfg: Config, body: Body, s: Sys, l: Label)
    requires Doomed(cfg, s) && Enabled(cfg, body, s, l) && !l.Issue?
    ensures !l.EndSending? && !l.ReceiveReply?
    ensures Doomed(cfg, Step(cfg, body, s, l))
    ensures s.server.inFlight <= Step(cfg, body, s, l).server.inFlight
  {
    hide Starved, ClientReply, Demux, Merge, SendsMore;
    StarvedStays(cfg, body, s, l);
    StarvedSendsMore(cfg, s);
  }

  /** Once doomed, a run without new tickets never reads a reply again: every
      batch in flight stays there, within the limit or not. */
  lemma {:induction false} OversizeStopsReplies(cfg: Config, body: Body, trace: seq<Sys>, labels: seq<Label>, i: nat, j: nat)
    requires IsRun(cfg, body, trace, labels) && i <= j <= |labels|
    requires Doomed(cfg, trace[i]) && forall x :: i <= x < j ==> !labels[x].Issue?
    ensures forall x :: i <= x < j ==> !labels[x].ReceiveReply?
    ensures Doomed(cfg, trace[j]) && trace[i].server.inFlight <= trace[j].server.inFlight
    decreases j
  {
    hide Enabled, Step, Doomed;
    if i < j {
      OversizeStopsReplies(cfg, body, trace, labels, i, j - 1);
      assert Enabled(cfg, body, trace[j - 1], labels[j - 1]);
      DoomedStays(cfg, body, trace[j - 1], labels[j - 1]);
    }
  }

  /** Within n merges and sends the sending loop is left. */
  ghost predicate EndsIn(cfg: Config, body: Body, s: Sys, n: nat)
    decreases n
  {
    || CanStop(s.server, cfg.singleStep)
    || (n > 0 && exists l: Label :: (l.PopBatch? || l.CommitSend?) && Enabled(cfg, body, s, l) && EndsIn(cfg, body, Step(cfg, body, s, l), n - 1))
  }

  lemma {:induction false} DoomedNeverEnds(cfg: Config, body: Body, s: Sys, n: nat)
    requires Doomed(cfg, s)
    ensures !EndsIn(cfg, body, s, n)
    decreases n
  {
    hide Enabled, Step, Starved;
    StarvedSendsMore(cfg, s);
    if n > 0 {
      forall l: Label | (l.PopBatch? || l.CommitSend?) && Enabled(cfg, body, s, l)
        ensures !EndsIn(cfg, body, Step(cfg, body, s, l), n - 1)
      {
        DoomedStays(cfg, body, s, l);
        DoomedNeverEnds(cfg, body, Step(cfg, body, s, l), n - 1);
      }
    }
  }

  // ---------------------------------------------------------------------
  // Where the process is
  // ---------------------------------------------------------------------

  /** A batch is only sent while sending, single stepping keeps one batch at a
      time, and empty batches have no bytes. */
  ghost predicate PhaseOk(cfg: Config, s: Server) {
    && |s.inFlight| == |s.inFlightBytes|
    && (s.sending.Busy? ==> !s.receiving && (s.sending.batch == [] ==> s.sending.msg.packed == []))
    && (cfg.singleStep ==> |s.inFlight| <= 1 && (s.sending.Busy? ==> s.inFlight == []))
    && forall k :: 0 <= k < |s.inFlight| && s.inFlight[k] == [] ==> s.inFlightBytes[k] == 0
  }

  lemma PhaseStep(cfg: Config, body: Body, s: Sys, l: Label)
    requires PhaseOk(cfg, s.server) && Enabled(cfg, body, s, l)
    ensures PhaseOk(cfg, Step(cfg, body, s, l).server)
  {
    hide ClientReply, Demux, Merge, Sum, CanSchedule, PackAll, AllPackable;
    if l.PopBatch? {
      NothingPacked(Merge(s.server.queue, cfg.big).taken);
    }
  }

  lemma NothingPacked(taken: seq<Entry>)
    ensures Shares(taken) == [] ==> Packed(taken) == []
  {
  }

  lemma {:induction false} RunPhase(cfg: Config, body: Body, trace: seq<Sys>, labels: seq<Label>, k: nat)
    requires IsRun(cfg, body, trace, labels) && k < |trace|
    ensures PhaseOk(cfg, trace[k].server)
  {
    hide Enabled, Step, PhaseOk;
    if k == 0 {
      assert PhaseOk(cfg, INIT.server) by { PhaseStart(cfg); }
    } else {
      RunPhase(cfg, body, trace, labels, k - 1);
      assert Enabled(cfg, body, trace[k - 1], labels[k - 1]);
      PhaseStep(cfg, body, trace[k - 1], labels[k - 1]);
    }
  }

  lemma PhaseStart(cfg: Config)
    ensures PhaseOk(cfg, INIT.server)
  {
  }

  /** When the loop goes round although the state is not starved, some entry fits. */
  lemma FullPipe(cfg: Config, s: Sys)
    requires PhaseOk(cfg, s.server) && s.server.sending.Idle? && !Starved(cfg, s) && !cfg.singleStep
    requires SendsMore(s.server, cfg.singleStep)
    ensures FitCount(s.server.queue, cfg.big) > 0
  {
    hide Sum;
    var q := s.server.queue;
    if FitCount(q, cfg.big) == 0 {
      NoneFits(q, cfg.big);
      assert q[0].n > cfg.big;
      assert Load(s.server, cfg.big) >= MAX_IN_FLIGHT_BYTES;
      assert s.server.inFlight == [] && s.server.inFlightBytes == [];
      NoBytes();
    }
  }

  lemma NoBytes()
    ensures Sum([]) == 0
  {
  }

  lemma {:induction false} NoneFits(q: seq<Entry>, big: nat)
    requires FitCount(q, big) == 0
    ensures FitBytes(q, big) == 0 && forall k :: 0 <= k < |q| ==> q[k].n > big
  {
    if q != [] {
      NoneFits(q[..|q| - 1], big);
      assert forall k :: 0 <= k < |q| - 1 ==> q[k] == q[..|q| - 1][k];
    }
  }

  /** If anything fits, the merge takes something. */
  lemma {:induction false} TakesSome(q: seq<Entry>, big: nat)
    ensures Merge(q, big).taken == [] <==> FitCount(q, big) == 0
    ensures Merge(q, big).taken == [] ==> Merge(q, big).rest == q && Merge(q, big).total == 0
  {
    if q != [] {
      var k := |q| - 1;
      TakesSome(q[..k], big);
      assert q == q[..k] + [q[k]];
    }
  }

  /** With single stepping the loop ends after one batch. */
  lemma SingleStepEnds(cfg: Config, body: Body, s: Sys)
    requires PhaseOk(cfg, s.server) && !s.server.dead && !s.server.receiving && cfg.singleStep
    ensures exists n: nat :: EndsIn(cfg, body, s, n)
  {
    hide Merge, Sum;
    if s.server.sending.Busy? {
      var s' := Step(cfg, body, s, CommitSend);
      assert EndsIn(cfg, body, s', 0);
      Extend(cfg, body, s, CommitSend, 0);
    } else if SendsMore(s.server, true) {
      var s' := Step(cfg, body, s, PopBatch);
      assert EndsIn(cfg, body, Step(cfg, body, s', CommitSend), 0);
      Extend(cfg, body, s', CommitSend, 0);
      Extend(cfg, body, s, PopBatch, 1);
    } else {
      assert EndsIn(cfg, body, s, 0);
    }
  }

  lemma Extend(cfg: Config, body: Body, s: Sys, l: Label, n: nat)
    requires (l.PopBatch? || l.CommitSend?) && Enabled(cfg, body, s, l) && EndsIn(cfg, body, Step(cfg, body, s, l), n)
    ensures EndsIn(cfg, body, s, n + 1)
  {
    hide Enabled, Step;
  }

  /** From any living state in the loop that is not doomed, merges and sends
      lead to its end. */
  lemma {:induction false} NotDoomedEnds(cfg: Config, body: Body, s: Sys)
    requires PhaseOk(cfg, s.server) && !s.server.dead && !s.server.receiving && !Starved(cfg, s)
    ensures exists n: nat :: EndsIn(cfg, body, s, n)
    decreases FitCount(s.server.queue, cfg.big), if s.server.sending.Busy? then 1 else 0
  {
    hide Starved, Merge, FitCount, PhaseOk, EndsIn, SendsMore;
    if cfg.singleStep {
      SingleStepEnds(cfg, body, s);
    } else if CanStop(s.server, cfg.singleStep) {
      assert EndsIn(cfg, body, s, 0) by { EndsNow(cfg, body, s); }
    } else {
      var l := if s.server.sending.Busy? then CommitSend else PopBatch;
      var s' := Step(cfg, body, s, l);
      PhaseStep(cfg, body, s, l);
      SenderStep(cfg, body, s, l);
      NotDoomedEnds(cfg, body, s');
      var n: nat :| EndsIn(cfg, body, s', n);
      Extend(cfg, body, s, l, n);
    }
  }

  lemma EndsNow(cfg: Config, body: Body, s: Sys)
    requires CanStop(s.server, cfg.singleStep)
    ensures EndsIn(cfg, body, s, 0)
  {
  }

  lemma SenderStep(cfg: Config, body: Body, s: Sys, l: Label)
    requires PhaseOk(cfg, s.server) && !s.server.receiving && !Starved(cfg, s) && Enabled(cfg, body, s, l)
    requires l.PopBatch? || l.CommitSend?
    ensures !Starved(cfg, Step(cfg, body, s, l))
    ensures l.CommitSend? ==> FitCount(Step(cfg, body, s, l).server.queue, cfg.big) == FitCount(s.server.queue, cfg.big)
    ensures l.PopBatch? && !cfg.singleStep ==>
      FitCount(Step(cfg, body, s, l).server.queue, cfg.big) < FitCount(s.server.queue, cfg.big)
  {
    hide Merge, FitCount, HasOversize, Load, FitBytes, PhaseOk;
    LoadStep(cfg, body, s, l);
    if l.PopBatch? && !cfg.singleStep {
      FullPipe(cfg, s);
      MergeBytes(s.server.queue, cfg.big);
      TakesSome(s.server.queue, cfg.big);
    }
  }

  /** In every reachable state of a living client within the sending loop, the
      loop can be left by merges and sends exactly when the state is not doomed. */
  lemma SendingEndsIff(cfg: Config, body: Body, trace: seq<Sys>, labels: seq<Label>, k: nat)
    requires IsRun(cfg, body, trace, labels) && k < |trace|
    requires !trace[k].server.dead && !trace[k].server.receiving
    ensures (exists n: nat :: EndsIn(cfg, body, trace[k], n)) <==> !Doomed(cfg, trace[k])
  {
    hide IsRun, EndsIn, Starved, PhaseOk;
    RunPhase(cfg, body, trace, labels, k);
    if Doomed(cfg, trace[k]) {
      forall n: nat
        ensures !EndsIn(cfg, body, trace[k], n)
      {
        DoomedNeverEnds(cfg, body, trace[k], n);
      }
    } else {
      NotDoomedEnds(cfg, body, trace[k]);
    }
  }

  // ---------------------------------------------------------------------
  // The oldest batch with tickets
  // ---------------------------------------------------------------------

  function FirstNonempty(bs: seq<seq<Share>>): seq<Share> {
    if bs == [] then [] else if bs[0] != [] then bs[0] else FirstNonempty(bs[1..])
  }

  lemma {:induction false} FirstAppend(a: seq<seq<Share>>, b: seq<seq<Share>>)
    ensures FirstNonempty(a + b) == if FirstNonempty(a) != [] then FirstNonempty(a) else FirstNonempty(b)
  {
    if a == [] {
      assert a + b == b;
    } else {
      assert (a + b)[1..] == a[1..] + b;
      FirstAppend(a[1..], b);
    }
  }

  function SendingBatch(x: Sending): seq<Share> {
    if x.Busy? then x.batch else []
  }

  /** The oldest batch that holds a ticket: in flight, being sent, or the one
      the next merge will form. */
  function Oldest(s: Server, big: nat): seq<Share> {
    FirstNonempty(s.inFlight + [SendingBatch(s.sending)] + [Shares(Merge(s.queue, big).taken)])
  }

  lemma OldestCases(s: Server, big: nat)
    ensures Oldest(s, big) ==
      if FirstNonempty(s.inFlight) != [] then FirstNonempty(s.inFlight)
      else if SendingBatch(s.sending) != [] then SendingBatch(s.sending)
      else Shares(Merge(s.queue, big).taken)
  {
    hide Merge, Shares;
    var b, c := SendingBatch(s.sending), Shares(Merge(s.queue, big).taken);
    assert s.inFlight + [b] + [c] == s.inFlight + ([b] + [c]);
    FirstAppend(s.inFlight, [b] + [c]);
    FirstAppend([b], [c]);
    One(b);
    One(c);
  }

  lemma One(b: seq<Share>)
    ensures FirstNonempty([b]) == b
  {
    assert [b][1..] == [];
  }

  /** Until it is answered, the oldest batch stays the oldest. */
  lemma OldestStays(cfg: Config, body: Body, s: Sys, l: Label)
    requires Enabled(cfg, body, s, l) && !l.Issue? && !(l.ReceiveReply? && s.server.inFlight[0] != [])
    ensures Oldest(Step(cfg, body, s, l).server, cfg.big) == Oldest(s.server, cfg.big)
  {
    hide ClientReply, Demux, Merge, Shares, Packed, Oldest, Sum;
    var s' := Step(cfg, body, s, l);
    OldestCases(s.server, cfg.big);
    OldestCases(s'.server, cfg.big);
    if l.PopBatch? {
      var m := Merge(s.server.queue, cfg.big);
      TakesSome(s.server.queue, cfg.big);
      assert Shares([]) == [];
      assert |Shares(m.taken)| == |m.taken|;
    } else if l.CommitSend? {
      FirstAppend(s.server.inFlight, [s.server.sending.batch]);
      One(s.server.sending.batch);
    }
  }

  /** An unanswered ticket within the limit is in, or behind, some nonempty batch. */
  lemma SomeBatchWaits(cfg: Config, s: Sys, t: nat)
    requires Conserved(s) && QueueOk(cfg, s) && t in s.issued && |s.issued[t]| <= cfg.big
    requires t !in s.server.results && t !in s.delivered
    ensures Oldest(s.server, cfg.big) != []
  {
    hide Merge, Shares, Oldest, BatchTickets, QueueTickets, FlightTickets;
    OldestCases(s.server, cfg.big);
    var q, x, f := QueueTickets(s.server.queue), SendingTickets(s.server.sending), FlightTickets(s.server.inFlight);
    assert Located(s)[t] == multiset(s.issued.Keys)[t] == 1;
    assert t in q || t in x || t in f;
    if t in f {
      FlightNonempty(s.server.inFlight, t);
    } else if t in x {
      assert s.server.sending.batch != [] by { NoShares(s.server.sending.batch, t); }
    } else {
      InTickets(s.server.queue, t);
      var j :| 0 <= j < |s.server.queue| && s.server.queue[j].ticket == t;
      assert EntryOk(cfg, s.issued, s.server.queue[j]);
      Fits(s.server.queue, cfg.big, j);
      TakesSome(s.server.queue, cfg.big);
      assert |Shares(Merge(s.server.queue, cfg.big).taken)| > 0;
    }
  }

  lemma NoShares(b: seq<Share>, t: nat)
    requires t in BatchTickets(b)
    ensures b != []
  {
  }

  lemma {:induction false} FlightNonempty(bs: seq<seq<Share>>, t: nat)
    requires t in FlightTickets(bs)
    ensures FirstNonempty(bs) != []
  {
    if bs[0] == [] {
      FlightNonempty(bs[1..], t);
    }
  }

  lemma {:induction false} Fits(q: seq<Entry>, big: nat, j: nat)
    requires j < |q| && q[j].n <= big
    ensures FitCount(q, big) > 0
  {
    if j < |q| - 1 {
      Fits(q[..|q| - 1], big, j);
    }
  }

  lemma {:induction false} FirstOk(issued: map<nat, seq<Input>>, bs: seq<seq<Share>>)
    requires forall k :: 0 <= k < |bs| ==> BatchOk(issued, bs[k])
    ensures BatchOk(issued, FirstNonempty(bs))
  {
    hide BatchOk;
    if bs == [] {
      NoBatch(issued);
    } else if bs[0] == [] {
      FirstOk(issued, bs[1..]);
    }
  }

  lemma NoBatch(issued: map<nat, seq<Input>>)
    ensures BatchOk(issued, [])
  {
  }

  lemma {:induction false} FirstIndex(bs: seq<seq<Share>>)
    requires FirstNonempty(bs) != []
    ensures exists k :: 0 <= k < |bs| && bs[k] == FirstNonempty(bs)
  {
    if bs[0] == [] {
      FirstIndex(bs[1..]);
      var k :| 0 <= k < |bs[1..]| && bs[1..][k] == FirstNonempty(bs[1..]);
      assert bs[k + 1] == FirstNonempty(bs);
    }
  }

  /** The oldest batch is a batch of issued tickets; unless it is answered
      already, it is within the limit and can be sent. */
  lemma OldestOk(cfg: Config, body: Body, s: Sys)
    requires Inv(cfg, body, s)
    ensures BatchOk(s.issued, Oldest(s.server, cfg.big))
    ensures var ins := BatchInputs(s.issued, Oldest(s.server, cfg.big));
      ReplyFits(Bodies(body, ins)) || (AllPackable(cfg.sh, ins) && |ins| <= cfg.big)
  {
    hide Merge, Shares, Packed, Oldest, BytesOk, Conserved, IssuedOk, ReplyFits, AllPackable, Bodies, EntryOk, PackAll;
    OldestCases(s.server, cfg.big);
    var f, first := |s.fromClient|, FirstNonempty(s.server.inFlight);
    if first != [] {
      FirstIndex(s.server.inFlight);
      var k :| 0 <= k < |s.server.inFlight| && s.server.inFlight[k] == first;
      if k < f {
        assert ReplyOk(cfg, body, s.issued, s.server.inFlight[k], s.fromClient[k]);
      } else {
        assert MessageOk(cfg, s.issued, s.server.inFlight[k], s.toClient[k - f]);
      }
    } else if SendingBatch(s.server.sending) == [] {
      MergedMessage(cfg, s.issued, s.server.queue);
    }
  }

  // ---------------------------------------------------------------------
  // Answers
  // ---------------------------------------------------------------------

  /** A reply with tickets can be split now. */
  ghost predicate Answers(cfg: Config, body: Body, s: Sys) {
    Enabled(cfg, body, s, ReceiveReply) && s.server.inFlight[0] != []
  }

  /** Some continuation of n steps, without new tickets and without losing the
      client, leads to a state in which tickets are answered. */
  ghost predicate AnswersIn(cfg: Config, body: Body, s: Sys, n: nat)
    decreases n
  {
    || Answers(cfg, body, s)
    || (n > 0 && exists l: Label :: Quiet(l) && Enabled(cfg, body, s, l) && AnswersIn(cfg, body, Step(cfg, body, s, l), n - 1))
  }

  ghost predicate CanAnswer(cfg: Config, body: Body, s: Sys) {
    exists n: nat :: AnswersIn(cfg, body, s, n)
  }

  /** Starved, and not just about to read the reply of a batch with tickets. */
  ghost predicate Hopeless(cfg: Config, s: Sys) {
    Starved(cfg, s) && !(s.server.receiving && s.server.inFlight != [] && s.server.inFlight[0] != [])
  }

  lemma HopelessStays(cfg: Config, body: Body, s: Sys, l: Label)
    requires Hopeless(cfg, s) && PhaseOk(cfg, s.server) && Enabled(cfg, body, s, l) && !l.Issue?
    ensures Hopeless(cfg, Step(cfg, body, s, l))
    ensures !(l.ReceiveReply? && s.server.inFlight[0] != [])
  {
    hide Starved, ClientReply, Demux, Merge, SendsMore;
    StarvedStays(cfg, body, s, l);
    StarvedSendsMore(cfg, s);
  }

  /** The client's assertions hold for the reply to the oldest batch. */
  ghost predicate OldestFits(cfg: Config, body: Body, s: Sys)
    requires BatchOk(s.issued, Oldest(s.server, cfg.big))
  {
    ReplyFits(Bodies(body, BatchInputs(s.issued, Oldest(s.server, cfg.big))))
  }

  lemma HeadIsOldest(s: Server, big: nat)
    requires s.inFlight != [] && s.inFlight[0] != []
    ensures Oldest(s, big) == s.inFlight[0]
  {
    hide Merge, Shares, Oldest;
    OldestCases(s, big);
  }

  /** A reply that is there has passed the client's assertions. */
  lemma AnsweredFits(cfg: Config, body: Body, s: Sys)
    requires Inv(cfg, body, s) && Answers(cfg, body, s) && BatchOk(s.issued, Oldest(s.server, cfg.big))
    ensures OldestFits(cfg, body, s)
  {
    hide Oldest, BytesOk, Conserved, IssuedOk, QueueOk, ReplyFits, AllPackable, Bodies, MessageOk, Demux;
    HeadIsOldest(s.server, cfg.big);
    assert ReplyOk(cfg, body, s.issued, s.server.inFlight[0], s.fromClient[0]);
  }

  lemma {:induction false} NoAnswer(cfg: Config, body: Body, s: Sys, n: nat)
    requires Inv(cfg, body, s) && PhaseOk(cfg, s.server) && BatchOk(s.issued, Oldest(s.server, cfg.big))
    requires Hopeless(cfg, s) || !OldestFits(cfg, body, s)
    ensures !AnswersIn(cfg, body, s, n)
    decreases n
  {
    hide Inv, PhaseOk, Hopeless, OldestFits, Oldest, BatchOk, Enabled, Step;
    assert !Answers(cfg, body, s) by {
      if Answers(cfg, body, s) {
        AnsweredFits(cfg, body, s);
        HopelessStays(cfg, body, s, ReceiveReply);
      }
    }
    if n > 0 {
      forall l: Label | Quiet(l) && Enabled(cfg, body, s, l)
        ensures !AnswersIn(cfg, body, Step(cfg, body, s, l), n - 1)
      {
        NoAnswerStep(cfg, body, s, l);
        NoAnswer(cfg, body, Step(cfg, body, s, l), n - 1);
      }
    }
  }

  lemma NoAnswerStep(cfg: Config, body: Body, s: Sys, l: Label)
    requires Inv(cfg, body, s) && PhaseOk(cfg, s.server) && BatchOk(s.issued, Oldest(s.server, cfg.big))
    requires Quiet(l) && Enabled(cfg, body, s, l) && !Answers(cfg, body, s)
    requires Hopeless(cfg, s) || !OldestFits(cfg, body, s)
    ensures var s' := Step(cfg, body, s, l);
      && Inv(cfg, body, s') && PhaseOk(cfg, s'.server) && BatchOk(s'.issued, Oldest(s'.server, cfg.big))
      && (Hopeless(cfg, s') || !OldestFits(cfg, body, s'))
  {
    hide Inv, PhaseOk, Hopeless, Oldest, BatchOk, Enabled, Step, ReplyFits;
    StepKeeps(cfg, body, s, l);
    PhaseStep(cfg, body, s, l);
    OldestStays(cfg, body, s, l);
    SameIssued(cfg, body, s, l);
    if Hopeless(cfg, s) {
      HopelessStays(cfg, body, s, l);
    }
  }

  lemma SameIssued(cfg: Config, body: Body, s: Sys, l: Label)
    requires Enabled(cfg, body, s, l) && !l.Issue?
    ensures Step(cfg, body, s, l).issued == s.issued
  {
    hide ClientReply, Demux, Merge;
  }

  // ---------------------------------------------------------------------
  // The way to an answer
  // ---------------------------------------------------------------------

  /** What the next step towards an answer is. */
  function Next(cfg: Config, s: Sys): Label {
    if s.server.sending.Busy? then CommitSend
    else if s.server.receiving then
      if s.server.inFlight == [] then GiveUpWaiting
      else if s.fromClient == [] then ClientRuns([])
      else ReceiveReply
    else if SendsMore(s.server, cfg.singleStep) then PopBatch
    else EndSending
  }

  function Distance(cfg: Config, s: Sys): nat {
    10 * FitCount(s.server.queue, cfg.big) + (if s.server.sending.Busy? then 6 else 0) + 4 * |s.server.inFlight|
    + if !s.server.receiving then 2 else if s.server.inFlight == [] then 3 else if s.fromClient == [] then 1 else 0
  }

  /** A living state with a waiting batch that the client will answer, and with hope. */
  ghost predicate Good(cfg: Config, body: Body, s: Sys) {
    && Inv(cfg, body, s) && PhaseOk(cfg, s.server) && !s.server.dead && !Hopeless(cfg, s)
    && BatchOk(s.issued, Oldest(s.server, cfg.big)) && Oldest(s.server, cfg.big) != [] && OldestFits(cfg, body, s)
  }

  lemma ClientCanRun(cfg: Config, body: Body, s: Sys)
    requires Good(cfg, body, s) && s.server.inFlight != [] && s.fromClient == []
    ensures Enabled(cfg, body, s, ClientRuns([]))
  {
    hide Oldest, BytesOk, Conserved, IssuedOk, QueueOk, ReplyFits, AllPackable, Bodies, ClientReply, PhaseOk, Hopeless, PackAll, ReplyOk;
    assert MessageOk(cfg, s.issued, s.server.inFlight[0], s.toClient[0 - 0]);
    ClientAnswers(cfg, body, s.issued, s.server.inFlight[0], s.toClient[0], []);
    if s.server.inFlight[0] == [] {
      assert BatchInputs(s.issued, []) == [];
      NothingToSend(body);
    } else {
      HeadIsOldest(s.server, cfg.big);
    }
  }

  lemma ReplyCanBeSplit(cfg: Config, body: Body, s: Sys)
    requires WireOk(cfg, body, s)
    requires !s.server.dead && s.server.sending.Idle? && s.server.receiving && s.fromClient != []
    ensures Enabled(cfg, body, s, ReceiveReply)
  {
    hide PackAll, AllPackable, Frames, Demux, MessageOk, ReplyFits;
    var b := s.server.inFlight[0];
    assert ReplyOk(cfg, body, s.issued, b, s.fromClient[0]);
    DemuxRoundTrip(body, s.issued, [], b, s.server.results);
    assert [] + s.fromClient[0] == s.fromClient[0];
  }

  lemma NextEnabled(cfg: Config, body: Body, s: Sys)
    requires Good(cfg, body, s)
    ensures Enabled(cfg, body, s, Next(cfg, s)) && Quiet(Next(cfg, s))
  {
    hide Oldest, BytesOk, Conserved, IssuedOk, QueueOk, ReplyFits, ClientReply, Hopeless, OldestFits, SendsMore, MessageOk, ReplyOk, Demux, BatchOk, Inv, WireOk;
    var l := Next(cfg, s);
    if l.ClientRuns? {
      ClientCanRun(cfg, body, s);
    } else if l.ReceiveReply? {
      assert WireOk(cfg, body, s) by { InvWire(cfg, body, s); }
      ReplyCanBeSplit(cfg, body, s);
    }
  }

  lemma InvWire(cfg: Config, body: Body, s: Sys)
    requires Inv(cfg, body, s)
    ensures WireOk(cfg, body, s) && Conserved(s) && QueueOk(cfg, s)
  {
  }

  lemma NextKeepsHope(cfg: Config, body: Body, s: Sys)
    requires Good(cfg, body, s) && Enabled(cfg, body, s, Next(cfg, s)) && !Answers(cfg, body, s)
    ensures !Hopeless(cfg, Step(cfg, body, s, Next(cfg, s)))
  {
    hide Inv, Oldest, OldestFits, BatchOk, ClientReply, Demux, Merge, SendsMore, HasOversize, Load;
    var l := Next(cfg, s);
    LoadStep(cfg, body, s, l);
  }

  lemma NextIsCloser(cfg: Config, body: Body, s: Sys)
    requires Good(cfg, body, s) && Enabled(cfg, body, s, Next(cfg, s)) && !Answers(cfg, body, s)
    ensures Distance(cfg, Step(cfg, body, s, Next(cfg, s))) < Distance(cfg, s)
  {
    hide Inv, Oldest, OldestFits, BatchOk, ClientReply, Demux, Merge, FitCount, Starved, Shares;
    var l := Next(cfg, s);
    OldestCases(s.server, cfg.big);
    if l.PopBatch? {
      MergeBytes(s.server.queue, cfg.big);
      TakesSome(s.server.queue, cfg.big);
      if !cfg.singleStep {
        FullPipe(cfg, s);
      } else {
        assert s.server.inFlight == [];
        assert |Merge(s.server.queue, cfg.big).taken| > 0;
      }
    } else if l.EndSending? {
      TakesSome(s.server.queue, cfg.big);
      assert s.server.inFlight != [] by {
        if s.server.queue == [] { NothingFits(cfg.big); }
      }
    }
  }

  lemma NextIsGood(cfg: Config, body: Body, s: Sys)
    requires Good(cfg, body, s) && Enabled(cfg, body, s, Next(cfg, s)) && !Answers(cfg, body, s)
    ensures Good(cfg, body, Step(cfg, body, s, Next(cfg, s)))
  {
    hide Inv, PhaseOk, Hopeless, Oldest, BatchOk, Enabled, Step, ReplyFits, SendsMore;
    var l := Next(cfg, s);
    StepKeeps(cfg, body, s, l);
    PhaseStep(cfg, body, s, l);
    OldestStays(cfg, body, s, l);
    SameIssued(cfg, body, s, l);
    NextKeepsHope(cfg, body, s);
    StaysAlive(cfg, body, s, l);
  }

  lemma StaysAlive(cfg: Config, body: Body, s: Sys, l: Label)
    requires Enabled(cfg, body, s, l) && Quiet(l)
    ensures Step(cfg, body, s, l).server.dead == s.server.dead
  {
    hide ClientReply, Demux, Merge;
  }

  lemma {:induction false} GoodAnswers(cfg: Config, body: Body, s: Sys)
    requires Good(cfg, body, s)
    ensures CanAnswer(cfg, body, s)
    decreases Distance(cfg, s)
  {
    hide Good, Answers, Enabled, Step, Next, Distance, AnswersIn;
    if Answers(cfg, body, s) {
      assert AnswersIn(cfg, body, s, 0) by { AnswerNow(cfg, body, s); }
    } else {
      var l := Next(cfg, s);
      NextEnabled(cfg, body, s);
      NextIsGood(cfg, body, s);
      NextIsCloser(cfg, body, s);
      GoodAnswers(cfg, body, Step(cfg, body, s, l));
      var n: nat :| AnswersIn(cfg, body, Step(cfg, body, s, l), n);
      AnswerLater(cfg, body, s, l, n);
    }
  }

  lemma AnswerNow(cfg: Config, body: Body, s: Sys)
    requires Answers(cfg, body, s)
    ensures AnswersIn(cfg, body, s, 0)
  {
  }

  lemma AnswerLater(cfg: Config, body: Body, s: Sys, l: Label, n: nat)
    requires Quiet(l) && Enabled(cfg, body, s, l) && AnswersIn(cfg, body, Step(cfg, body, s, l), n)
    ensures AnswersIn(cfg, body, s, n + 1)
  {
    hide Enabled, Step, Answers;
  }

  /** In every reachable state with a living client and an unanswered ticket
      within the limit: some continuation without new tickets answers tickets,
      exactly when the state is not hopeless and the client's assertions hold
      for the reply to the oldest waiting batch. */
  lemma AnswersIff(cfg: Config, body: Body, trace: seq<Sys>, labels: seq<Label>, k: nat, t: nat)
    requires IsRun(cfg, body, trace, labels) && k < |trace|
    requires !trace[k].server.dead && t in trace[k].issued && |trace[k].issued[t]| <= cfg.big
    requires t !in trace[k].server.results && t !in trace[k].delivered
    ensures BatchOk(trace[k].issued, Oldest(trace[k].server, cfg.big))
    ensures CanAnswer(cfg, body, trace[k]) <==> !Hopeless(cfg, trace[k]) && OldestFits(cfg, body, trace[k])
  {
    hide IsRun, Inv, PhaseOk, Hopeless, OldestFits, Oldest, BatchOk, AnswersIn;
    var s := trace[k];
    RunKeeps(cfg, body, trace, labels, k);
    RunPhase(cfg, body, trace, labels, k);
    OldestOk(cfg, body, s);
    InvWire(cfg, body, s);
    SomeBatchWaits(cfg, s, t);
    if !Hopeless(cfg, s) && OldestFits(cfg, body, s) {
      GoodAnswers(cfg, body, s);
    } else {
      forall n: nat
        ensures !AnswersIn(cfg, body, s, n)
      {
        NoAnswer(cfg, body, s, n);
      }
    }
  }

  /** With a build whose client never aborts, tickets can be answered exactly
      unless the state is hopeless. */
  lemma NeverStuck(cfg: Config, body: Body, maxBody: nat, trace: seq<Sys>, labels: seq<Label>, k: nat, t: nat)
    requires NeverAborts(cfg, body, maxBody) && IsRun(cfg, body, trace, labels) && k < |trace|
    requires !trace[k].server.dead && t in trace[k].issued && |trace[k].issued[t]| <= cfg.big
    requires t !in trace[k].server.results && t !in trace[k].delivered
    ensures CanAnswer(cfg, body, trace[k]) <==> !Hopeless(cfg, trace[k])
  {
    hide IsRun, Inv, Hopeless, Oldest, BatchOk, CanAnswer, NeverAborts, ReplyFits, AllPackable;
    var s := trace[k];
    AnswersIff(cfg, body, trace, labels, k, t);
    RunKeeps(cfg, body, trace, labels, k);
    OldestOk(cfg, body, s);
    if !OldestFits(cfg, body, s) {
      EveryReplyFits(cfg, body, maxBody, BatchInputs(s.issued, Oldest(s.server, cfg.big)));
    }
  }

  /** No state is hopeless with single stepping, or without tickets above the limit. */
  lemma NoOversizeIsHopeful(cfg: Config, body: Body, trace: seq<Sys>, labels: seq<Label>, k: nat)
    requires IsRun(cfg, body, trace, labels) && k < |trace|
    requires cfg.singleStep || forall t :: t in trace[k].issued ==> |trace[k].issued[t]| <= cfg.big
    ensures !Hopeless(cfg, trace[k])
  {
    hide IsRun, Load;
    RunKeeps(cfg, body, trace, labels, k);
    var s := trace[k];
    InvWire(cfg, body, s);
    forall j | 0 <= j < |s.server.queue|
      ensures cfg.singleStep || s.server.queue[j].n <= cfg.big
    {
      assert EntryOk(cfg, s.issued, s.server.queue[j]);
    }
  }

  // ---------------------------------------------------------------------
  // Runs that reach these states
  // ---------------------------------------------------------------------

  /** One instruction, no registers, and a limit of one input. */
  const SMALL := Config(Shape(0, 1), 1, false)
  const ONE := Input([], false, [0])

  /** The packed form of n such inputs. */
  function PackedOnes(n: nat): seq<byte> {
    if n == 0 then [] else Pack(SMALL.sh, ONE) + PackedOnes(n - 1)
  }

  lemma PackOnes(ins: seq<Input>)
    requires ins == [ONE] || ins == [ONE, ONE]
    ensures AllPackable(SMALL.sh, ins) && PackAll(SMALL.sh, ins) == PackedOnes(|ins|) && |PackedOnes(|ins|)| == 8 * |ins|
  {
    assert Packable(SMALL.sh, ONE);
    assert [ONE][1..] == [] && [ONE, ONE][1..] == [ONE];
    assert PackAll(SMALL.sh, []) == [] && PackAll(SMALL.sh, [ONE]) == PackedOnes(1);
  }

  /** Ticket 0, one input, has been sent. */
  const SENT := Sys(Server(1, [], Idle, [[Share(0, 1)]], [8], false, map[], false, None),
                    [Message(1, PackedOnes(1))], [], map[0 := [ONE]], map[])

  lemma MergeOneEntry(e: Entry)
    requires e.n <= 1
    ensures Merge([e], 1) == Merged(e.n, [e], []) && Shares([e]) == [Share(e.ticket, e.n)] && Packed([e]) == e.packed
  {
    assert [e][..0] == [] && Merge([], 1) == Merged(0, [], []);
    assert Shares([]) == [] && Packed([]) == [];
  }

  /** A run that sends one ticket. */
  lemma SendingRun(body: Body) returns (trace: seq<Sys>, labels: seq<Label>)
    ensures IsRun(SMALL, body, trace, labels) && |labels| == 3 && trace[3] == SENT
  {
    hide PackAll, AllPackable, PackedOnes, Merge, Shares, Packed, ClientReply, Demux, Sum;
    PackOnes([ONE]);
    var e := Entry(0, 1, PackedOnes(1));
    MergeOneEntry(e);
    var s1 := Sys(Server(1, [e], Idle, [], [], false, map[], false, None), [], [], map[0 := [ONE]], map[]);
    var s2 := Sys(Server(1, [], Busy([Share(0, 1)], Message(1, PackedOnes(1))), [], [], false, map[], false, None), [], [], map[0 := [ONE]], map[]);
    trace, labels := [INIT, s1, s2, SENT], [Issue([ONE], false), PopBatch, CommitSend];
    assert Step(SMALL, body, INIT, labels[0]) == s1;
    assert Step(SMALL, body, s1, labels[1]) == s2;
    assert Step(SMALL, body, s2, labels[2]) == SENT;
  }

  lemma ExtendRun(body: Body, trace: seq<Sys>, labels: seq<Label>, l: Label)
    requires IsRun(SMALL, body, trace, labels) && Enabled(SMALL, body, trace[|labels|], l)
    ensures IsRun(SMALL, body, trace + [Step(SMALL, body, trace[|labels|], l)], labels + [l])
  {
    hide Enabled, Step;
    var t, ls := trace + [Step(SMALL, body, trace[|labels|], l)], labels + [l];
    forall k | 0 <= k < |ls|
      ensures Enabled(SMALL, body, t[k], ls[k]) && t[k + 1] == Step(SMALL, body, t[k], ls[k])
    {
      if k < |labels| {
        assert t[k] == trace[k] && t[k + 1] == trace[k + 1] && ls[k] == labels[k];
      }
    }
  }

  /** A hopeless state is reached in four steps: ticket 0 is in flight and
      within the limit, the client would answer it, and a ticket above the limit
      is scheduled. */
  lemma HopelessRun(body: Body) returns (trace: seq<Sys>, labels: seq<Label>)
    requires forall i: Input :: body(i) == []
    ensures NeverAborts(SMALL, body, 0) && IsRun(SMALL, body, trace, labels) && |labels| == 4
    ensures InFlight(trace[4], 0) && 0 in trace[4].issued && |trace[4].issued[0]| <= SMALL.big && !trace[4].server.dead
    ensures Doomed(SMALL, trace[4]) && Hopeless(SMALL, trace[4])
  {
    hide PackAll, AllPackable, PackedOnes, ClientReply, Demux, IsRun, Merge, Doomed, Hopeless, InFlight, Packable;
    trace, labels := SendingRun(body);
    PackOnes([ONE, ONE]);
    var l := Issue([ONE, ONE], false);
    assert |trace| == 4 by { TraceLength(body, trace, labels); }
    ExtendRun(body, trace, labels, l);
    assert Step(SMALL, body, SENT, l) == SPOILT;
    trace, labels := trace + [SPOILT], labels + [l];
    SpoiltIsHopeless();
  }

  /** Then ticket 1, two inputs, is scheduled. */
  const SPOILT := SENT.(server := SENT.server.(nextTicket := 2, queue := [Entry(1, 2, PackedOnes(2))]),
                        issued := map[0 := [ONE], 1 := [ONE, ONE]])

  lemma SpoiltIsHopeless()
    ensures Doomed(SMALL, SPOILT) && Hopeless(SMALL, SPOILT) && InFlight(SPOILT, 0)
  {
    hide PackedOnes;
    var e := Entry(1, 2, PackedOnes(2));
    assert SPOILT.server.queue[0].n > 1;
    assert [e][..0] == [] && FitBytes([], 1) == 0 && FitBytes([e], 1) == 0;
    assert [8][1..] == [] && Sum([]) == 0 && Sum([8]) == 8;
    var b := [Share(0, 1)];
    assert BatchTickets(b)[0] == 0 && [b][1..] == [];
    assert 0 in FlightTickets([b]);
  }

  lemma TraceLength(body: Body, trace: seq<Sys>, labels: seq<Label>)
    requires IsRun(SMALL, body, trace, labels)
    ensures |trace| == |labels| + 1
  {
  }

  /** A client that will abort is reached in three steps, with a body too long
      for its frame. */
  lemma AbortingRun(body: Body) returns (trace: seq<Sys>, labels: seq<Label>)
    requires forall i: Input :: |body(i)| == U16
    ensures IsRun(SMALL, body, trace, labels) && |labels| == 3 && |trace| == 4 && Aborts(SMALL, body, trace[3])
  {
    hide PackAll, AllPackable, PackedOnes, ClientReply, Demux, IsRun, Merge, Aborts, Frames;
    trace, labels := SendingRun(body);
    assert |trace| == 4 by { TraceLength(body, trace, labels); }
    AbortsIff(SMALL, body, trace, labels, 3);
    var b := [Share(0, 1)];
    assert b[1..] == [] && BatchInputs(SENT.issued, []) == [] && BatchInputs(SENT.issued, b) == [ONE] + [];
    assert Bodies(body, [ONE])[0] == body(ONE);
    assert [ONE] + [] == [ONE];
  }
}
