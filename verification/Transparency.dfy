/** What the protocol invariant means for callers: transparency, conservation, release and progress. */
module Transparency {
  import opened Bytes
  import opened InputCodec
  import opened Batching
  import opened Protocol
  import ResultCodec
  import ResultRoundTrip

  // ---------------------------------------------------------------------
  // Transparency
  // ---------------------------------------------------------------------

  /** The bytes a ticket gets when its inputs are the only ones ever sent. */
  function Alone(cfg: Config, body: Body, ins: seq<Input>, stale: seq<byte>): Option<seq<byte>>
    requires AllPackable(cfg.sh, ins)
  {
    var reply := ClientReply(cfg, body, Message(|ins|, PackAll(cfg.sh, ins)), stale);
    if reply.None? then None
    else
      var d := Demux(reply.value, 0, [Share(0, |ins|)], map[]);
      if d.None? || 0 !in d.value then None else Some(d.value[0])
  }

  lemma AloneBytes(cfg: Config, body: Body, ins: seq<Input>, stale: seq<byte>)
    requires AllPackable(cfg.sh, ins) && |ins| <= cfg.big
    ensures Alone(cfg, body, ins, stale) == if ReplyFits(Bodies(body, ins)) then Some(Concat(Bodies(body, ins))) else None
  {
    hide Walk, PackAll, Frames, ClientReply, Demux, AllPackable, Concat, Bodies, ReplyFits;
    var issued := map[0 := ins];
    var b := [Share(0, |ins|)];
    assert BatchInputs(issued, b) == ins by {
      assert b[1..] == [] && BatchInputs(issued, []) == [] && ins + [] == ins;
    }
    ClientAnswers(cfg, body, issued, b, Message(|ins|, PackAll(cfg.sh, ins)), stale);
    if ReplyFits(Bodies(body, ins)) {
      var data := Frames(Bodies(body, ins));
      DemuxRoundTrip(body, issued, [], b, map[]);
      assert [] + data == data;
      assert Answered(body, issued, b, map[]) == map[0 := Concat(Bodies(body, ins))] by {
        assert b[1..] == [];
        assert Answered(body, issued, [], map[0 := Concat(Bodies(body, ins))]) == map[0 := Concat(Bodies(body, ins))];
      }
    }
  }

  /** Batching is transparent over every run: whatever was merged with it and
      in whichever order things happened, a ticket's getter receives the bodies
      of the ticket's own inputs in order, the same bytes as if it had been
      sent alone. */
  lemma BatchingIsTransparent(cfg: Config, body: Body, trace: seq<Sys>, labels: seq<Label>, k: nat, t: nat, stale: seq<byte>)
    requires IsRun(cfg, body, trace, labels) && k < |trace|
    requires t in trace[k].delivered
    ensures t in trace[k].issued
    ensures trace[k].delivered[t] == Concat(Bodies(body, trace[k].issued[t]))
    ensures AllPackable(cfg.sh, trace[k].issued[t])
    ensures Alone(cfg, body, trace[k].issued[t], stale) == Some(trace[k].delivered[t])
  {
    hide IsRun, Alone, QueueOk, WireOk, Conserved, Concat, Bodies, ReplyFits, AllPackable;
    RunKeeps(cfg, body, trace, labels, k);
    AnsweredWithinLimit(cfg, body, trace, labels, k, t);
    AloneBytes(cfg, body, trace[k].issued[t], stale);
  }

  // ---------------------------------------------------------------------
  // Tickets above the limit
  // ---------------------------------------------------------------------

  /** Tickets with more inputs than the limit are still in the queue. */
  ghost predicate OversizeQueued(cfg: Config, s: Sys) {
    forall t :: t in s.issued && |s.issued[t]| > cfg.big ==> InQueue(s, t)
  }

  lemma InTickets(q: seq<Entry>, t: nat)
    ensures t in QueueTickets(q) <==> exists j :: 0 <= j < |q| && q[j].ticket == t
  {
    var ts := QueueTickets(q);
    assert |ts| == |q| && forall j :: 0 <= j < |q| ==> ts[j] == q[j].ticket;
  }

  lemma PopKeepsOversize(cfg: Config, s: Sys, t: nat)
    requires QueueOk(cfg, s) && t in s.issued && |s.issued[t]| > cfg.big && InQueue(s, t)
    ensures t in QueueTickets(Merge(s.server.queue, cfg.big).rest)
  {
    hide Merge, QueueTickets, Picked;
    var q := s.server.queue;
    InTickets(q, t);
    var j :| 0 <= j < |q| && q[j].ticket == t;
    assert EntryOk(cfg, s.issued, q[j]);
    assert !Picked(q, cfg.big, j) by { NotPicked(q, cfg.big, j); }
    MergeKeepsEntry(q, cfg.big, j);
    InTickets(Merge(q, cfg.big).rest, t);
  }

  lemma NotPicked(q: seq<Entry>, big: nat, p: nat)
    requires p < |q| && q[p].n > big
    ensures !Picked(q, big, p)
  {
    hide Merge;
  }

  lemma StepKeepsOversize(cfg: Config, body: Body, s: Sys, l: Label)
    requires QueueOk(cfg, s) && OversizeQueued(cfg, s) && IssuedOk(cfg, s) && Enabled(cfg, body, s, l)
    ensures OversizeQueued(cfg, Step(cfg, body, s, l))
  {
    hide ClientReply, Demux, Merge, CanSchedule, PackAll, AllPackable, Sum, QueueTickets, QueueOk, IssuedOk;
    var s' := Step(cfg, body, s, l);
    forall t | t in s'.issued && |s'.issued[t]| > cfg.big
      ensures InQueue(s', t)
    {
      match l
      case Issue(ins, priority) =>
        var e := Entry(s.server.nextTicket, |ins|, PackAll(cfg.sh, ins));
        QueueTicketsSnoc(s.server.queue, e);
        QueueTicketsCons(s.server.queue, e);
        if t != e.ticket {
          assert InQueue(s, t);
        }
      case PopBatch => assert InQueue(s, t); PopKeepsOversize(cfg, s, t);
      case _ => assert InQueue(s, t);
    }
  }

  lemma {:induction false} RunKeepsOversize(cfg: Config, body: Body, trace: seq<Sys>, labels: seq<Label>, k: nat)
    requires IsRun(cfg, body, trace, labels) && k < |trace|
    ensures OversizeQueued(cfg, trace[k])
  {
    hide Enabled, Step, OversizeQueued, Inv;
    if k == 0 {
      assert OversizeQueued(cfg, INIT) by { NothingOversize(cfg); }
    } else {
      RunKeepsOversize(cfg, body, trace, labels, k - 1);
      RunKeeps(cfg, body, trace, labels, k - 1);
      assert QueueOk(cfg, trace[k - 1]) && IssuedOk(cfg, trace[k - 1]) by { InvQueue(cfg, body, trace[k - 1]); }
      assert Enabled(cfg, body, trace[k - 1], labels[k - 1]);
      StepKeepsOversize(cfg, body, trace[k - 1], labels[k - 1]);
    }
  }

  lemma NothingOversize(cfg: Config)
    ensures OversizeQueued(cfg, INIT)
  {
  }

  lemma InvQueue(cfg: Config, body: Body, s: Sys)
    requires Inv(cfg, body, s)
    ensures QueueOk(cfg, s) && IssuedOk(cfg, s)
  {
  }

  /** In no reachable state is a ticket above the limit being sent, in flight,
      answered or delivered: it stays in the queue for ever. */
  lemma OversizeIsNeverSent(cfg: Config, body: Body, trace: seq<Sys>, labels: seq<Label>, k: nat, t: nat)
    requires IsRun(cfg, body, trace, labels) && k < |trace|
    requires t in trace[k].issued && |trace[k].issued[t]| > cfg.big
    ensures var s := trace[k];
      InQueue(s, t) && !BeingSent(s, t) && !InFlight(s, t) && t !in s.server.results && t !in s.delivered
  {
    hide IsRun, InQueue, BeingSent, InFlight, Located;
    RunKeepsOversize(cfg, body, trace, labels, k);
    TicketIsInOnePlace(cfg, body, trace, labels, k, t);
  }

  /** So whatever left the queue is within the limit. */
  lemma AnsweredWithinLimit(cfg: Config, body: Body, trace: seq<Sys>, labels: seq<Label>, k: nat, t: nat)
    requires IsRun(cfg, body, trace, labels) && k < |trace| && t in trace[k].issued
    requires var s := trace[k]; BeingSent(s, t) || InFlight(s, t) || t in s.server.results || t in s.delivered
    ensures |trace[k].issued[t]| <= cfg.big
  {
    hide IsRun, InQueue, BeingSent, InFlight;
    if |trace[k].issued[t]| > cfg.big {
      OversizeIsNeverSent(cfg, body, trace, labels, k, t);
    }
  }

  // ---------------------------------------------------------------------
  // End to end, down to parsed results
  // ---------------------------------------------------------------------

  /** A client machine: the registers an input starts from and what running it gives. */
  type Machine = Input -> (seq<nat>, ResultCodec.Reply)

  /** Outcomes fit their C types. */
  ghost predicate MachineOk(f: ResultCodec.Flags, machine: Machine) {
    var slots := ResultCodec.ClientSlots(f);
    forall i: Input ::
      && |machine(i).0| == |slots|
      && ResultCodec.ReplyInRange(slots, machine(i).1)
  }

  /** The frame body the packers produce for an input. */
  function BodyOf(f: ResultCodec.Flags, machine: Machine): Body {
    var slots := ResultCodec.ClientSlots(f);
    (i: Input) =>
      if |machine(i).0| == |slots| && ResultCodec.ReplyInRange(slots, machine(i).1)
      then ResultCodec.EncBody(f, slots, machine(i).0, machine(i).1)
      else []
  }

  function Befores(machine: Machine, ins: seq<Input>): (bs: seq<seq<nat>>)
    ensures |bs| == |ins|
    ensures forall k :: 0 <= k < |ins| ==> bs[k] == machine(ins[k]).0
  {
    if ins == [] then [] else [machine(ins[0]).0] + Befores(machine, ins[1..])
  }

  function Replies(machine: Machine, ins: seq<Input>): (rs: seq<ResultCodec.Reply>)
    ensures |rs| == |ins|
    ensures forall k :: 0 <= k < |ins| ==> rs[k] == machine(ins[k]).1
  {
    if ins == [] then [] else [machine(ins[0]).1] + Replies(machine, ins[1..])
  }

  lemma {:induction false} BodiesAreEncBodies(f: ResultCodec.Flags, machine: Machine, ins: seq<Input>)
    requires MachineOk(f, machine)
    ensures Concat(Bodies(BodyOf(f, machine), ins))
      == ResultRoundTrip.EncBodies(f, ResultCodec.ClientSlots(f), Befores(machine, ins), Replies(machine, ins))
  {
    hide ResultCodec.ReplyInRange, ResultCodec.ClientSlots, ResultCodec.EncBody;
    if ins != [] {
      BodiesAreEncBodies(f, machine, ins[1..]);
      assert Bodies(BodyOf(f, machine), ins)[1..] == Bodies(BodyOf(f, machine), ins[1..]);
      assert Befores(machine, ins)[1..] == Befores(machine, ins[1..]);
      assert Replies(machine, ins)[1..] == Replies(machine, ins[1..]);
    }
  }

  /** In every run, for every delivered ticket, get_results returns one parsed
      result per input, in order, each the view of what the machine did with
      that input. Only for a ticket without inputs it fails: there is no byte to
      read a tag from. */
  lemma EndToEnd(f: ResultCodec.Flags, cfg: Config, machine: Machine, trace: seq<Sys>, labels: seq<Label>, k: nat, t: nat)
    requires ResultCodec.Buildable(f) && MachineOk(f, machine)
    requires IsRun(cfg, BodyOf(f, machine), trace, labels) && k < |trace|
    requires t in trace[k].delivered
    ensures t in trace[k].issued
    ensures ResultCodec.SlotsFit(ResultCodec.ClientSlots(f), ResultCodec.ServerNames(f))
    ensures var ins := trace[k].issued[t];
      ins != [] ==>
        ResultCodec.ParseAll(trace[k].delivered[t], f, ResultCodec.ServerNames(f))
        == ResultCodec.Ok(ResultRoundTrip.ReplyViews(f, ResultCodec.ClientSlots(f), ResultCodec.ServerNames(f),
                                                     Befores(machine, ins), Replies(machine, ins)))
    ensures trace[k].issued[t] == [] ==>
      ResultCodec.ParseAll(trace[k].delivered[t], f, ResultCodec.ServerNames(f)) == ResultCodec.Err(ResultCodec.StructError)
  {
    hide IsRun, ResultCodec.ReplyInRange, ResultCodec.ClientSlots, ResultCodec.ServerNames, ResultCodec.EncBody, ResultCodec.ParseAll;
    ResultCodec.LayoutsAgree(f);
    var body := BodyOf(f, machine);
    BatchingIsTransparent(cfg, body, trace, labels, k, t, []);
    var ins := trace[k].issued[t];
    BodiesAreEncBodies(f, machine, ins);
    if ins == [] {
      NothingToParse(f, ResultCodec.ServerNames(f));
    } else {
      ResultRoundTrip.BodiesRoundTrip(f, ResultCodec.ClientSlots(f), ResultCodec.ServerNames(f), Befores(machine, ins), Replies(machine, ins));
    }
  }

  lemma NothingToParse(f: ResultCodec.Flags, names: seq<ResultCodec.RegName>)
    ensures ResultCodec.ParseAll([], f, names) == ResultCodec.Err(ResultCodec.StructError)
  {
  }

  // ---------------------------------------------------------------------
  // Conservation and release
  // ---------------------------------------------------------------------

  ghost predicate InQueue(s: Sys, t: nat) {
    t in QueueTickets(s.server.queue)
  }

  ghost predicate BeingSent(s: Sys, t: nat) {
    t in SendingTickets(s.server.sending)
  }

  ghost predicate InFlight(s: Sys, t: nat) {
    t in FlightTickets(s.server.inFlight)
  }

  function Count(b: bool): nat {
    if b then 1 else 0
  }

  /** In every reachable state every issued ticket is in exactly one place,
      and occurs there once; tickets never issued are nowhere. */
  lemma TicketIsInOnePlace(cfg: Config, body: Body, trace: seq<Sys>, labels: seq<Label>, k: nat, t: nat)
    requires IsRun(cfg, body, trace, labels) && k < |trace|
    ensures var s := trace[k];
      && Located(s)[t] == Count(t < s.server.nextTicket)
      && Count(InQueue(s, t)) + Count(BeingSent(s, t)) + Count(InFlight(s, t))
           + Count(t in s.server.results) + Count(t in s.delivered)
         == Count(t < s.server.nextTicket)
  {
    hide IsRun, QueueTickets, SendingTickets, FlightTickets, WireOk, QueueOk, BytesOk;
    RunKeeps(cfg, body, trace, labels, k);
    var s := trace[k];
    assert t in s.issued.Keys <==> t < s.server.nextTicket;
    assert Located(s)[t] == multiset(s.issued.Keys)[t];
    var q, x, f := QueueTickets(s.server.queue), SendingTickets(s.server.sending), FlightTickets(s.server.inFlight);
    var mq: multiset<nat>, mx: multiset<nat>, mf: multiset<nat> := multiset(q), multiset(x), multiset(f);
    assert InQueue(s, t) <==> mq[t] > 0;
    assert BeingSent(s, t) <==> mx[t] > 0;
    assert InFlight(s, t) <==> mf[t] > 0;
  }

  /** What a dead client remembers stays what it was when it died. */
  ghost predicate DeathOk(s: Server) {
    s.dead ==> s.savedTickets == if s.inFlight != [] then Some(BatchTickets(s.inFlight[0])) else None
  }

  lemma BornAlive()
    ensures DeathOk(INIT.server)
  {
  }

  lemma StepDeath(cfg: Config, body: Body, s: Sys, l: Label)
    requires DeathOk(s.server) && Enabled(cfg, body, s, l)
    ensures DeathOk(Step(cfg, body, s, l).server)
  {
    hide ClientReply, CanSchedule, PackAll, Demux, Merge, BatchTickets, Sum;
  }

  lemma {:induction false} RunDeath(cfg: Config, body: Body, trace: seq<Sys>, labels: seq<Label>, k: nat)
    requires IsRun(cfg, body, trace, labels) && k < |trace|
    ensures DeathOk(trace[k].server)
  {
    hide Enabled, Step, DeathOk;
    if k > 0 {
      RunDeath(cfg, body, trace, labels, k - 1);
      assert Enabled(cfg, body, trace[k - 1], labels[k - 1]);
      StepDeath(cfg, body, trace[k - 1], labels[k - 1]);
    } else {
      assert DeathOk(INIT.server) by { BornAlive(); }
    }
  }

  /** Once the client is dead every getter proceeds; a getter without data is
      told "unrelated" unless its ticket is in the oldest batch in flight, and
      the tickets of that batch are exactly the undelivered ones told otherwise. */
  lemma DeathReleasesGetters(cfg: Config, body: Body, trace: seq<Sys>, labels: seq<Label>, k: nat, t: nat)
    requires IsRun(cfg, body, trace, labels) && k < |trace|
    requires trace[k].server.dead
    ensures var s := trace[k].server;
      && CanGet(s, t)
      && (GetAnswer(s, t) == Lost(false) <==> s.inFlight != [] && t in BatchTickets(s.inFlight[0]))
      && (GetAnswer(s, t).Data? <==> t in s.results)
  {
    hide IsRun, QueueTickets, BatchTickets, WireOk, QueueOk, BytesOk, IssuedOk;
    RunKeeps(cfg, body, trace, labels, k);
    RunDeath(cfg, body, trace, labels, k);
    var s := trace[k];
    FlightOrResult(s, t);
  }

  /** A ticket in the oldest batch in flight has no result yet. */
  lemma FlightOrResult(s: Sys, t: nat)
    requires Conserved(s)
    ensures !(s.server.inFlight != [] && t in BatchTickets(s.server.inFlight[0]) && t in s.server.results)
  {
    hide QueueTickets, BatchTickets;
    var flight := s.server.inFlight;
    assert flight != [] ==> FlightTickets(flight) == BatchTickets(flight[0]) + FlightTickets(flight[1..]);
    assert Located(s)[t] >= multiset(FlightTickets(flight))[t] + multiset(s.server.results.Keys)[t];
    assert multiset(s.issued.Keys)[t] <= 1;
  }

  // ---------------------------------------------------------------------
  // Progress of the merge
  // ---------------------------------------------------------------------

  /** Where entry p of the queue is after a merge that did not take it. */
  function Moved(q: seq<Entry>, big: nat, p: nat): (p': nat)
    requires p < |q|
    ensures p' <= p
  {
    assert |Merge(q[..p], big).taken| <= p;
    p - |Merge(q[..p], big).taken|
  }

  lemma {:induction false} PrefixRest(q: seq<Entry>, big: nat, p: nat)
    requires p <= |q|
    ensures Merge(q[..p], big).rest <= Merge(q, big).rest
    ensures Merge(q[..p], big).taken <= Merge(q, big).taken
  {
    if p < |q| {
      PrefixRest(q[..|q| - 1], big, p);
      assert q[..|q| - 1][..p] == q[..p];
    } else {
      assert q[..p] == q;
    }
  }

  /** An entry is either taken or moves up by the number of entries taken
      before it; if the head fits at all, it is taken, so everything moves. */
  lemma MergeMoves(q: seq<Entry>, big: nat, p: nat)
    requires p < |q|
    ensures Picked(q, big, p) ==> q[p] in Merge(q, big).taken
    ensures !Picked(q, big, p) ==> Moved(q, big, p) < |Merge(q, big).rest| && Merge(q, big).rest[Moved(q, big, p)] == q[p]
    ensures Picked(q, big, 0) <==> q[0].n <= big
    ensures q[0].n <= big && p > 0 ==> Moved(q, big, p) < p
  {
    hide Merge, Picked, Moved;
    MergeKeepsEntry(q, big, p);
    HeadIsTaken(q, big, p);
  }

  lemma MergeKeepsEntry(q: seq<Entry>, big: nat, p: nat)
    requires p < |q|
    ensures Picked(q, big, p) ==> q[p] in Merge(q, big).taken
    ensures !Picked(q, big, p) ==> Moved(q, big, p) < |Merge(q, big).rest| && Merge(q, big).rest[Moved(q, big, p)] == q[p]
  {
    hide Merge, Picked, Shares, Packed, Picks;
    MergeOne(q, big, p);
    PrefixRest(q, big, p + 1);
    var m, m0 := Merge(q[..p + 1], big), Merge(q[..p], big);
    if Picked(q, big, p) {
      InPrefix(m0.taken, q[p], Merge(q, big).taken);
    } else {
      InPrefix(m0.rest, q[p], Merge(q, big).rest);
    }
  }

  lemma InPrefix<T>(a: seq<T>, x: T, b: seq<T>)
    requires a + [x] <= b
    ensures |a| < |b| && b[|a|] == x && x in b
  {
    assert (a + [x])[|a|] == x;
  }

  lemma HeadIsTaken(q: seq<Entry>, big: nat, p: nat)
    requires p < |q|
    ensures Picked(q, big, 0) <==> q[0].n <= big
    ensures q[0].n <= big && p > 0 ==> Moved(q, big, p) < p
  {
    hide Merge, Shares, Packed, Picks;
    MergeNothing(big);
    assert q[..0] == [];
    if q[0].n <= big && p > 0 {
      MergeOne(q, big, 0);
      PrefixRest(q[..p], big, 1);
      assert q[..p][..1] == q[..1];
    }
  }

  /** The entry at position p is taken within the given number of merges,
      arrivals[i] being appended after the i-th. */
  ghost predicate TakenWithin(q: seq<Entry>, big: nat, arrivals: seq<seq<Entry>>, p: nat, rounds: nat)
    requires p < |q| && rounds <= |arrivals|
    decreases rounds
  {
    && rounds > 0
    && (Picked(q, big, p)
        || (Moved(q, big, p) < |Merge(q, big).rest + arrivals[0]|
            && TakenWithin(Merge(q, big).rest + arrivals[0], big, arrivals[1..], Moved(q, big, p), rounds - 1)))
  }

  /** No starvation: without priority entries, an entry at position p is sent
      within p + 1 merges, whatever stands around it and whatever arrives
      meanwhile, exactly when it is within the limit. An entry above the limit,
      which the commented-out check would refuse, is never sent. */
  lemma {:induction false} NoStarvation(q: seq<Entry>, big: nat, arrivals: seq<seq<Entry>>, p: nat, rounds: nat)
    requires p < |q| && p + 1 <= rounds <= |arrivals|
    ensures TakenWithin(q, big, arrivals, p, rounds) <==> q[p].n <= big
    decreases p
  {
    hide Merge, TakenWithin;
    if q[p].n > big {
      OversizeStarves(q, big, arrivals, p, rounds);
    } else {
      FittingMoves(q, big, p);
      assert TakenWithin(q, big, arrivals, p, rounds) by {
        if Picked(q, big, p) {
          TakenNow(q, big, arrivals, p, rounds);
        } else {
          NoStarvation(Merge(q, big).rest + arrivals[0], big, arrivals[1..], Moved(q, big, p), rounds - 1);
          TakenLater(q, big, arrivals, p, rounds);
        }
      }
    }
  }

  lemma TakenNow(q: seq<Entry>, big: nat, arrivals: seq<seq<Entry>>, p: nat, rounds: nat)
    requires p < |q| && 0 < rounds <= |arrivals| && Picked(q, big, p)
    ensures TakenWithin(q, big, arrivals, p, rounds)
  {
  }

  lemma TakenLater(q: seq<Entry>, big: nat, arrivals: seq<seq<Entry>>, p: nat, rounds: nat)
    requires p < |q| && 0 < rounds <= |arrivals| && Moved(q, big, p) < |Merge(q, big).rest + arrivals[0]|
    requires TakenWithin(Merge(q, big).rest + arrivals[0], big, arrivals[1..], Moved(q, big, p), rounds - 1)
    ensures TakenWithin(q, big, arrivals, p, rounds)
  {
    hide Merge, Picked;
  }

  /** An entry that fits is taken, or something before it is and it moves up:
      if nothing before it is taken, nothing is in its way. */
  lemma FittingMoves(q: seq<Entry>, big: nat, p: nat)
    requires p < |q| && q[p].n <= big
    ensures Picked(q, big, p) || Moved(q, big, p) < p
    ensures !Picked(q, big, p) ==> Moved(q, big, p) < |Merge(q, big).rest| && Merge(q, big).rest[Moved(q, big, p)] == q[p]
  {
    hide Merge;
    MergeKeepsEntry(q, big, p);
    if |Merge(q[..p], big).taken| == 0 {
      NothingTaken(q[..p], big);
    }
  }

  lemma {:induction false} NothingTaken(q: seq<Entry>, big: nat)
    requires Merge(q, big).taken == []
    ensures Merge(q, big).total == 0
  {
    if q != [] {
      NothingTaken(q[..|q| - 1], big);
    }
  }

  /** An entry above the limit is never taken, and a queue holding only such an
      entry is sent as empty batches. */
  lemma {:induction false} OversizeStarves(q: seq<Entry>, big: nat, arrivals: seq<seq<Entry>>, p: nat, rounds: nat)
    requires p < |q| && rounds <= |arrivals| && q[p].n > big
    ensures !TakenWithin(q, big, arrivals, p, rounds)
    ensures |q| == 1 ==> Merge(q, big) == Merged(0, [], q)
    decreases rounds
  {
    if |q| == 1 {
      assert q[..0] == [] && Merge(q[..0], big) == Merged(0, [], []);
      assert [q[0]] == q;
    }
    if rounds > 0 {
      MergeMoves(q, big, p);
      var q' := Merge(q, big).rest + arrivals[0];
      assert q'[Moved(q, big, p)] == q[p];
      OversizeStarves(q', big, arrivals[1..], Moved(q, big, p), rounds - 1);
    }
  }
}
