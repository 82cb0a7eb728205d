/**
 The server's side of one client connection (RealClient): what each step does
 to the state, and the class that runs the loops and is proved to do that.
 */
module Batching {
  import opened Bytes

  /** Bytes that may be in flight to one client. */
  const MAX_IN_FLIGHT_BYTES: nat := 524288

  /** A queue entry: ticket, number of results, packed inputs. */
  datatype Entry = Entry(ticket: nat, n: nat, packed: seq<byte>)

  /** A ticket's part of a batch in flight. */
  datatype Share = Share(ticket: nat, n: nat)

  datatype Message = Message(n: nat, packed: seq<byte>)

  /** A batch taken from the queue whose message is being written to the socket. */
  datatype Sending = Idle | Busy(batch: seq<Share>, msg: Message)

  /** The connection; receiving says that the sending loop has ended and the
      process waits for one reply. */
  datatype Server = Server(
    nextTicket: nat, queue: seq<Entry>,
    sending: Sending, inFlight: seq<seq<Share>>, inFlightBytes: seq<nat>, receiving: bool,
    results: map<nat, seq<byte>>, dead: bool, savedTickets: Option<seq<nat>>)

  // ---------------------------------------------------------------------
  // Merging
  // ---------------------------------------------------------------------

  datatype Merged = Merged(total: nat, taken: seq<Entry>, rest: seq<Entry>)

  /** One pass over the queue: take every entry that still fits under big. */
  function Merge(q: seq<Entry>, big: nat): (m: Merged)
    ensures m.total <= big
    ensures |m.taken| + |m.rest| == |q|
  {
    if q == [] then Merged(0, [], [])
    else
      var m := Merge(q[..|q| - 1], big);
      var e := q[|q| - 1];
      if m.total + e.n <= big then Merged(m.total + e.n, m.taken + [e], m.rest)
      else Merged(m.total, m.taken, m.rest + [e])
  }

  function Shares(es: seq<Entry>): (s: seq<Share>)
    ensures |s| == |es|
    ensures forall i :: 0 <= i < |es| ==> s[i] == Share(es[i].ticket, es[i].n)
  {
    if es == [] then [] else Shares(es[..|es| - 1]) + [Share(es[|es| - 1].ticket, es[|es| - 1].n)]
  }

  function Packed(es: seq<Entry>): seq<byte> {
    if es == [] then [] else Packed(es[..|es| - 1]) + es[|es| - 1].packed
  }

  // ---------------------------------------------------------------------
  // Splitting a reply
  // ---------------------------------------------------------------------

  /** Result frames as the client writes them. */
  function Frames(bodies: seq<seq<byte>>): seq<byte> {
    if bodies == [] then [] else Frame(bodies[0]) + Frames(bodies[1..])
  }

  function Concat(bodies: seq<seq<byte>>): seq<byte> {
    if bodies == [] then [] else bodies[0] + Concat(bodies[1..])
  }

  /** data[a:b] as Python slices it. */
  function Slice(data: seq<byte>, a: nat, b: nat): seq<byte>
    requires a <= b
  {
    data[Min(a, |data|)..Min(b, |data|)]
  }

  /** The bodies of n frames from offset at on, and the offset behind them;
      None when a length field is cut short. */
  function TakeFrames(data: seq<byte>, at: nat, n: nat, acc: seq<byte>): Option<(seq<byte>, nat)>
    decreases n
  {
    if n == 0 then Some((acc, at))
    else if at + 2 > |data| then None
    else
      var len := FromLE(data[at..at + 2]);
      TakeFrames(data, at + 2 + len, n - 1, acc + Slice(data, at + 2, at + 2 + len))
  }

  /** The results map after a reply for the given batch has been split. */
  function Demux(data: seq<byte>, at: nat, batch: seq<Share>, results: map<nat, seq<byte>>): Option<map<nat, seq<byte>>>
    decreases |batch|
  {
    if batch == [] then Some(results)
    else
      var t := TakeFrames(data, at, batch[0].n, []);
      if t.None? then None
      else Demux(data, t.value.1, batch[1..], results[batch[0].ticket := t.value.0])
  }

  // ---------------------------------------------------------------------
  // Steps
  // ---------------------------------------------------------------------

  predicate CanSchedule(packed: seq<byte>) {
    |packed| < MAX_IN_FLIGHT_BYTES
  }

  function Schedule(s: Server, n: nat, packed: seq<byte>, priority: bool): Server {
    var e := Entry(s.nextTicket, n, packed);
    s.(nextTicket := s.nextTicket + 1,
       queue := if priority then [e] + s.queue else s.queue + [e])
  }

  /** The sending loop goes round once more: its condition holds and neither
      of its breaks is taken. */
  predicate SendsMore(s: Server, singleStep: bool) {
    && (s.inFlight == [] || Sum(s.inFlightBytes) < MAX_IN_FLIGHT_BYTES)
    && !(singleStep && |s.inFlight| == 1)
    && s.queue != []
  }

  predicate CanPop(s: Server, singleStep: bool) {
    !s.dead && s.sending.Idle? && !s.receiving && SendsMore(s, singleStep)
  }

  predicate CanStop(s: Server, singleStep: bool) {
    !s.dead && s.sending.Idle? && !s.receiving && !SendsMore(s, singleStep)
  }

  /** The sending loop ends; only then is the socket read. */
  function StopSending(s: Server): Server {
    s.(receiving := true)
  }

  predicate CanTimeOut(s: Server) {
    !s.dead && s.receiving
  }

  /** Nothing arrived in time: back to the sending loop. */
  function TimeOut(s: Server): Server {
    s.(receiving := false)
  }

  /** The merge under the queue lock. */
  function Pop(s: Server, big: nat): Server {
    var m := Merge(s.queue, big);
    s.(queue := m.rest, sending := Busy(Shares(m.taken), Message(m.total, Packed(m.taken))))
  }

  /** Both messages are written; the batch is now in flight. */
  function Commit(s: Server): Server
    requires s.sending.Busy?
  {
    s.(sending := Idle,
       inFlight := s.inFlight + [s.sending.batch],
       inFlightBytes := s.inFlightBytes + [|s.sending.msg.packed|])
  }

  predicate CanReceive(s: Server, data: seq<byte>) {
    && !s.dead && s.sending.Idle? && s.receiving && s.inFlight != [] && s.inFlightBytes != []
    && Demux(data, 0, s.inFlight[0], s.results).Some?
  }

  function Receive(s: Server, data: seq<byte>): Server
    requires CanReceive(s, data)
  {
    s.(inFlight := s.inFlight[1..], inFlightBytes := s.inFlightBytes[1..], receiving := false,
       results := Demux(data, 0, s.inFlight[0], s.results).value)
  }

  /** get_results stops waiting. */
  predicate CanGet(s: Server, ticket: nat) {
    ticket in s.results || s.dead
  }

  datatype Got = Data(bytes: seq<byte>) | Lost(unrelated: bool)

  function GetAnswer(s: Server, ticket: nat): Got {
    if ticket in s.results then Data(s.results[ticket])
    else Lost(s.savedTickets.None? || ticket !in s.savedTickets.value)
  }

  function Get(s: Server, ticket: nat): Server {
    s.(results := s.results - {ticket})
  }

  function BatchTickets(b: seq<Share>): (ts: seq<nat>)
    ensures |ts| == |b|
    ensures forall i :: 0 <= i < |b| ==> ts[i] == b[i].ticket
  {
    if b == [] then [] else [b[0].ticket] + BatchTickets(b[1..])
  }

  /** A socket error anywhere in the loop ends it. */
  function Die(s: Server): Server {
    s.(dead := true,
       savedTickets := if s.inFlight != [] then Some(BatchTickets(s.inFlight[0])) else None)
  }

  // ---------------------------------------------------------------------
  // The running class
  // ---------------------------------------------------------------------

  class RealClient {
    const big: nat
    const singleStep: bool
    var nextTicket: nat
    var queue: seq<Entry>
    var sending: Sending
    var inFlight: seq<seq<Share>>
    var inFlightBytes: seq<nat>
    var receiving: bool
    var results: map<nat, seq<byte>>
    var dead: bool
    var savedTickets: Option<seq<nat>>

    ghost function View(): Server
      reads this
    {
      Server(nextTicket, queue, sending, inFlight, inFlightBytes, receiving, results, dead, savedTickets)
    }

    constructor (big: nat, singleStep: bool)
      ensures this.big == big && this.singleStep == singleStep
      ensures View() == Server(0, [], Idle, [], [], false, map[], false, None)
    {
      this.big, this.singleStep := big, singleStep;
      nextTicket, queue, sending, inFlight, inFlightBytes := 0, [], Idle, [], [];
      receiving, results, dead, savedTickets := false, map[], false, None;
    }

    /** schedule_packed_inputs; None when its assertion on the size fails. */
    method SchedulePackedInputs(n: nat, packed: seq<byte>, priority: bool) returns (ticket: Option<nat>)
      modifies this
      ensures ticket.Some? <==> CanSchedule(packed)
      ensures ticket.Some? ==> ticket.value == old(nextTicket) && View() == Schedule(old(View()), n, packed, priority)
      ensures ticket.None? ==> View() == old(View())
    {
      if |packed| >= MAX_IN_FLIGHT_BYTES {
        return None;
      }
      ticket := Some(nextTicket);
      var entry := Entry(nextTicket, n, packed);
      nextTicket := nextTicket + 1;
      if priority {
        queue := [entry] + queue;
      } else {
        queue := queue + [entry];
      }
    }

    /** The merge of the sending loop: collect what fits, then pop the
        collected indices with a growing shift. */
    method MergeQueue()
      requires CanPop(View(), singleStep)
      modifies this`queue, this`sending
      ensures View() == Pop(old(View()), big)
    {
      hide Merge, Picks, Shares, Packed;
      ghost var q0 := queue;
      var absoluteN := 0;
      var inputs: seq<Share> := [];
      var packedInputs: seq<byte> := [];
      var pop: seq<nat> := [];
      assert q0[..0] == [];
      MergeNothing(big);
      for i := 0 to |queue|
        invariant queue == q0
        invariant absoluteN == Merge(q0[..i], big).total
        invariant inputs == Shares(Merge(q0[..i], big).taken)
        invariant packedInputs == Packed(Merge(q0[..i], big).taken)
        invariant pop == Picks(q0[..i], big)
      {
        MergeOne(q0, big, i);
        var e := queue[i];
        if absoluteN + e.n <= big {
          absoluteN := absoluteN + e.n;
          inputs := inputs + [Share(e.ticket, e.n)];
          packedInputs := packedInputs + e.packed;
          pop := pop + [i];
        }
      }
      assert q0[..|q0|] == q0;
      PopPicked(pop);
      sending := Busy(inputs, Message(absoluteN, packedInputs));
    }

    /** The index-shifting pops leave exactly the entries that were not picked, in order. */
    method PopPicked(pop: seq<nat>)
      requires pop == Picks(queue, big)
      modifies this`queue
      ensures queue == Merge(old(queue), big).rest
    {
      hide Merge, Picks, Remaining;
      ghost var q0 := queue;
      RemainingEnds(q0, big);
      for popShift := 0 to |pop|
        invariant queue == Remaining(q0, big, popShift)
      {
        RemainingStep(q0, big, popShift);
        var at := pop[popShift] - popShift;
        queue := queue[..at] + queue[at + 1..];
      }
    }

    /** Both messages went out. */
    method CommitSend()
      requires sending.Busy?
      modifies this`sending, this`inFlight, this`inFlightBytes
      ensures View() == Commit(old(View()))
    {
      inFlightBytes := inFlightBytes + [|sending.msg.packed|];
      inFlight := inFlight + [sending.batch];
      sending := Idle;
    }

    /** The condition and the breaks of the sending loop; true when it goes round once more. */
    method LoopTest() returns (more: bool)
      requires !dead && sending.Idle? && !receiving
      modifies this`receiving
      ensures more <==> SendsMore(old(View()), singleStep)
      ensures View() == if more then old(View()) else StopSending(old(View()))
    {
      more := false;
      if |inFlight| == 0 || Sum(inFlightBytes) < MAX_IN_FLIGHT_BYTES {
        if !(singleStep && |inFlight| == 1) {
          more := |queue| > 0;
        }
      }
      receiving := !more;
    }

    /** select came back without data. */
    method NoReply()
      requires receiving
      modifies this`receiving
      ensures View() == TimeOut(old(View()))
    {
      receiving := false;
    }

    /** The receiving half of the loop: split one reply over the oldest batch. */
    method HandleReply(data: seq<byte>) returns (ok: bool)
      requires !dead && sending.Idle? && receiving && inFlight != [] && inFlightBytes != []
      modifies this`results, this`inFlight, this`inFlightBytes, this`receiving
      ensures ok <==> CanReceive(old(View()), data)
      ensures ok ==> View() == Receive(old(View()), data)
    {
      hide FromLE;
      var inputs := inFlight[0];
      inFlight := inFlight[1..];
      inFlightBytes := inFlightBytes[1..];
      receiving := false;
      var dataIndex: nat := 0;
      ghost var goal := Demux(data, 0, inputs, results);
      for k := 0 to |inputs|
        invariant goal == Demux(data, dataIndex, inputs[k..], results)
        invariant inFlight == old(inFlight)[1..] && inFlightBytes == old(inFlightBytes)[1..] && !receiving
      {
        assert inputs[k..][1..] == inputs[k + 1..];
        var d: seq<byte> := [];
        ghost var from: nat := dataIndex;
        for j := 0 to inputs[k].n
          invariant TakeFrames(data, from, inputs[k].n, []) == TakeFrames(data, dataIndex, inputs[k].n - j, d)
        {
          if dataIndex + 2 > |data| {
            return false;
          }
          var resultBytes := FromLE(data[dataIndex..dataIndex + 2]);
          dataIndex := dataIndex + 2;
          d := d + Slice(data, dataIndex, dataIndex + resultBytes);
          dataIndex := dataIndex + resultBytes;
        }
        results := results[inputs[k].ticket := d];
      }
      ok := true;
    }

    /** get_results once its wait is over. */
    method GetResults(ticket: nat) returns (got: Got)
      requires CanGet(View(), ticket)
      modifies this`results
      ensures got == GetAnswer(old(View()), ticket)
      ensures View() == Get(old(View()), ticket)
    {
      if ticket !in results {
        assert results - {ticket} == results;
        return Lost(savedTickets.None? || ticket !in savedTickets.value);
      }
      got := Data(results[ticket]);
      results := results - {ticket};
    }

    /** The handler around the loop: remember the oldest batch, then wake every getter. */
    method Fail()
      modifies this`dead, this`savedTickets
      ensures View() == Die(old(View()))
    {
      if |inFlight| > 0 {
        savedTickets := Some(BatchTickets(inFlight[0]));
      } else {
        savedTickets := None;
      }
      dead := true;
    }
  }

  // ---------------------------------------------------------------------
  // The pop loop
  // ---------------------------------------------------------------------

  /** Indices of the entries the merge takes. */
  function Picks(q: seq<Entry>, big: nat): (ps: seq<nat>)
    ensures |ps| == |Merge(q, big).taken|
    ensures forall i :: 0 <= i < |ps| ==> ps[i] < |q|
  {
    if q == [] then []
    else
      var k := |q| - 1;
      Picks(q[..k], big) + if Merge(q[..k], big).total + q[k].n <= big then [k] else []
  }

  /** The k-th picked index, or the end of the queue. */
  ghost function NextPick(q: seq<Entry>, big: nat, k: nat): (p: nat)
    requires k <= |Picks(q, big)|
    ensures p <= |q|
  {
    if k < |Picks(q, big)| then Picks(q, big)[k] else |q|
  }

  /** Index i is picked exactly when it is one of the picks. */
  ghost predicate Picked(q: seq<Entry>, big: nat, i: nat)
    requires i < |q|
  {
    Merge(q[..i], big).total + q[i].n <= big
  }

  lemma MergeNothing(big: nat)
    ensures Merge([], big) == Merged(0, [], []) && Picks([], big) == [] && Shares([]) == [] && Packed([]) == []
  {
  }

  /** What the entry at index i does to the merge of the entries before it. */
  lemma MergeOne(q: seq<Entry>, big: nat, i: nat)
    requires i < |q|
    ensures var m, m', e := Merge(q[..i], big), Merge(q[..i + 1], big), q[i];
      if Picked(q, big, i) then
        && m' == Merged(m.total + e.n, m.taken + [e], m.rest)
        && Picks(q[..i + 1], big) == Picks(q[..i], big) + [i]
        && Shares(m'.taken) == Shares(m.taken) + [Share(e.ticket, e.n)]
        && Packed(m'.taken) == Packed(m.taken) + e.packed
      else
        m' == Merged(m.total, m.taken, m.rest + [e]) && Picks(q[..i + 1], big) == Picks(q[..i], big)
  {
    assert q[..i + 1][..i] == q[..i];
    var t := Merge(q[..i], big).taken;
    assert (t + [q[i]])[..|t|] == t;
  }

  lemma {:induction false} PicksSound(q: seq<Entry>, big: nat)
    ensures forall i, j :: 0 <= i < j < |Picks(q, big)| ==> Picks(q, big)[i] < Picks(q, big)[j]
    ensures forall i :: 0 <= i < |Picks(q, big)| ==> Picked(q, big, Picks(q, big)[i])
    ensures forall i :: 0 <= i < |q| && Picked(q, big, i) ==> i in Picks(q, big)
  {
    if q != [] {
      var k := |q| - 1;
      var q' := q[..k];
      PicksSound(q', big);
      forall i | 0 <= i < k
        ensures Picked(q, big, i) <==> Picked(q', big, i)
      {
        assert q[..i] == q'[..i];
      }
    }
  }

  /** Between two consecutive picks nothing is taken: the rest just grows. */
  lemma {:induction false} RestSkips(q: seq<Entry>, big: nat, a: nat, b: nat)
    requires a <= b <= |q|
    requires forall i :: a <= i < b ==> !Picked(q, big, i)
    ensures Merge(q[..b], big).rest == Merge(q[..a], big).rest + q[a..b]
    ensures Merge(q[..b], big).taken == Merge(q[..a], big).taken
    decreases b
  {
    hide Merge;
    if a == b {
      assert q[a..b] == [];
    } else {
      RestSkips(q, big, a, b - 1);
      assert !Picked(q, big, b - 1);
      MergeOne(q, big, b - 1);
      var r := Merge(q[..a], big).rest;
      assert r + q[a..b - 1] + [q[b - 1]] == r + (q[a..b - 1] + [q[b - 1]]);
      assert q[a..b - 1] + [q[b - 1]] == q[a..b];
    }
  }

  /** The queue after the first k picks have been popped. */
  ghost function Remaining(q: seq<Entry>, big: nat, k: nat): seq<Entry>
    requires k <= |Picks(q, big)|
  {
    var p := NextPick(q, big, k);
    Merge(q[..p], big).rest + q[p..]
  }

  lemma RemainingEnds(q: seq<Entry>, big: nat)
    ensures Remaining(q, big, 0) == q
    ensures Remaining(q, big, |Picks(q, big)|) == Merge(q, big).rest
  {
    hide Merge, Picks;
    RemainingStart(q, big);
    assert q[..|q|] == q && q[|q|..] == [];
  }

  lemma RemainingStart(q: seq<Entry>, big: nat)
    ensures Remaining(q, big, 0) == q
  {
    hide Merge, Picks, Picked;
    var p := NextPick(q, big, 0);
    NoneBetween(q, big, 0, 0);
    RestSkips(q, big, 0, p);
    assert q[..0] == [];
    MergeNothing(big);
    assert [] + q[0..p] + q[p..] == q;
  }

  /** No index from one behind pick k - 1 up to pick k is picked. */
  lemma NoneBetween(q: seq<Entry>, big: nat, k: nat, a: nat)
    requires k <= |Picks(q, big)|
    requires if k == 0 then a == 0 else a == Picks(q, big)[k - 1] + 1
    ensures a <= NextPick(q, big, k)
    ensures forall i :: a <= i < NextPick(q, big, k) ==> !Picked(q, big, i)
  {
    hide Merge;
    PicksSound(q, big);
    var ps, p := Picks(q, big), NextPick(q, big, k);
    forall i | a <= i < p
      ensures !Picked(q, big, i)
    {
      forall j | 0 <= j < |ps|
        ensures ps[j] != i
      {
        if j < k {
          assert ps[j] <= ps[k - 1];
        } else {
          assert ps[k] <= ps[j];
        }
      }
      assert i !in ps;
    }
  }

  lemma {:induction false} TakenCount(q: seq<Entry>, big: nat, k: nat)
    requires k <= |Picks(q, big)|
    ensures |Merge(q[..NextPick(q, big, k)], big).taken| == k
    decreases k
  {
    hide Merge, Picks;
    PicksSound(q, big);
    MergeNothing(big);
    assert q[..0] == [];
    if k == 0 {
      NoneBetween(q, big, 0, 0);
      RestSkips(q, big, 0, NextPick(q, big, 0));
    } else {
      TakenCount(q, big, k - 1);
      var p := Picks(q, big)[k - 1];
      NoneBetween(q, big, k, p + 1);
      RestSkips(q, big, p + 1, NextPick(q, big, k));
      MergeOne(q, big, p);
    }
  }

  lemma DropHead(kept: seq<Entry>, q: seq<Entry>, p: nat, p': nat)
    requires p < p' <= |q|
    ensures var r := kept + q[p..];
      r[..|kept|] + r[|kept| + 1..] == kept + q[p + 1..p'] + q[p'..]
  {
    var r := kept + q[p..];
    assert r[..|kept|] == kept;
    assert r[|kept| + 1..] == q[p + 1..];
    assert q[p + 1..] == q[p + 1..p'] + q[p'..];
    assert kept + (q[p + 1..p'] + q[p'..]) == kept + q[p + 1..p'] + q[p'..];
  }

  lemma RemainingStep(q: seq<Entry>, big: nat, k: nat)
    requires k < |Picks(q, big)|
    ensures var r, at := Remaining(q, big, k), Picks(q, big)[k] - k;
      0 <= at < |r| && r[..at] + r[at + 1..] == Remaining(q, big, k + 1)
  {
    hide Merge, Picks;
    PicksSound(q, big);
    var p, p' := Picks(q, big)[k], NextPick(q, big, k + 1);
    TakenCount(q, big, k);
    MergeOne(q, big, p);
    NoneBetween(q, big, k + 1, p + 1);
    RestSkips(q, big, p + 1, p');
    var kept := Merge(q[..p], big).rest;
    assert |kept| == p - k;
    DropHead(kept, q, p, p');
  }
}
