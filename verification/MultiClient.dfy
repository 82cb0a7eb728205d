/** Several real clients behind one (MultiClient): round-robin scheduling and ticket routing. */
module MultiClient {
  import opened Bytes

  /** clients without the one at position r. */
  function RemoveAt(clients: seq<int>, r: nat): (s: seq<int>)
    requires r < |clients|
    ensures |s| == |clients| - 1
  {
    clients[..r] + clients[r + 1..]
  }

  ghost predicate Distinct(s: seq<int>) {
    forall i, j :: 0 <= i < j < |s| ==> s[i] != s[j]
  }

  /** Removals, each given by its position at that time. */
  predicate ValidRemovals(clients: seq<int>, rs: seq<nat>)
    decreases |rs|
  {
    rs == [] || (rs[0] < |clients| && ValidRemovals(RemoveAt(clients, rs[0]), rs[1..]))
  }

  function After(clients: seq<int>, rs: seq<nat>): seq<int>
    requires ValidRemovals(clients, rs)
    decreases |rs|
  {
    if rs == [] then clients else After(RemoveAt(clients, rs[0]), rs[1..])
  }

  /** The client a stored index stands for now; None is Python's IndexError. */
  function Route(clients: seq<int>, i: nat): Option<int> {
    if i < |clients| then Some(clients[i]) else None
  }

  lemma {:induction false} NeverComesBack(clients: seq<int>, rs: seq<nat>, i: nat, x: int)
    requires ValidRemovals(clients, rs)
    requires forall k :: i <= k < |clients| ==> clients[k] != x
    ensures Route(After(clients, rs), i) != Some(x)
    decreases |rs|
  {
    if rs != [] {
      NeverComesBack(RemoveAt(clients, rs[0]), rs[1..], i, x);
    }
  }

  /** A ticket is routed to the client it was scheduled on exactly when every
      client removed meanwhile stood behind it in the list. */
  lemma {:induction false} RouteStaysIff(clients: seq<int>, rs: seq<nat>, i: nat)
    requires Distinct(clients) && ValidRemovals(clients, rs) && i < |clients|
    ensures Route(After(clients, rs), i) == Some(clients[i]) <==> forall k :: 0 <= k < |rs| ==> rs[k] > i
    decreases |rs|
  {
    if rs != [] {
      var r, s := rs[0], RemoveAt(clients, rs[0]);
      if r > i {
        RouteStaysIff(s, rs[1..], i);
        if forall k :: 0 <= k < |rs[1..]| ==> rs[1..][k] > i {
          assert forall k :: 0 < k < |rs| ==> rs[k] == rs[1..][k - 1];
        } else {
          var k :| 0 <= k < |rs[1..]| && rs[1..][k] <= i;
          assert rs[k + 1] <= i;
        }
      } else {
        NeverComesBack(s, rs[1..], i, clients[i]);
      }
    }
  }

  // ---------------------------------------------------------------------
  // Runs with many tickets
  // ---------------------------------------------------------------------

  /** The shared state; reserved holds the tickets between the two halves of
      scheduling, with the position computed for them. */
  datatype State = State(clients: seq<int>, nextTicket: nat, reserved: map<nat, nat>, ticketMap: map<nat, (nat, nat)>)

  /** RemovalFailed is a second getter of a client that is already gone: it ends
      with a ValueError. ReservationFailed is a division by an empty list. */
  datatype Event =
    | Reserved
    | Recorded(ticket: nat, realTicket: nat)
    | Resolved(ticket: nat)
    | Removed(client: int)
    | RemovalFailed(client: int)
    | ReservationFailed

  /** Where list.remove finds the client. */
  function IndexOf(clients: seq<int>, x: int): (r: nat)
    requires x in clients
    ensures r < |clients| && clients[r] == x && x !in clients[..r]
  {
    if clients[0] == x then 0 else 1 + IndexOf(clients[1..], x)
  }

  predicate Possible(s: State, e: Event) {
    match e
    case Reserved => s.clients != []
    case Recorded(t, _) => t in s.reserved
    case Resolved(t) => t in s.ticketMap
    case Removed(c) => c in s.clients
    case RemovalFailed(c) => c !in s.clients
    case ReservationFailed => s.clients == []
  }

  function Next(s: State, e: Event): State
    requires Possible(s, e)
  {
    match e
    case Reserved =>
      s.(nextTicket := s.nextTicket + 1, reserved := s.reserved[s.nextTicket := s.nextTicket % |s.clients|])
    case Recorded(t, r) => s.(reserved := s.reserved - {t}, ticketMap := s.ticketMap[t := (r, s.reserved[t])])
    case Resolved(t) => s.(ticketMap := s.ticketMap - {t})
    case Removed(c) => s.(clients := RemoveAt(s.clients, IndexOf(s.clients, c)))
    case RemovalFailed(_) => s
    case ReservationFailed => s.(nextTicket := s.nextTicket + 1)
  }

  ghost predicate IsRun(trace: seq<State>, events: seq<Event>) {
    && |trace| == |events| + 1
    && Distinct(trace[0].clients) && trace[0].nextTicket == 0 && trace[0].reserved == map[] && trace[0].ticketMap == map[]
    && forall k :: 0 <= k < |events| ==> Possible(trace[k], events[k]) && trace[k + 1] == Next(trace[k], events[k])
  }

  /** The position remembered for a pending ticket. */
  function Position(s: State, t: nat): Option<nat> {
    if t in s.reserved then Some(s.reserved[t])
    else if t in s.ticketMap then Some(s.ticketMap[t].1)
    else None
  }

  /** Positions of the clients removed by events[i..j]. */
  ghost function Removals(trace: seq<State>, events: seq<Event>, i: nat, j: nat): seq<nat>
    requires IsRun(trace, events) && i <= j <= |events|
    decreases j
  {
    if i == j then []
    else
      Removals(trace, events, i, j - 1)
      + if events[j - 1].Removed? then [IndexOf(trace[j - 1].clients, events[j - 1].client)] else []
  }

  lemma {:induction false} AfterSnoc(clients: seq<int>, rs: seq<nat>, r: nat)
    requires ValidRemovals(clients, rs) && r < |After(clients, rs)|
    ensures ValidRemovals(clients, rs + [r]) && After(clients, rs + [r]) == RemoveAt(After(clients, rs), r)
    decreases |rs|
  {
    if rs == [] {
      assert rs + [r] == [r] && [r][1..] == [];
    } else {
      assert (rs + [r])[1..] == rs[1..] + [r];
      AfterSnoc(RemoveAt(clients, rs[0]), rs[1..], r);
    }
  }

  /** The client list is the one at i without what was removed since. */
  lemma {:induction false} ClientsAfter(trace: seq<State>, events: seq<Event>, i: nat, j: nat)
    requires IsRun(trace, events) && i <= j <= |events|
    ensures ValidRemovals(trace[i].clients, Removals(trace, events, i, j))
    ensures trace[j].clients == After(trace[i].clients, Removals(trace, events, i, j))
    decreases j
  {
    hide RemoveAt, Next, Possible, ValidRemovals, After, IndexOf;
    if i < j {
      ClientsAfter(trace, events, i, j - 1);
      ClientsStep(trace[j - 1], events[j - 1]);
      var rs := Removals(trace, events, i, j - 1);
      if events[j - 1].Removed? {
        AfterSnoc(trace[i].clients, rs, IndexOf(trace[j - 1].clients, events[j - 1].client));
      } else {
        assert rs + [] == rs;
      }
    } else {
      NoRemovals(trace[i].clients);
    }
  }

  lemma NoRemovals(clients: seq<int>)
    ensures ValidRemovals(clients, []) && After(clients, []) == clients
  {
  }

  /** Only a removal changes the list. */
  lemma ClientsStep(s: State, e: Event)
    requires Possible(s, e)
    ensures e.Removed? ==> e.client in s.clients
    ensures Next(s, e).clients == if e.Removed? then RemoveAt(s.clients, IndexOf(s.clients, e.client)) else s.clients
  {
  }

  lemma {:induction false} StaysDistinct(trace: seq<State>, events: seq<Event>, j: nat)
    requires IsRun(trace, events) && j <= |events|
    ensures Distinct(trace[j].clients)
    ensures forall t :: t in trace[j].reserved || t in trace[j].ticketMap ==> t < trace[j].nextTicket
  {
    if j > 0 {
      StaysDistinct(trace, events, j - 1);
      assert Possible(trace[j - 1], events[j - 1]) && trace[j] == Next(trace[j - 1], events[j - 1]);
    }
  }

  /** A pending ticket keeps the position it was given. */
  lemma {:induction false} PositionStays(trace: seq<State>, events: seq<Event>, i: nat, j: nat)
    requires IsRun(trace, events) && i < j <= |events| && events[i].Reserved?
    ensures var t := trace[i].nextTicket;
      && t < trace[j].nextTicket && trace[i].clients != []
      && (Position(trace[j], t).Some? ==> Position(trace[j], t).value == t % |trace[i].clients|)
      && !(t in trace[j].reserved && t in trace[j].ticketMap)
    decreases j
  {
    assert Possible(trace[j - 1], events[j - 1]) && trace[j] == Next(trace[j - 1], events[j - 1]);
    if i < j - 1 {
      PositionStays(trace, events, i, j - 1);
    } else {
      StaysDistinct(trace, events, i);
    }
  }

  /** Every client removed by events[i..j] stood behind position p when it was removed. */
  ghost predicate RemovedBehind(trace: seq<State>, events: seq<Event>, i: nat, j: nat, p: nat)
    requires IsRun(trace, events) && i <= j <= |events|
  {
    forall x :: i <= x < j && events[x].Removed? ==> IndexOf(trace[x].clients, events[x].client) > p
  }

  lemma {:induction false} RemovalsBehind(trace: seq<State>, events: seq<Event>, i: nat, j: nat, p: nat)
    requires IsRun(trace, events) && i <= j <= |events|
    ensures RemovedBehind(trace, events, i, j, p) <==> AllAbove(Removals(trace, events, i, j), p)
    decreases j
  {
    hide IndexOf, AllAbove;
    if i < j {
      RemovalsBehind(trace, events, i, j - 1, p);
      var rs := Removals(trace, events, i, j - 1);
      if events[j - 1].Removed? {
        AboveSnoc(rs, IndexOf(trace[j - 1].clients, events[j - 1].client), p);
      } else {
        assert rs + [] == rs;
      }
    } else {
      assert AllAbove([], p) by { NothingAbove(p); }
    }
  }

  predicate AllAbove(rs: seq<nat>, p: nat) {
    forall k :: 0 <= k < |rs| ==> rs[k] > p
  }

  lemma AboveSnoc(rs: seq<nat>, r: nat, p: nat)
    ensures AllAbove(rs + [r], p) <==> AllAbove(rs, p) && r > p
  {
    var all := rs + [r];
    assert all[|rs|] == r && forall k :: 0 <= k < |rs| ==> all[k] == rs[k];
  }

  lemma NothingAbove(p: nat)
    ensures AllAbove([], p)
  {
  }

  /** Over every run of reservations, recordings, lookups and losses: a pending
      ticket is routed to the client it was reserved for exactly when every
      client removed since stood behind that one. */
  lemma RunRoutes(trace: seq<State>, events: seq<Event>, i: nat, j: nat)
    requires IsRun(trace, events) && i < j <= |events| && events[i].Reserved?
    requires Position(trace[j], trace[i].nextTicket).Some?
    ensures var t, s := trace[i].nextTicket, trace[i];
      && s.clients != []
      && (Route(trace[j].clients, Position(trace[j], t).value) == Some(s.clients[t % |s.clients|])
          <==> RemovedBehind(trace, events, i + 1, j, t % |s.clients|))
  {
    hide RemovedBehind, Route, After, Position;
    var t, s := trace[i].nextTicket, trace[i];
    PositionStays(trace, events, i, j);
    StaysDistinct(trace, events, i);
    assert trace[i + 1].clients == s.clients;
    ClientsAfter(trace, events, i + 1, j);
    RemovalsBehind(trace, events, i + 1, j, t % |s.clients|);
    RouteStaysIff(s.clients, Removals(trace, events, i + 1, j), t % |s.clients|);
  }

  // ---------------------------------------------------------------------
  // The running class
  // ---------------------------------------------------------------------

  class MultiClient {
    var clients: seq<int>
    var ticketMap: map<nat, (nat, nat)>
    var nextTicket: nat

    constructor (clients: seq<int>)
      ensures this.clients == clients && ticketMap == map[] && nextTicket == 0
    {
      this.clients, ticketMap, nextTicket := clients, map[], 0;
    }

    /** First half of schedule_packed_inputs: a ticket and a client, in turn;
        None when no client is left to divide by. */
    method Reserve() returns (slot: Option<(nat, nat)>)
      modifies this`nextTicket
      ensures slot.None? <==> clients == []
      ensures nextTicket == old(nextTicket) + 1
      ensures slot.Some? ==> slot.value == (old(nextTicket), old(nextTicket) % |clients|)
    {
      var ticket := nextTicket;
      nextTicket := nextTicket + 1;
      if |clients| == 0 {
        return None;
      }
      return Some((ticket, ticket % |clients|));
    }

    /** Second half: remember the client's own ticket and its position. */
    method Record(ticket: nat, realTicket: nat, clientI: nat)
      modifies this`ticketMap
      ensures ticketMap == old(ticketMap)[ticket := (realTicket, clientI)]
    {
      ticketMap := ticketMap[ticket := (realTicket, clientI)];
    }

    /** The lookup of get_results: the entry is used up and its position resolved. */
    method Resolve(ticket: nat) returns (route: Option<(nat, int)>)
      modifies this`ticketMap
      ensures ticketMap == old(ticketMap) - {ticket}
      ensures route.Some? <==> ticket in old(ticketMap) && Route(clients, old(ticketMap)[ticket].1).Some?
      ensures route.Some? ==> route.value == (old(ticketMap)[ticket].0, Route(clients, old(ticketMap)[ticket].1).value)
    {
      if ticket !in ticketMap {
        assert ticketMap - {ticket} == ticketMap;
        return None;
      }
      var (realTicket, clientI) := ticketMap[ticket];
      ticketMap := ticketMap - {ticket};
      if clientI < |clients| {
        return Some((realTicket, clients[clientI]));
      }
      return None;
    }

    /** A lost client leaves the list; the others close up. */
    method Lose(client: int) returns (r: Option<nat>)
      modifies this`clients
      ensures r.None? ==> client !in old(clients) && clients == old(clients)
      ensures r.Some? ==> r.value < |old(clients)| && clients == RemoveAt(old(clients), r.value)
      ensures r.Some? ==> old(clients)[r.value] == client && client !in old(clients)[..r.value]
    {
      for i := 0 to |clients|
        invariant clients == old(clients)
        invariant client !in clients[..i]
      {
        if clients[i] == client {
          clients := clients[..i] + clients[i + 1..];
          return Some(i);
        }
      }
      return None;
    }
  }

  /** Tickets 1 and 4 of three clients both go to the second. Ticket 1 is looked
      up before the first client is lost, ticket 4 after it, and goes astray. */
  method RoutingExample() returns (before: Option<(nat, int)>, after: Option<(nat, int)>)
    ensures before == Some((7, 20)) && after == Some((8, 30))
  {
    var m := new MultiClient([10, 20, 30]);
    var _ := m.Reserve();
    var one := m.Reserve();
    m.Record(one.value.0, 7, one.value.1);
    var _ := m.Reserve();
    var _ := m.Reserve();
    var four := m.Reserve();
    m.Record(four.value.0, 8, four.value.1);
    before := m.Resolve(one.value.0);
    var _ := m.Lose(10);
    after := m.Resolve(four.value.0);
  }
}
