/**
 Turn taking of the scan workers: chunks of the opcode space are claimed under
 a shared counter, run in parallel, and analysed strictly in claim order.
 */
module ScanTurns {
  import opened Bytes
  import opened Enumeration

  /** What the scan is started with; known words are documented or filtered. */
  datatype Config = Config(startAt: nat, until: nat, step: nat, known: Documented)

  // ---------------------------------------------------------------------
  // The shared counters
  // ---------------------------------------------------------------------

  datatype Shared = Shared(counter: nat, analysed: nat, executed: nat, finished: bool)

  function ChunkEnd(c: Config, from: nat): nat {
    Min(from + c.step, c.until)
  }

  function Claim(c: Config, s: Shared): Shared {
    if s.counter >= c.until then s.(finished := true)
    else s.(counter := ChunkEnd(c, s.counter))
  }

  function Advance(c: Config, s: Shared, inputs: nat): Shared {
    s.(executed := s.executed + inputs, analysed := s.analysed + c.step)
  }

  /** The values that all worker processes share, changed under one condition. */
  class Counters {
    var counter: nat
    var analysed: nat
    var executed: nat
    var finished: bool

    function View(): Shared
      reads this
    {
      Shared(counter, analysed, executed, finished)
    }

    constructor (startAt: nat)
      ensures View() == Shared(startAt, startAt, startAt, false)
    {
      counter, analysed, executed, finished := startAt, startAt, startAt, false;
    }

    method ClaimChunk(c: Config) returns (toGenerate: Option<nat>)
      modifies this
      ensures View() == Claim(c, old(View()))
      ensures toGenerate == if old(counter) >= c.until then None else Some(old(counter))
    {
      if counter >= c.until {
        finished := true;
        return None;
      }
      toGenerate := Some(counter);
      counter := if counter + c.step < c.until then counter + c.step else c.until;
    }

    method EndTurn(c: Config, inputs: nat)
      modifies this
      ensures View() == Advance(c, old(View()), inputs)
    {
      executed := executed + inputs;
      analysed := analysed + c.step;
    }
  }

  // ---------------------------------------------------------------------
  // The protocol
  // ---------------------------------------------------------------------

  /** Where a worker is in its loop. A worker whose client is lost ends with an
      exception while it runs its inputs, and its chunk stays claimed. */
  datatype Phase =
    | Idle
    | Running(from: nat)
    | Waiting(from: nat)
    | Analysing(from: nat, done: nat)
    | Lost(from: nat)
    | Done

  /** The worker has claimed a chunk that is not analysed. */
  predicate Holds(p: Phase) {
    p.Running? || p.Waiting? || p.Analysing? || p.Lost?
  }

  /** A claimed chunk and the worker that claimed it. */
  datatype Chunk = Chunk(from: nat, worker: nat)

  /** All workers, with the history of claims, of finished turns, and of the
      words analysed. */
  datatype State = State(shared: Shared, workers: seq<Phase>, claimed: seq<Chunk>, turns: seq<Chunk>, log: seq<nat>)

  function Init(c: Config, n: nat): State {
    State(Shared(c.startAt, c.startAt, c.startAt, false), seq(n, (_: nat) => Idle), [], [], [])
  }

  /** The inputs generated for a chunk. */
  function Words(c: Config, from: nat): seq<nat> {
    if from <= ChunkEnd(c, from) then Undocumented(c.known, from, ChunkEnd(c, from)) else []
  }

  /** A worker can take its next step: only the wait for its turn blocks. */
  predicate CanMove(s: State, w: nat) {
    && w < |s.workers|
    && !s.workers[w].Done? && !s.workers[w].Lost?
    && (s.workers[w].Waiting? ==> s.shared.analysed == s.workers[w].from)
  }

  /** The next step of worker w; each lock region is one step. */
  function Move(c: Config, s: State, w: nat): State
    requires CanMove(s, w)
  {
    match s.workers[w]
    case Idle =>
      if s.shared.counter >= c.until then
        s.(shared := Claim(c, s.shared), workers := s.workers[w := Done])
      else
        s.(shared := Claim(c, s.shared),
           workers := s.workers[w := Running(s.shared.counter)],
           claimed := s.claimed + [Chunk(s.shared.counter, w)])
    case Running(f) => s.(workers := s.workers[w := Waiting(f)])
    case Waiting(f) => s.(workers := s.workers[w := Analysing(f, 0)])
    case Analysing(f, d) =>
      if d < |Words(c, f)| then
        s.(workers := s.workers[w := Analysing(f, d + 1)], log := s.log + [Words(c, f)[d]])
      else
        s.(shared := Advance(c, s.shared, |Words(c, f)|), workers := s.workers[w := Idle], turns := s.turns + [Chunk(f, w)])
  }

  /** Worker w goes on, or loses a client while its inputs are being run. */
  datatype Turn = Go(w: nat) | Lose(w: nat)

  /** Nothing is run, so nothing can be lost, for a chunk without inputs. */
  predicate CanTake(c: Config, s: State, m: Turn) {
    match m
    case Go(w) => CanMove(s, w)
    case Lose(w) => w < |s.workers| && s.workers[w].Running? && Words(c, s.workers[w].from) != []
  }

  function Take(c: Config, s: State, m: Turn): State
    requires CanTake(c, s, m)
  {
    match m
    case Go(w) => Move(c, s, w)
    case Lose(w) => s.(workers := s.workers[w := Lost(s.workers[w].from)])
  }

  /** An interleaving: who goes on or fails next, from the initial state to s. */
  ghost predicate IsRun(c: Config, n: nat, moves: seq<Turn>, s: State)
    decreases |moves|
  {
    if moves == [] then s == Init(c, n)
    else
      var m := moves[|moves| - 1];
      exists before :: IsRun(c, n, moves[..|moves| - 1], before) && CanTake(c, before, m) && s == Take(c, before, m)
  }

  // ---------------------------------------------------------------------
  // The invariant
  // ---------------------------------------------------------------------

  /** How far the first n chunks reach. */
  function UpTo(c: Config, claimed: seq<Chunk>, n: nat): nat
    requires n <= |claimed|
  {
    if n == 0 then c.startAt else ChunkEnd(c, claimed[n - 1].from)
  }

  /** Chunk k begins where the chunks before it end. */
  ghost predicate TileOk(c: Config, claimed: seq<Chunk>, k: nat)
    requires k < |claimed|
  {
    claimed[k].from == UpTo(c, claimed, k) && c.startAt <= claimed[k].from < c.until
  }

  /** Claimed chunks follow each other without gap or overlap. */
  ghost predicate Tiled(c: Config, claimed: seq<Chunk>) {
    forall k :: 0 <= k < |claimed| ==> TileOk(c, claimed, k)
  }

  /** Chunk k is in the hands of the worker that claimed it. */
  predicate Held(s: State, k: nat)
    requires k < |s.claimed|
  {
    var Chunk(f, w) := s.claimed[k];
    w < |s.workers| && Holds(s.workers[w]) && s.workers[w].from == f
  }

  /** Worker w is at an unfinished chunk. */
  ghost predicate AtOpenChunk(s: State, w: nat) {
    exists k :: |s.turns| <= k < |s.claimed| && s.claimed[k].worker == w
  }

  ghost predicate HoldersOk(s: State) {
    && (forall k :: |s.turns| <= k < |s.claimed| ==> Held(s, k))
    && forall w :: 0 <= w < |s.workers| && Holds(s.workers[w]) ==> AtOpenChunk(s, w)
  }

  /** The chunk whose turn it is, while there is one. */
  ghost predicate TurnOk(c: Config, s: State) {
    && |s.turns| <= |s.claimed|
    && s.turns == s.claimed[..|s.turns|]
    && (|s.turns| < |s.claimed| ==> s.shared.analysed == s.claimed[|s.turns|].from)
    && (|s.turns| == |s.claimed| && s.shared.counter < c.until ==> s.shared.analysed == s.shared.counter)
  }

  /** The words of all chunks whose turn is over. */
  ghost function Finished(c: Config, s: State): seq<nat>
    requires |s.turns| <= |s.claimed|
  {
    var to := UpTo(c, s.claimed, |s.turns|);
    if c.startAt <= to then Undocumented(c.known, c.startAt, to) else []
  }

  /** A worker under analysis has its turn; the log ends with its words so far. */
  ghost predicate Analyser(c: Config, s: State, p: Phase)
    requires |s.turns| <= |s.claimed|
  {
    p.Analysing? ==>
      && |s.turns| < |s.claimed|
      && p.from == s.claimed[|s.turns|].from
      && p.done <= |Words(c, p.from)|
      && s.log == Finished(c, s) + Words(c, p.from)[..p.done]
  }

  ghost predicate LogOk(c: Config, s: State)
    requires |s.turns| <= |s.claimed|
  {
    && (forall w :: 0 <= w < |s.workers| ==> Analyser(c, s, s.workers[w]))
    && ((forall w :: 0 <= w < |s.workers| ==> !s.workers[w].Analysing?) ==> s.log == Finished(c, s))
    && s.shared.executed == c.startAt + |Finished(c, s)|
  }

  ghost predicate DoneOk(c: Config, s: State) {
    forall w :: 0 <= w < |s.workers| && s.workers[w].Done? ==> s.shared.finished && s.shared.counter >= c.until
  }

  ghost predicate Inv(c: Config, n: nat, s: State) {
    && |s.workers| == n
    && Tiled(c, s.claimed)
    && s.shared.counter == UpTo(c, s.claimed, |s.claimed|)
    && TurnOk(c, s)
    && HoldersOk(s)
    && LogOk(c, s)
    && DoneOk(c, s)
  }

  // ---------------------------------------------------------------------
  // Every step keeps it
  // ---------------------------------------------------------------------

  /** Chunks start in ascending order. */
  lemma {:induction false} Ascending(c: Config, claimed: seq<Chunk>, j: nat, k: nat)
    requires Tiled(c, claimed) && c.step > 0 && j < k < |claimed|
    ensures ChunkEnd(c, claimed[j].from) <= claimed[k].from
    decreases k
  {
    assert TileOk(c, claimed, k) && TileOk(c, claimed, k - 1);
    if j < k - 1 {
      Ascending(c, claimed, j, k - 1);
    }
  }

  /** A worker holds one unfinished chunk only. */
  lemma OneChunkEach(c: Config, s: State, j: nat, k: nat)
    requires Tiled(c, s.claimed) && c.step > 0 && HoldersOk(s)
    requires |s.turns| <= j < |s.claimed| && |s.turns| <= k < |s.claimed| && s.claimed[j].worker == s.claimed[k].worker
    ensures j == k
  {
    assert Held(s, j) && Held(s, k) && TileOk(c, s.claimed, j) && TileOk(c, s.claimed, k);
    if j < k {
      Ascending(c, s.claimed, j, k);
    } else if k < j {
      Ascending(c, s.claimed, k, j);
    }
  }

  lemma ClaimKeeps(c: Config, n: nat, s: State, w: nat)
    requires c.step > 0 && Inv(c, n, s) && CanMove(s, w) && s.workers[w].Idle? && s.shared.counter < c.until
    ensures Inv(c, n, Move(c, s, w))
  {
    hide Undocumented;
    var t := Move(c, s, w);
    var m := |s.claimed|;
    assert t.claimed[..m] == s.claimed;
    assert c.startAt <= s.shared.counter by {
      if m > 0 {
        assert TileOk(c, s.claimed, m - 1);
      }
    }
    forall k | 0 <= k < |t.claimed|
      ensures TileOk(c, t.claimed, k)
    {
      if k < m {
        assert TileOk(c, s.claimed, k);
      }
    }
    assert t.turns == t.claimed[..|t.turns|];
    assert Finished(c, t) == Finished(c, s);
    ClaimHolders(c, s, w, t);
    assert LogOk(c, t) by {
      assert forall v :: 0 <= v < n ==> Analyser(c, s, s.workers[v]);
      assert forall v :: 0 <= v < n && t.workers[v].Analysing? ==> t.workers[v] == s.workers[v];
      if forall v :: 0 <= v < n ==> !t.workers[v].Analysing? {
        assert forall v :: 0 <= v < n ==> s.workers[v].Analysing? ==> t.workers[v].Analysing?;
      }
    }
  }

  lemma ClaimHolders(c: Config, s: State, w: nat, t: State)
    requires HoldersOk(s) && |s.turns| <= |s.claimed| && CanMove(s, w) && s.workers[w].Idle?
    requires t.turns == s.turns && t.claimed == s.claimed + [Chunk(s.shared.counter, w)]
    requires t.workers == s.workers[w := Running(s.shared.counter)]
    ensures HoldersOk(t)
  {
    var m := |s.claimed|;
    forall k | |t.turns| <= k < |t.claimed|
      ensures Held(t, k)
    {
      if k < m {
        assert Held(s, k) && t.claimed[k] == s.claimed[k];
      } else {
        assert t.claimed[k] == Chunk(s.shared.counter, w);
      }
    }
    forall v | 0 <= v < |t.workers| && Holds(t.workers[v])
      ensures AtOpenChunk(t, v)
    {
      if v == w {
        assert t.claimed[m].worker == w;
      } else {
        assert AtOpenChunk(s, v);
        var k :| |s.turns| <= k < |s.claimed| && s.claimed[k].worker == v;
        assert t.claimed[k].worker == v;
      }
    }
  }

  /** A change of phase that keeps the chunk keeps the holders. */
  lemma PhaseHolders(s: State, w: nat, t: State)
    requires HoldersOk(s) && w < |s.workers| && Holds(s.workers[w]) && |t.workers| == |s.workers|
    requires t.claimed == s.claimed && t.turns == s.turns
    requires Holds(t.workers[w]) && t.workers[w].from == s.workers[w].from && t.workers == s.workers[w := t.workers[w]]
    ensures HoldersOk(t)
  {
    forall k | |t.turns| <= k < |t.claimed|
      ensures Held(t, k)
    {
      assert Held(s, k);
    }
    forall v | 0 <= v < |t.workers| && Holds(t.workers[v])
      ensures AtOpenChunk(t, v)
    {
      assert AtOpenChunk(s, v);
    }
  }

  /** The one analysing worker is the one whose turn it is. */
  lemma AnalyserIs(c: Config, n: nat, s: State, w: nat)
    requires c.step > 0 && Inv(c, n, s) && w < n && Holds(s.workers[w]) && s.workers[w].from == s.shared.analysed
    ensures |s.turns| < |s.claimed| && s.claimed[|s.turns|] == Chunk(s.shared.analysed, w)
  {
    hide Undocumented, LogOk, DoneOk;
    assert AtOpenChunk(s, w);
    var k :| |s.turns| <= k < |s.claimed| && s.claimed[k].worker == w;
    assert Held(s, k);
    if |s.turns| < k {
      assert TileOk(c, s.claimed, |s.turns|);
      Ascending(c, s.claimed, |s.turns|, k);
      assert false;
    }
  }

  lemma AnalyserAlone(c: Config, n: nat, s: State, v: nat, w: nat)
    requires c.step > 0 && Inv(c, n, s) && v < n && w < n
    requires s.workers[v].Analysing? && Holds(s.workers[w]) && s.workers[w].from == s.shared.analysed
    ensures v == w
  {
    hide Undocumented, HoldersOk, DoneOk, Tiled, Finished, Words;
    assert Analyser(c, s, s.workers[v]);
    AnalyserIs(c, n, s, v);
    AnalyserIs(c, n, s, w);
  }

  lemma ReceiveKeeps(c: Config, n: nat, s: State, m: Turn)
    requires c.step > 0 && Inv(c, n, s) && CanTake(c, s, m) && s.workers[m.w].Running?
    ensures Inv(c, n, Take(c, s, m))
  {
    hide Undocumented, HoldersOk, Tiled, Words;
    var w, t := m.w, Take(c, s, m);
    PhaseHolders(s, w, t);
    assert Finished(c, t) == Finished(c, s);
    assert LogOk(c, t) by {
      assert forall v :: 0 <= v < n && v != w ==> t.workers[v] == s.workers[v];
      assert forall v :: 0 <= v < n ==> Analyser(c, s, s.workers[v]);
      if forall v :: 0 <= v < n ==> !t.workers[v].Analysing? {
        assert forall v :: 0 <= v < n ==> s.workers[v].Analysing? ==> t.workers[v].Analysing?;
      }
    }
  }

  lemma TurnKeeps(c: Config, n: nat, s: State, w: nat)
    requires c.step > 0 && Inv(c, n, s) && CanMove(s, w) && s.workers[w].Waiting?
    ensures Inv(c, n, Move(c, s, w))
  {
    hide Undocumented, HoldersOk, Tiled, Words;
    var t := Move(c, s, w);
    PhaseHolders(s, w, t);
    AnalyserIs(c, n, s, w);
    assert Finished(c, t) == Finished(c, s);
    forall v | 0 <= v < n
      ensures !s.workers[v].Analysing?
    {
      if s.workers[v].Analysing? {
        AnalyserAlone(c, n, s, v, w);
      }
    }
    assert t.workers[w].Analysing?;
    assert Finished(c, s) + Words(c, s.workers[w].from)[..0] == Finished(c, s);
  }

  lemma AnalyseKeeps(c: Config, n: nat, s: State, w: nat)
    requires c.step > 0 && Inv(c, n, s) && CanMove(s, w) && s.workers[w].Analysing?
    requires s.workers[w].done < |Words(c, s.workers[w].from)|
    ensures Inv(c, n, Move(c, s, w))
  {
    hide Undocumented, HoldersOk, Tiled, Words;
    var t := Move(c, s, w);
    PhaseHolders(s, w, t);
    assert Analyser(c, s, s.workers[w]);
    assert Finished(c, t) == Finished(c, s);
    var ws, d := Words(c, s.workers[w].from), s.workers[w].done;
    assert ws[..d + 1] == ws[..d] + [ws[d]];
    assert Finished(c, s) + ws[..d + 1] == Finished(c, s) + ws[..d] + [ws[d]];
    forall v | 0 <= v < n
      ensures Analyser(c, t, t.workers[v])
    {
      if v != w && s.workers[v].Analysing? {
        AnalyserAlone(c, n, s, v, w);
      }
    }
    assert t.workers[w].Analysing?;
  }

  lemma EndTurnKeeps(c: Config, n: nat, s: State, w: nat)
    requires c.step > 0 && Inv(c, n, s) && CanMove(s, w) && s.workers[w].Analysing?
    requires s.workers[w].done == |Words(c, s.workers[w].from)|
    ensures Inv(c, n, Move(c, s, w))
  {
    hide Undocumented, HoldersOk, Words, Tiled;
    var t := Move(c, s, w);
    assert Analyser(c, s, s.workers[w]);
    AnalyserIs(c, n, s, w);
    var m := |s.turns|;
    EndTurnOk(c, n, s, w);
    EndHolders(c, n, s, w, t);
    forall v | 0 <= v < n
      ensures !t.workers[v].Analysing?
    {
      if v != w && s.workers[v].Analysing? {
        AnalyserAlone(c, n, s, v, w);
      }
    }
    assert Finished(c, t) == t.log by { FinishedGrows(c, s, t); }
  }

  lemma EndTurnOk(c: Config, n: nat, s: State, w: nat)
    requires c.step > 0 && Inv(c, n, s) && CanMove(s, w) && s.workers[w].Analysing?
    requires s.workers[w].done == |Words(c, s.workers[w].from)|
    requires |s.turns| < |s.claimed| && s.claimed[|s.turns|] == Chunk(s.workers[w].from, w)
    ensures TurnOk(c, Move(c, s, w))
  {
    hide HoldersOk, Words, LogOk, DoneOk, Tiled;
    var t, m := Move(c, s, w), |s.turns|;
    assert t.turns == t.claimed[..m + 1];
    assert TileOk(c, t.claimed, m) by { Tile(c, t.claimed, m); }
    if m + 1 < |t.claimed| {
      assert TileOk(c, t.claimed, m + 1) by { Tile(c, t.claimed, m + 1); }
    }
  }

  lemma Tile(c: Config, claimed: seq<Chunk>, k: nat)
    requires Tiled(c, claimed) && k < |claimed|
    ensures TileOk(c, claimed, k)
  {
  }

  lemma EndHolders(c: Config, n: nat, s: State, w: nat, t: State)
    requires c.step > 0 && Inv(c, n, s) && w < n && |s.turns| < |s.claimed| && s.claimed[|s.turns|].worker == w
    requires t.claimed == s.claimed && |t.turns| == |s.turns| + 1 && t.workers == s.workers[w := Idle]
    ensures HoldersOk(t)
  {
    hide LogOk, DoneOk, TurnOk;
    forall k | |t.turns| <= k < |t.claimed|
      ensures Held(t, k)
    {
      assert Held(s, k);
      if s.claimed[k].worker == w {
        OneChunkEach(c, s, |s.turns|, k);
      }
    }
    forall v | 0 <= v < |t.workers| && Holds(t.workers[v])
      ensures AtOpenChunk(t, v)
    {
      assert v != w && AtOpenChunk(s, v);
      var k :| |s.turns| <= k < |s.claimed| && s.claimed[k].worker == v;
      assert t.claimed[k].worker == v;
    }
  }

  /** The next chunk's words follow those of the chunks before it. */
  lemma FinishedGrows(c: Config, s: State, t: State)
    requires Tiled(c, s.claimed) && |s.turns| < |s.claimed|
    requires t.claimed == s.claimed && |t.turns| == |s.turns| + 1
    ensures Finished(c, t) == Finished(c, s) + Words(c, s.claimed[|s.turns|].from)
  {
    hide Undocumented;
    var from := s.claimed[|s.turns|].from;
    assert TileOk(c, s.claimed, |s.turns|);
    UndocumentedJoin(c.known, c.startAt, from, ChunkEnd(c, from));
  }

  lemma QuitKeeps(c: Config, n: nat, s: State, w: nat)
    requires c.step > 0 && Inv(c, n, s) && CanMove(s, w) && s.workers[w].Idle? && s.shared.counter >= c.until
    ensures Inv(c, n, Move(c, s, w))
  {
    hide Undocumented, Tiled, Words;
    var t := Move(c, s, w);
    assert HoldersOk(t) by {
      forall k | |t.turns| <= k < |t.claimed|
        ensures Held(t, k)
      {
        assert Held(s, k);
      }
      forall v | 0 <= v < |t.workers| && Holds(t.workers[v])
        ensures AtOpenChunk(t, v)
      {
        assert AtOpenChunk(s, v);
      }
    }
    assert Finished(c, t) == Finished(c, s);
    assert LogOk(c, t) by {
      assert forall v :: 0 <= v < n ==> Analyser(c, s, s.workers[v]);
      if forall v :: 0 <= v < n ==> !t.workers[v].Analysing? {
        assert forall v :: 0 <= v < n ==> s.workers[v].Analysing? ==> t.workers[v].Analysing?;
      }
    }
  }

  lemma MoveKeeps(c: Config, n: nat, s: State, w: nat)
    requires c.step > 0 && Inv(c, n, s) && CanMove(s, w)
    ensures Inv(c, n, Move(c, s, w))
  {
    match s.workers[w] {
      case Idle => if s.shared.counter < c.until { ClaimKeeps(c, n, s, w); } else { QuitKeeps(c, n, s, w); }
      case Running(_) => ReceiveKeeps(c, n, s, Go(w));
      case Waiting(_) => TurnKeeps(c, n, s, w);
      case Analysing(f, d) =>
        assert Analyser(c, s, s.workers[w]);
        if d < |Words(c, f)| { AnalyseKeeps(c, n, s, w); } else { EndTurnKeeps(c, n, s, w); }
    }
  }

  lemma TakeKeeps(c: Config, n: nat, s: State, m: Turn)
    requires c.step > 0 && Inv(c, n, s) && CanTake(c, s, m)
    ensures Inv(c, n, Take(c, s, m))
  {
    hide Inv, Words;
    match m
    case Go(w) => MoveKeeps(c, n, s, w);
    case Lose(w) => ReceiveKeeps(c, n, s, m);
  }

  lemma InitHolds(c: Config, n: nat)
    ensures Inv(c, n, Init(c, n))
  {
  }

  /** The invariant holds over every interleaving of any number of workers. */
  lemma {:induction false} RunKeeps(c: Config, n: nat, moves: seq<Turn>, s: State)
    requires c.step > 0 && IsRun(c, n, moves, s)
    ensures Inv(c, n, s)
    decreases |moves|
  {
    hide Inv, Take, CanTake;
    if moves == [] {
      InitHolds(c, n);
    } else {
      var m, rest := moves[|moves| - 1], moves[..|moves| - 1];
      var before :| IsRun(c, n, rest, before) && CanTake(c, before, m) && s == Take(c, before, m);
      RunKeeps(c, n, rest, before);
      TakeKeeps(c, n, before, m);
    }
  }

  // ---------------------------------------------------------------------
  // What it means
  // ---------------------------------------------------------------------

  /** x lies in chunk k. */
  predicate InChunk(c: Config, claimed: seq<Chunk>, k: nat, x: nat)
    requires k < |claimed|
  {
    claimed[k].from <= x < ChunkEnd(c, claimed[k].from)
  }

  ghost predicate InSomeChunk(c: Config, claimed: seq<Chunk>, x: nat) {
    exists k :: 0 <= k < |claimed| && InChunk(c, claimed, k, x)
  }

  lemma {:induction false} ChunksReach(c: Config, claimed: seq<Chunk>, n: nat, x: nat)
    requires Tiled(c, claimed) && n <= |claimed| && c.startAt <= x < UpTo(c, claimed, n)
    ensures InSomeChunk(c, claimed, x)
    decreases n
  {
    assert TileOk(c, claimed, n - 1);
    if x < claimed[n - 1].from {
      ChunksReach(c, claimed, n - 1, x);
    } else {
      assert InChunk(c, claimed, n - 1, x);
    }
  }

  /** In every reachable state the claimed chunks tile what has been claimed:
      every word up to the counter lies in exactly one chunk, and no chunk
      reaches outside [startAt, until). */
  lemma ChunksTile(c: Config, n: nat, moves: seq<Turn>, s: State)
    requires c.step > 0 && IsRun(c, n, moves, s)
    ensures forall x: nat :: c.startAt <= x < s.shared.counter ==> InSomeChunk(c, s.claimed, x)
    ensures forall j, k, x: nat :: (0 <= j < |s.claimed| && 0 <= k < |s.claimed|
        && InChunk(c, s.claimed, j, x) && InChunk(c, s.claimed, k, x)) ==> j == k
    ensures forall k, x: nat :: 0 <= k < |s.claimed| && InChunk(c, s.claimed, k, x) ==> c.startAt <= x < c.until && x < s.shared.counter
    ensures s.shared.finished && c.startAt <= c.until ==> s.shared.counter == c.until
  {
    hide IsRun, HoldersOk, LogOk;
    RunKeeps(c, n, moves, s);
    forall x: nat | c.startAt <= x < s.shared.counter
      ensures InSomeChunk(c, s.claimed, x)
    {
      ChunksReach(c, s.claimed, |s.claimed|, x);
    }
    forall j, k, x: nat | 0 <= j < |s.claimed| && 0 <= k < |s.claimed| && InChunk(c, s.claimed, j, x) && InChunk(c, s.claimed, k, x)
      ensures j == k
    {
      if j < k {
        Ascending(c, s.claimed, j, k);
      } else if k < j {
        Ascending(c, s.claimed, k, j);
      }
    }
    forall k, x: nat | 0 <= k < |s.claimed| && InChunk(c, s.claimed, k, x)
      ensures c.startAt <= x < c.until && x < s.shared.counter
    {
      assert TileOk(c, s.claimed, k);
      if k < |s.claimed| - 1 {
        Ascending(c, s.claimed, k, |s.claimed| - 1);
        assert TileOk(c, s.claimed, |s.claimed| - 1);
      }
    }
    FinishedMeans(c, n, moves, s);
  }

  /** The flag that ends the server is only raised at the end of the space. */
  lemma {:induction false} FinishedMeans(c: Config, n: nat, moves: seq<Turn>, s: State)
    requires c.step > 0 && IsRun(c, n, moves, s)
    ensures s.shared.finished ==> s.shared.counter >= c.until
    ensures c.startAt <= c.until ==> s.shared.counter <= c.until
    decreases |moves|
  {
    hide Words;
    if moves != [] {
      var m, rest := moves[|moves| - 1], moves[..|moves| - 1];
      var before :| IsRun(c, n, rest, before) && CanTake(c, before, m) && s == Take(c, before, m);
      FinishedMeans(c, n, rest, before);
    }
  }

  /** At most one worker analyses at a time, and turns are taken in claim order. */
  lemma OneAnalyserInOrder(c: Config, n: nat, moves: seq<Turn>, s: State)
    requires c.step > 0 && IsRun(c, n, moves, s)
    ensures forall v, w :: (0 <= v < n && 0 <= w < n && |s.workers| == n
        && s.workers[v].Analysing? && s.workers[w].Analysing?) ==> v == w
    ensures s.turns <= s.claimed
  {
    hide IsRun, HoldersOk, Tiled;
    RunKeeps(c, n, moves, s);
    forall v: nat, w: nat | v < n && w < n && s.workers[v].Analysing? && s.workers[w].Analysing?
      ensures v == w
    {
      assert Analyser(c, s, s.workers[v]) && Analyser(c, s, s.workers[w]);
      AnalyserAlone(c, n, s, v, w);
    }
  }

  /** While a claimed chunk is not analysed, the worker that holds the oldest
      one holds it alone, and can take its next step unless its client was lost. */
  lemma OldestCanProceed(c: Config, n: nat, moves: seq<Turn>, s: State)
    requires c.step > 0 && IsRun(c, n, moves, s) && |s.turns| < |s.claimed|
    ensures var Chunk(f, w) := s.claimed[|s.turns|];
      && w < |s.workers| && (CanMove(s, w) <==> !s.workers[w].Lost?)
      && Holds(s.workers[w]) && s.workers[w].from == f
      && (forall v :: 0 <= v < |s.workers| && v != w && Holds(s.workers[v]) ==> s.workers[v].from != f)
  {
    hide IsRun, Tiled, LogOk;
    RunKeeps(c, n, moves, s);
    assert Held(s, |s.turns|);
    var Chunk(f, w) := s.claimed[|s.turns|];
    forall v: nat | v < n && v != w && Holds(s.workers[v])
      ensures s.workers[v].from != f
    {
      if s.workers[v].from == f {
        AnalyserIs(c, n, s, v);
      }
    }
  }

  /** What the log and the counter of executed inputs hold in every state. */
  lemma LogIsPrefix(c: Config, n: nat, moves: seq<Turn>, s: State)
    requires c.step > 0 && IsRun(c, n, moves, s) && c.startAt <= c.until
    ensures s.log <= Undocumented(c.known, c.startAt, c.until)
    ensures s.shared.executed <= c.startAt + |s.log|
  {
    hide Undocumented, IsRun, HoldersOk, DoneOk;
    RunKeeps(c, n, moves, s);
    var m := |s.turns|;
    if m > 0 { assert TileOk(c, s.claimed, m - 1); }
    var to := UpTo(c, s.claimed, m);
    UndocumentedJoin(c.known, c.startAt, to, c.until);
    if w :| 0 <= w < n && s.workers[w].Analysing? {
      assert Analyser(c, s, s.workers[w]) && TileOk(c, s.claimed, m);
      var end := ChunkEnd(c, to);
      var ws, d := Words(c, to), s.workers[w].done;
      UndocumentedJoin(c.known, to, end, c.until);
      assert ws == ws[..d] + ws[d..];
      PrefixOf(Finished(c, s), ws, d, Undocumented(c.known, end, c.until));
    }
  }

  lemma PrefixOf(a: seq<nat>, b: seq<nat>, d: nat, rest: seq<nat>)
    requires d <= |b|
    ensures a + b[..d] <= a + (b + rest)
  {
    assert (a + (b + rest))[..|a| + d] == a + b[..d];
  }

  /** The worker that claimed chunk k lost a client while running it. */
  predicate Abandoned(s: State, k: nat) {
    k < |s.claimed| && s.claimed[k].worker < |s.workers| && s.workers[s.claimed[k].worker] == Lost(s.claimed[k].from)
  }

  /** In every reachable state the turns stop at an abandoned chunk. */
  lemma NoTurnPassesAbandoned(c: Config, n: nat, moves: seq<Turn>, s: State, k: nat)
    requires c.step > 0 && IsRun(c, n, moves, s) && Abandoned(s, k)
    ensures |s.turns| <= k
  {
    hide IsRun, LogOk, DoneOk;
    RunKeeps(c, n, moves, s);
    var w := s.claimed[k].worker;
    assert AtOpenChunk(s, w);
    var j :| |s.turns| <= j < |s.claimed| && s.claimed[j].worker == w;
    assert Held(s, j);
    if k < j {
      assert TileOk(c, s.claimed, k);
      Ascending(c, s.claimed, k, j);
      assert false;
    }
  }

  /** No worker can go on. */
  ghost predicate Stuck(s: State) {
    forall w: nat :: !CanMove(s, w)
  }

  /** All workers have stopped, every claimed chunk was analysed, and the log
      holds every unknown word of the range once and in order. */
  ghost predicate Complete(c: Config, s: State) {
    && s.shared.finished && (forall w :: 0 <= w < |s.workers| ==> s.workers[w].Done?)
    && s.turns == s.claimed
    && (c.startAt <= c.until ==> s.log == Undocumented(c.known, c.startAt, c.until)
                                 && s.shared.executed == c.startAt + |s.log|)
  }

  /** When no worker can go on, exactly the chunks before the oldest abandoned
      one have been analysed: either that is where the turns stopped, or no
      chunk was abandoned and the scan is complete. */
  lemma StuckMeans(c: Config, n: nat, moves: seq<Turn>, s: State)
    requires c.step > 0 && n > 0 && IsRun(c, n, moves, s) && Stuck(s)
    ensures s.turns <= s.claimed
    ensures s.turns != s.claimed ==> |s.turns| < |s.claimed| && Abandoned(s, |s.turns|) && !Complete(c, s)
    ensures s.turns != s.claimed ==> c.startAt <= s.claimed[|s.turns|].from
    ensures s.turns != s.claimed ==> s.log == Undocumented(c.known, c.startAt, s.claimed[|s.turns|].from)
    ensures s.turns == s.claimed ==> Complete(c, s)
  {
    hide Undocumented, IsRun, Words, Complete;
    RunKeeps(c, n, moves, s);
    if |s.turns| < |s.claimed| {
      OldestCanProceed(c, n, moves, s);
      NobodyAnalyses(c, n, moves, s);
      assert TileOk(c, s.claimed, |s.turns|);
      NotAllDone(c, s);
    } else {
      AllDone(c, n, moves, s);
    }
  }

  lemma NotAllDone(c: Config, s: State)
    requires s.turns != s.claimed
    ensures !Complete(c, s)
  {
    hide Undocumented;
  }

  /** A worker that analyses can go on, so in a stuck state none does. */
  lemma NobodyAnalyses(c: Config, n: nat, moves: seq<Turn>, s: State)
    requires c.step > 0 && IsRun(c, n, moves, s) && Stuck(s)
    ensures forall w :: 0 <= w < |s.workers| ==> !s.workers[w].Analysing?
  {
    forall w | 0 <= w < |s.workers|
      ensures !s.workers[w].Analysing?
    {
      assert !CanMove(s, w);
    }
  }

  lemma AllDone(c: Config, n: nat, moves: seq<Turn>, s: State)
    requires c.step > 0 && n > 0 && IsRun(c, n, moves, s) && Stuck(s) && |s.turns| == |s.claimed|
    ensures Complete(c, s)
  {
    hide Undocumented, IsRun, Words;
    RunKeeps(c, n, moves, s);
    forall w | 0 <= w < n
      ensures s.workers[w].Done?
    {
      assert !CanMove(s, w);
      assert Holds(s.workers[w]) ==> AtOpenChunk(s, w);
    }
    assert s.workers[0].Done?;
    FinishedMeans(c, n, moves, s);
    assert forall w :: 0 <= w < n ==> !s.workers[w].Analysing?;
  }

  /** No deadlock but by a lost client: a stuck scan is complete exactly when
      no claimed chunk was abandoned. */
  lemma StuckIsComplete(c: Config, n: nat, moves: seq<Turn>, s: State)
    requires c.step > 0 && n > 0 && IsRun(c, n, moves, s) && Stuck(s)
    ensures Complete(c, s) <==> forall k: nat :: !Abandoned(s, k)
  {
    hide IsRun, Complete, Stuck, Abandoned;
    StuckMeans(c, n, moves, s);
    if k: nat :| Abandoned(s, k) {
      NoTurnPassesAbandoned(c, n, moves, s, k);
      assert !Complete(c, s) by { SomeoneLost(c, s, k); }
    }
  }

  lemma SomeoneLost(c: Config, s: State, k: nat)
    requires Abandoned(s, k)
    ensures !Complete(c, s)
  {
    hide Undocumented;
  }

  // ---------------------------------------------------------------------
  // Every run ends
  // ---------------------------------------------------------------------

  /** Steps a worker may still take in its present chunk. */
  function Left(c: Config, p: Phase): nat {
    match p
    case Idle => 1
    case Running(f) => |Words(c, f)| + 4
    case Waiting(f) => |Words(c, f)| + 3
    case Analysing(f, d) => if d <= |Words(c, f)| then |Words(c, f)| - d + 2 else 2
    case Lost(_) => 0
    case Done => 0
  }

  function LeftOfAll(c: Config, ps: seq<Phase>): nat {
    if ps == [] then 0 else LeftOfAll(c, ps[..|ps| - 1]) + Left(c, ps[|ps| - 1])
  }

  function Unclaimed(c: Config, s: State): nat {
    if s.shared.counter < c.until then c.until - s.shared.counter else 0
  }

  function Measure(c: Config, s: State): nat {
    Unclaimed(c, s) * (c.step + 4) + LeftOfAll(c, s.workers)
  }

  lemma {:induction false} LeftUpdate(c: Config, ps: seq<Phase>, w: nat, p: Phase)
    requires w < |ps|
    ensures LeftOfAll(c, ps[w := p]) + Left(c, ps[w]) == LeftOfAll(c, ps) + Left(c, p)
    decreases |ps|
  {
    hide Left;
    var k := |ps| - 1;
    var qs := ps[w := p];
    if w == k {
      assert qs[..k] == ps[..k];
    } else {
      assert qs[..k] == ps[..k][w := p];
      LeftUpdate(c, ps[..k], w, p);
    }
  }

  lemma {:induction false} FewWords(known: Documented, a: nat, b: nat)
    requires a <= b
    ensures |Undocumented(known, a, b)| <= b - a
  {
    if a < b {
      FewWords(known, a, b - 1);
    }
  }

  /** A step uses up the measure. */
  lemma MoveShrinks(c: Config, n: nat, s: State, w: nat)
    requires c.step > 0 && Inv(c, n, s) && CanMove(s, w)
    ensures Measure(c, Move(c, s, w)) < Measure(c, s)
  {
    hide Inv, LeftOfAll, Undocumented;
    var t := Move(c, s, w);
    LeftUpdate(c, s.workers, w, t.workers[w]);
    if s.workers[w].Analysing? {
      AnalyserBound(c, n, s, w);
    }
    if s.workers[w].Idle? && s.shared.counter < c.until {
      var from := s.shared.counter;
      FewWords(c.known, from, ChunkEnd(c, from));
      LessWork(Unclaimed(c, t), Unclaimed(c, s), c.step + 4);
    }
  }

  lemma TakeShrinks(c: Config, n: nat, s: State, m: Turn)
    requires c.step > 0 && Inv(c, n, s) && CanTake(c, s, m)
    ensures Measure(c, Take(c, s, m)) < Measure(c, s)
  {
    hide Inv, LeftOfAll, Words, Move;
    match m
    case Go(w) => MoveShrinks(c, n, s, w);
    case Lose(w) => LeftUpdate(c, s.workers, w, Lost(s.workers[w].from));
  }

  lemma AnalyserBound(c: Config, n: nat, s: State, w: nat)
    requires Inv(c, n, s) && w < |s.workers| && s.workers[w].Analysing?
    ensures s.workers[w].done <= |Words(c, s.workers[w].from)|
  {
    assert Analyser(c, s, s.workers[w]);
  }

  lemma LessWork(a: nat, b: nat, k: nat)
    requires a < b
    ensures a * k + k <= b * k
  {
    assert (a + 1) * k <= b * k;
  }

  /** Every run is finite: its length is bounded by what it started with. So
      every run that goes on as long as some worker can move completes. */
  lemma {:induction false} RunsEnd(c: Config, n: nat, moves: seq<Turn>, s: State)
    requires c.step > 0 && IsRun(c, n, moves, s)
    ensures |moves| + Measure(c, s) <= Measure(c, Init(c, n))
    decreases |moves|
  {
    hide Inv, Take, CanTake, Measure;
    if moves != [] {
      var m, rest := moves[|moves| - 1], moves[..|moves| - 1];
      var before :| IsRun(c, n, rest, before) && CanTake(c, before, m) && s == Take(c, before, m);
      RunsEnd(c, n, rest, before);
      RunKeeps(c, n, rest, before);
      TakeShrinks(c, n, before, m);
    }
  }

  /** A stuck scan that is not complete is reached in two steps: the only worker
      claims the only chunk and loses its client. */
  lemma AbandonedRun() returns (c: Config, s: State)
    ensures c.step > 0 && IsRun(c, 1, [Go(0), Lose(0)], s)
    ensures Stuck(s) && Abandoned(s, 0) && !Complete(c, s)
  {
    hide Undocumented;
    c := Config(0, 1, 1, (x: nat) => false);
    var start := Init(c, 1);
    assert start.workers == [Idle];
    var first := State(Shared(1, 0, 0, false), [Running(0)], [Chunk(0, 0)], [], []);
    s := first.(workers := [Lost(0)]);
    assert Words(c, 0) == [0] by { OneWord(c); }
    assert first == Take(c, start, Go(0)) && s == Take(c, first, Lose(0));
    assert IsRun(c, 1, [], start);
    Extend(c, 1, [], start, Go(0), first);
    Extend(c, 1, [Go(0)], first, Lose(0), s);
    assert [] + [Go(0)] == [Go(0)] && [Go(0)] + [Lose(0)] == [Go(0), Lose(0)];
  }

  lemma OneWord(c: Config)
    requires c.until == 1 && c.step == 1 && !c.known(0)
    ensures Words(c, 0) == [0]
  {
    assert Undocumented(c.known, 0, 0) == [];
  }

  lemma Extend(c: Config, n: nat, moves: seq<Turn>, s: State, m: Turn, t: State)
    requires IsRun(c, n, moves, s) && CanTake(c, s, m) && t == Take(c, s, m)
    ensures IsRun(c, n, moves + [m], t)
  {
    hide Take, CanTake;
    var next := moves + [m];
    assert next[..|next| - 1] == moves && next[|next| - 1] == m;
    assert IsRun(c, n, next[..|next| - 1], s) && CanTake(c, s, next[|next| - 1]) && t == Take(c, s, next[|next| - 1]);
    assert IsRun(c, n, next, t);
  }
}
