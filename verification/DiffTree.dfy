/**
 The minimal diff tree: clients are refined into classes over growing
 instruction prefixes, and a split is recorded where a class first disagrees.
 */
module DiffTree {
  import opened Bytes
  import opened ResultCodec
  import opened ResultRoundTrip

  const SIGILL: nat := 4
  const SIGBUS: nat := 7
  const SIGSEGV: nat := 11
  const SIGALRM: nat := 14

  type Client = nat

  /** A client's result for one prefix. */
  datatype Entry = Entry(client: Client, res: Parsed)

  /** One key of the clustering dictionary with the clients stored under it. */
  datatype Cluster = Cluster(key: Parsed, members: seq<Client>)

  /** Key comparison, the stored key on the left. */
  type Equal = (Parsed, Parsed) -> bool

  /** Comparison of real results (see ParsedEqualIsKey). */
  const REAL: Equal := (a: Parsed, b: Parsed) => EqKey(a) == EqKey(b)

  /** LenientResult: bus errors count as segmentation faults, and after an
      alarm only the signal counts. */
  function Lenient(p: Parsed): Parsed {
    var signum := if p.signum == SIGBUS then SIGSEGV else p.signum;
    if signum == SIGALRM then p.(signum := signum, regs := map[], siAddr := 0, siPc := 0, siCode := 0, mem := Some([]))
    else p.(signum := signum)
  }

  /** FilteredResult over lenient results; the filter is any predicate. */
  function Filtered(filt: Equal): Equal {
    (a: Parsed, b: Parsed) => filt(a, b) || ParsedEqual(a, b)
  }

  // ---------------------------------------------------------------------
  // Clustering
  // ---------------------------------------------------------------------

  /** Adds a client under the first stored key that compares equal. */
  function Insert(cs: seq<Cluster>, eq: Equal, e: Entry): (r: seq<Cluster>) {
    if cs == [] then [Cluster(e.res, [e.client])]
    else if eq(cs[0].key, e.res) then [cs[0].(members := cs[0].members + [e.client])] + cs[1..]
    else [cs[0]] + Insert(cs[1..], eq, e)
  }

  /** cluster_clients_by_results. */
  function Clusters(es: seq<Entry>, eq: Equal): seq<Cluster> {
    if es == [] then [] else Insert(Clusters(es[..|es| - 1], eq), eq, es[|es| - 1])
  }

  /** The dictionary of cluster_clients_by_results, filled result by result. */
  method ClusterByResults(es: seq<Entry>, eq: Equal) returns (cs: seq<Cluster>)
    ensures cs == Clusters(es, eq)
  {
    cs := [];
    assert es[..0] == [];
    for i := 0 to |es|
      invariant cs == Clusters(es[..i], eq)
    {
      assert es[..i + 1][..i] == es[..i];
      cs := StoreResult(cs, eq, es[i]);
    }
    assert es[..|es|] == es;
  }

  /** One dictionary update: look the key up, then append the client. */
  method StoreResult(cs: seq<Cluster>, eq: Equal, e: Entry) returns (r: seq<Cluster>)
    ensures r == Insert(cs, eq, e)
  {
    var k := 0;
    assert cs[0..] == cs && cs[..0] == [];
    while k < |cs| && !eq(cs[k].key, e.res)
      invariant 0 <= k <= |cs|
      invariant Insert(cs, eq, e) == cs[..k] + Insert(cs[k..], eq, e)
    {
      assert cs[k..][1..] == cs[k + 1..];
      assert cs[..k] + ([cs[k]] + Insert(cs[k + 1..], eq, e)) == cs[..k + 1] + Insert(cs[k + 1..], eq, e);
      k := k + 1;
    }
    if k < |cs| {
      assert cs[k..][1..] == cs[k + 1..];
      r := cs[k := cs[k].(members := cs[k].members + [e.client])];
      assert r == cs[..k] + ([r[k]] + cs[k + 1..]);
    } else {
      r := cs + [Cluster(e.res, [e.client])];
    }
  }

  /** Puts a cluster behind all clusters that are at least as large. */
  function InsertBySize(c: Cluster, cs: seq<Cluster>): seq<Cluster> {
    if cs == [] then [c]
    else if |cs[0].members| >= |c.members| then [cs[0]] + InsertBySize(c, cs[1..])
    else [c] + cs
  }

  /** Largest cluster first; equal sizes keep their order. */
  function SortBySize(cs: seq<Cluster>): seq<Cluster> {
    if cs == [] then [] else InsertBySize(cs[|cs| - 1], SortBySize(cs[..|cs| - 1]))
  }

  function CountSigill(cs: seq<Cluster>): nat {
    if cs == [] then 0 else (if cs[0].key.signum == SIGILL then 1 else 0) + CountSigill(cs[1..])
  }

  function DropSigill(cs: seq<Cluster>): (r: seq<Cluster>)
    ensures |r| <= |cs|
  {
    if cs == [] then [] else (if cs[0].key.signum == SIGILL then [] else [cs[0]]) + DropSigill(cs[1..])
  }

  /** cluster_remove_unusable: a single illegal-instruction cluster does not count. */
  function RemoveUnusable(cs: seq<Cluster>): (r: seq<Cluster>)
    ensures |r| <= |cs|
  {
    if CountSigill(cs) == 1 then DropSigill(cs) else cs
  }

  // ---------------------------------------------------------------------
  // Clusters of a class form a partition by result
  // ---------------------------------------------------------------------

  ghost predicate NoDup(s: seq<Client>) {
    forall i, j :: 0 <= i < j < |s| ==> s[i] != s[j]
  }

  predicate Covers(m: map<Client, Parsed>, cl: seq<Client>) {
    forall c :: c in cl ==> c in m
  }

  /** The results of a class, in the order of its clients. */
  function Entries(cl: seq<Client>, m: map<Client, Parsed>): (es: seq<Entry>)
    requires Covers(m, cl)
    ensures |es| == |cl|
    ensures forall i :: 0 <= i < |cl| ==> es[i] == Entry(cl[i], m[cl[i]])
  {
    if cl == [] then [] else Entries(cl[..|cl| - 1], m) + [Entry(cl[|cl| - 1], m[cl[|cl| - 1]])]
  }

  function Total(cs: seq<Cluster>): nat {
    if cs == [] then 0 else |cs[0].members| + Total(cs[1..])
  }

  ghost predicate KeysDistinct(cs: seq<Cluster>) {
    forall i, j :: 0 <= i < j < |cs| ==> EqKey(cs[i].key) != EqKey(cs[j].key)
  }

  /** Some cluster holds the client. */
  ghost predicate Placed(cs: seq<Cluster>, c: Client) {
    exists x :: x in cs && c in x.members
  }

  /** Each member has the result of its cluster's key. */
  ghost predicate ClusterOk(cl: seq<Client>, m: map<Client, Parsed>, x: Cluster)
    requires Covers(m, cl)
  {
    && x.members != [] && NoDup(x.members)
    && forall c :: c in x.members ==> c in cl && EqKey(m[c]) == EqKey(x.key)
  }

  /** The clusters partition the class by result. */
  ghost predicate IsPartition(cl: seq<Client>, m: map<Client, Parsed>, cs: seq<Cluster>)
    requires Covers(m, cl)
  {
    && KeysDistinct(cs)
    && (forall x :: x in cs ==> ClusterOk(cl, m, x))
    && (forall c :: c in cl ==> Placed(cs, c))
    && Total(cs) == |cl|
  }

  /** Where a key is stored, or the end of the list. */
  ghost function Find(cs: seq<Cluster>, key: Parsed): (k: nat)
    ensures k <= |cs|
    ensures k < |cs| ==> EqKey(cs[k].key) == EqKey(key)
    ensures forall i :: 0 <= i < k ==> EqKey(cs[i].key) != EqKey(key)
  {
    if cs == [] || EqKey(cs[0].key) == EqKey(key) then 0 else 1 + Find(cs[1..], key)
  }

  lemma {:induction false} InsertCases(cs: seq<Cluster>, e: Entry)
    ensures var k := Find(cs, e.res);
      Insert(cs, REAL, e) ==
        if k < |cs| then cs[k := Cluster(cs[k].key, cs[k].members + [e.client])]
        else cs + [Cluster(e.res, [e.client])]
    ensures Total(Insert(cs, REAL, e)) == Total(cs) + 1
  {
    if cs != [] && EqKey(cs[0].key) != EqKey(e.res) {
      InsertCases(cs[1..], e);
    }
  }

  lemma InsertKeepsPartition(cl: seq<Client>, m: map<Client, Parsed>, cs: seq<Cluster>, c: Client)
    requires Covers(m, cl + [c]) && Covers(m, cl) && IsPartition(cl, m, cs) && NoDup(cl + [c])
    ensures c in m
    ensures IsPartition(cl + [c], m, Insert(cs, REAL, Entry(c, m[c])))
  {
    hide EqKey, Total, Insert;
    assert (cl + [c])[|cl|] == c;
    var e := Entry(c, m[c]);
    InsertCases(cs, e);
    var r, k := Insert(cs, REAL, e), Find(cs, e.res);
    forall i | 0 <= i < |cl|
      ensures cl[i] != c
    {
      assert (cl + [c])[i] != (cl + [c])[|cl|];
    }
    assert c !in cl;
    forall x | x in r
      ensures ClusterOk(cl + [c], m, x)
    {
      var i :| 0 <= i < |r| && r[i] == x;
      if i < |cs| {
        assert cs[i] in cs && ClusterOk(cl, m, cs[i]);
      }
    }
    forall d | d in cl + [c]
      ensures Placed(r, d)
    {
      if d == c {
        assert r[k] in r && c in r[k].members;
      } else {
        assert d in cl && Placed(cs, d);
        var x :| x in cs && d in x.members;
        var i :| 0 <= i < |cs| && cs[i] == x;
        assert r[i] in r && d in r[i].members;
      }
    }
    assert KeysDistinct(r);
  }

  lemma {:induction false} ClustersPartition(cl: seq<Client>, m: map<Client, Parsed>)
    requires Covers(m, cl) && NoDup(cl)
    ensures IsPartition(cl, m, Clusters(Entries(cl, m), REAL))
  {
    hide IsPartition, Insert, EqKey;
    if cl == [] {
      EmptyPartition(m);
    } else {
      var k := |cl| - 1;
      var cl', c := cl[..k], cl[k];
      ClustersPartition(cl', m);
      assert cl == cl' + [c];
      InsertKeepsPartition(cl', m, Clusters(Entries(cl', m), REAL), c);
      assert Entries(cl, m)[..k] == Entries(cl', m);
      assert Entries(cl, m)[k] == Entry(c, m[c]);
    }
  }

  lemma EmptyPartition(m: map<Client, Parsed>)
    ensures IsPartition([], m, [])
  {
  }

  // ---------------------------------------------------------------------
  // Sorting keeps the partition
  // ---------------------------------------------------------------------

  lemma {:induction false} InsertBySizeFacts(c: Cluster, cs: seq<Cluster>)
    ensures var r := InsertBySize(c, cs);
      && |r| == |cs| + 1
      && (forall x :: x in r <==> x == c || x in cs)
      && Total(r) == |c.members| + Total(cs)
      && multiset(r) == multiset(cs) + multiset{c}
  {
    if cs != [] && |cs[0].members| >= |c.members| {
      InsertBySizeFacts(c, cs[1..]);
      var r := InsertBySize(c, cs[1..]);
      assert cs == [cs[0]] + cs[1..];
      forall x
        ensures x in [cs[0]] + r <==> x == c || x in cs
      {
        assert x in cs <==> x == cs[0] || x in cs[1..];
      }
      assert ([cs[0]] + r)[1..] == r;
    } else {
      assert ([c] + cs)[1..] == cs;
    }
  }

  lemma {:induction false} InsertBySizeKeys(c: Cluster, cs: seq<Cluster>)
    requires KeysDistinct(cs) && forall x :: x in cs ==> EqKey(x.key) != EqKey(c.key)
    ensures KeysDistinct(InsertBySize(c, cs))
  {
    if cs != [] && |cs[0].members| >= |c.members| {
      InsertBySizeKeys(c, cs[1..]);
      InsertBySizeFacts(c, cs[1..]);
      var r := InsertBySize(c, cs[1..]);
      forall x | x in r
        ensures EqKey(x.key) != EqKey(cs[0].key)
      {
        if x != c {
          var i :| 0 <= i < |cs[1..]| && cs[1..][i] == x;
          assert cs[i + 1] == x;
        } else {
          assert cs[0] in cs;
        }
      }
      ConsKeys(cs[0], r);
    } else {
      ConsKeys(c, cs);
    }
  }

  lemma ConsKeys(c: Cluster, cs: seq<Cluster>)
    requires KeysDistinct(cs) && forall x :: x in cs ==> EqKey(x.key) != EqKey(c.key)
    ensures KeysDistinct([c] + cs)
  {
    var r := [c] + cs;
    forall i, j | 0 <= i < j < |r|
      ensures EqKey(r[i].key) != EqKey(r[j].key)
    {
      assert r[j] == cs[j - 1] && cs[j - 1] in cs;
      if i > 0 {
        assert r[i] == cs[i - 1];
      }
    }
  }

  lemma {:induction false} SortFacts(cs: seq<Cluster>)
    ensures var r := SortBySize(cs);
      && |r| == |cs|
      && (forall x :: x in r <==> x in cs)
      && Total(r) == Total(cs)
      && multiset(r) == multiset(cs)
      && (KeysDistinct(cs) ==> KeysDistinct(r))
  {
    hide InsertBySize;
    if cs != [] {
      var k := |cs| - 1;
      var cs', c := cs[..k], cs[k];
      SortFacts(cs');
      InsertBySizeFacts(c, SortBySize(cs'));
      assert cs == cs' + [c];
      TotalSnoc(cs', c);
      if KeysDistinct(cs) {
        forall x | x in SortBySize(cs')
          ensures EqKey(x.key) != EqKey(c.key)
        {
          var i :| 0 <= i < |cs'| && cs'[i] == x;
          assert cs[i] == x;
        }
        InsertBySizeKeys(c, SortBySize(cs'));
      }
    }
  }

  lemma {:induction false} TotalSnoc(cs: seq<Cluster>, c: Cluster)
    ensures Total(cs + [c]) == Total(cs) + |c.members|
  {
    if cs != [] {
      assert (cs + [c])[1..] == cs[1..] + [c];
      TotalSnoc(cs[1..], c);
    }
  }

  /** The largest cluster comes first: sizes never increase. */
  lemma {:induction false} SortedBySize(cs: seq<Cluster>)
    ensures forall i :: 0 <= i < |SortBySize(cs)| - 1 ==> |SortBySize(cs)[i].members| >= |SortBySize(cs)[i + 1].members|
  {
    if cs != [] {
      SortedBySize(cs[..|cs| - 1]);
      InsertSorted(cs[|cs| - 1], SortBySize(cs[..|cs| - 1]));
    }
  }

  lemma {:induction false} InsertSorted(c: Cluster, cs: seq<Cluster>)
    requires forall i :: 0 <= i < |cs| - 1 ==> |cs[i].members| >= |cs[i + 1].members|
    ensures forall i :: 0 <= i < |InsertBySize(c, cs)| - 1 ==> |InsertBySize(c, cs)[i].members| >= |InsertBySize(c, cs)[i + 1].members|
    ensures InsertBySize(c, cs)[0] == c || (cs != [] && InsertBySize(c, cs)[0] == cs[0])
  {
    if cs != [] && |cs[0].members| >= |c.members| {
      forall i | 0 <= i < |cs[1..]| - 1
        ensures |cs[1..][i].members| >= |cs[1..][i + 1].members|
      {
        assert cs[1..][i] == cs[i + 1] && cs[1..][i + 1] == cs[i + 2];
      }
      InsertSorted(c, cs[1..]);
    }
  }

  ghost predicate Descending(cs: seq<Cluster>) {
    forall i :: 0 <= i < |cs| - 1 ==> |cs[i].members| >= |cs[i + 1].members|
  }

  function OfSize(cs: seq<Cluster>, n: nat): seq<Cluster> {
    if cs == [] then [] else (if |cs[0].members| == n then [cs[0]] else []) + OfSize(cs[1..], n)
  }

  lemma {:induction false} NoneOfSize(cs: seq<Cluster>, n: nat)
    requires Descending(cs) && (cs != [] ==> |cs[0].members| < n)
    ensures OfSize(cs, n) == []
  {
    if |cs| > 1 {
      assert |cs[0].members| >= |cs[0 + 1].members|;
      assert forall i :: 0 <= i < |cs[1..]| ==> cs[1..][i] == cs[i + 1];
      NoneOfSize(cs[1..], n);
    }
  }

  lemma {:induction false} InsertIsStable(c: Cluster, cs: seq<Cluster>, n: nat)
    requires Descending(cs)
    ensures OfSize(InsertBySize(c, cs), n) == OfSize(cs, n) + if |c.members| == n then [c] else []
  {
    hide OfSize, Descending;
    if cs != [] && |cs[0].members| >= |c.members| {
      DescendingTail(cs);
      InsertIsStable(c, cs[1..], n);
      OfSizeCons(cs[0], InsertBySize(c, cs[1..]), n);
      OfSizeCons(cs[0], cs[1..], n);
      assert cs == [cs[0]] + cs[1..];
    } else {
      OfSizeCons(c, cs, n);
      assert [c] + cs == InsertBySize(c, cs);
      if |c.members| == n { NoneOfSize(cs, n); }
    }
  }

  lemma DescendingTail(cs: seq<Cluster>)
    requires Descending(cs) && cs != []
    ensures Descending(cs[1..])
  {
    assert forall i :: 0 <= i < |cs[1..]| ==> cs[1..][i] == cs[i + 1];
  }

  lemma OfSizeCons(c: Cluster, cs: seq<Cluster>, n: nat)
    ensures OfSize([c] + cs, n) == (if |c.members| == n then [c] else []) + OfSize(cs, n)
  {
    assert ([c] + cs)[1..] == cs;
  }

  lemma {:induction false} OfSizeAppend(cs: seq<Cluster>, c: Cluster, n: nat)
    ensures OfSize(cs + [c], n) == OfSize(cs, n) + if |c.members| == n then [c] else []
  {
    if cs == [] {
      assert [c][1..] == [];
    } else {
      OfSizeAppend(cs[1..], c, n);
      assert (cs + [c])[1..] == cs[1..] + [c];
    }
  }

  /** Clusters of the same size keep their order. */
  lemma {:induction false} SortIsStable(cs: seq<Cluster>, n: nat)
    ensures OfSize(SortBySize(cs), n) == OfSize(cs, n)
  {
    hide InsertBySize;
    if cs != [] {
      var k := |cs| - 1;
      SortIsStable(cs[..k], n);
      SortedBySize(cs[..k]);
      InsertIsStable(cs[k], SortBySize(cs[..k]), n);
      OfSizeAppend(cs[..k], cs[k], n);
      assert cs == cs[..k] + [cs[k]];
    }
  }

  // ---------------------------------------------------------------------
  // Reports
  // ---------------------------------------------------------------------

  /** The results of each client over growing prefixes. */
  type Reports = map<Client, seq<Parsed>>

  /** A client reports until its first signal, or for all prefixes. */
  predicate Stopping(rs: seq<Parsed>, maxLen: nat) {
    && |rs| <= maxLen
    && (forall i :: 0 <= i < |rs| - 1 ==> rs[i].signum == 0)
    && (|rs| < maxLen ==> rs != [] && rs[|rs| - 1].signum != 0)
  }

  /** run_with_instr_seq_full_seq for an arbitrary machine: run prefixes of
      growing length until the first signal. */
  method RunFullSeq(run: nat -> Parsed, l: nat) returns (results: seq<Parsed>)
    ensures Stopping(results, l)
    ensures forall i :: 0 <= i < |results| ==> results[i] == run(i + 1)
  {
    results := [];
    for n := 0 to l
      invariant |results| == n
      invariant forall i :: 0 <= i < n ==> results[i] == run(i + 1) && results[i].signum == 0
    {
      var r := run(n + 1);
      results := results + [r];
      if r.signum != 0 {
        return results;
      }
    }
  }

  ghost predicate ReportsOk(rep: Reports, clients: seq<Client>, maxLen: nat) {
    NoDup(clients) && forall c :: c in clients ==> c in rep && Stopping(rep[c], maxLen)
  }

  /** The results of prefix i by client, for those that got that far. */
  function Level(rep: Reports, i: nat): map<Client, Parsed> {
    map c | c in rep && i < |rep[c]| :: rep[c][i]
  }

  /** multiresults_to_results_per_seq_len for one length, stored by client. */
  method CollectLevel(rep: Reports, clients: seq<Client>, i: nat) returns (byClient: map<Client, Parsed>)
    requires forall c :: c in clients ==> c in rep
    ensures forall c :: c in byClient <==> c in clients && i < |rep[c]|
    ensures forall c :: c in byClient ==> byClient[c] == rep[c][i]
  {
    byClient := map[];
    for k := 0 to |clients|
      invariant forall c :: c in byClient <==> c in clients[..k] && i < |rep[c]|
      invariant forall c :: c in byClient ==> c in rep && i < |rep[c]| && byClient[c] == rep[c][i]
    {
      var c := clients[k];
      assert clients[..k + 1] == clients[..k] + [c];
      if i < |rep[c]| {
        byClient := byClient[c := rep[c][i]];
      }
    }
    assert clients[..|clients|] == clients;
  }
}
