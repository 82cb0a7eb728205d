/**
 Partition refinement of the diff tree: what the classes are at every prefix
 length, why no lookup fails, and how often two clients can be split.
 */
module DiffTreeRefinement {
  import opened Bytes
  import opened ResultCodec
  import opened ResultRoundTrip
  import opened DiffTree

  // ---------------------------------------------------------------------
  // One level
  // ---------------------------------------------------------------------

  /** The clusters of a class, largest first. */
  function ClassClusters(m: map<Client, Parsed>, cl: seq<Client>): seq<Cluster>
    requires Covers(m, cl)
  {
    SortBySize(Clusters(Entries(cl, m), REAL))
  }

  /** Clusters that go on: no signal and still more than one client. */
  function Continuing(cs: seq<Cluster>): seq<seq<Client>> {
    if cs == [] then []
    else (if cs[0].key.signum == 0 && |cs[0].members| > 1 then [cs[0].members] else []) + Continuing(cs[1..])
  }

  function LenientEntries(cl: seq<Client>, m: map<Client, Parsed>): (es: seq<Entry>)
    requires Covers(m, cl)
    ensures |es| == |cl|
    ensures forall i :: 0 <= i < |cl| ==> es[i] == Entry(cl[i], Lenient(m[cl[i]]))
  {
    if cl == [] then [] else LenientEntries(cl[..|cl| - 1], m) + [Entry(cl[|cl| - 1], Lenient(m[cl[|cl| - 1]]))]
  }

  /** A class is reported when both the exact and the filtered results fall
      apart into more than one usable cluster. */
  predicate ShouldSplit(m: map<Client, Parsed>, cl: seq<Client>, filt: Equal)
    requires Covers(m, cl)
  {
    && |RemoveUnusable(ClassClusters(m, cl))| > 1
    && |RemoveUnusable(Clusters(LenientEntries(cl, m), Filtered(filt)))| > 1
  }

  datatype Split = Split(clusters: seq<Cluster>, seqLen: nat)

  predicate AllCovered(m: map<Client, Parsed>, cls: seq<seq<Client>>) {
    forall k :: 0 <= k < |cls| ==> Covers(m, cls[k])
  }

  function NextClasses(m: map<Client, Parsed>, cls: seq<seq<Client>>): seq<seq<Client>>
    requires AllCovered(m, cls)
  {
    if cls == [] then []
    else
      var k := |cls| - 1;
      NextClasses(m, cls[..k]) + Continuing(ClassClusters(m, cls[k]))
  }

  function LevelSplits(m: map<Client, Parsed>, cls: seq<seq<Client>>, filt: Equal, seqLen: nat): seq<Split>
    requires AllCovered(m, cls)
  {
    if cls == [] then []
    else
      var k := |cls| - 1;
      LevelSplits(m, cls[..k], filt, seqLen)
      + if ShouldSplit(m, cls[k], filt) then [Split(ClassClusters(m, cls[k]), seqLen)] else []
  }

  // ---------------------------------------------------------------------
  // All levels
  // ---------------------------------------------------------------------

  /** The classes before prefix i + 1 is looked at. */
  function ClassesAt(rep: Reports, clients: seq<Client>, i: nat): seq<seq<Client>> {
    if i == 0 then [clients]
    else
      var cls := ClassesAt(rep, clients, i - 1);
      if AllCovered(Level(rep, i - 1), cls) then NextClasses(Level(rep, i - 1), cls) else []
  }

  /** The splits recorded over the first i prefixes. */
  function SplitsUpTo(rep: Reports, clients: seq<Client>, filt: Equal, i: nat): seq<Split> {
    if i == 0 then []
    else
      var cls := ClassesAt(rep, clients, i - 1);
      SplitsUpTo(rep, clients, filt, i - 1)
      + if AllCovered(Level(rep, i - 1), cls) then LevelSplits(Level(rep, i - 1), cls, filt, i) else []
  }

  // ---------------------------------------------------------------------
  // The reference: agreement on all shorter prefixes
  // ---------------------------------------------------------------------

  /** No signal on the first i prefixes. */
  ghost predicate Clean(rep: Reports, c: Client, i: nat) {
    c in rep && i <= |rep[c]| && forall j :: 0 <= j < i ==> rep[c][j].signum == 0
  }

  /** Two clients are equal and signal-free on the first i prefixes. */
  ghost predicate Agree(rep: Reports, c: Client, d: Client, i: nat) {
    && Clean(rep, c, i) && Clean(rep, d, i)
    && forall j :: 0 <= j < i ==> EqKey(rep[c][j]) == EqKey(rep[d][j])
  }

  /** They agree on the first i prefixes and differ on the next one. */
  ghost predicate FirstDiffer(rep: Reports, c: Client, d: Client, i: nat) {
    Agree(rep, c, d, i) && i < |rep[c]| && i < |rep[d]| && EqKey(rep[c][i]) != EqKey(rep[d][i])
  }

  ghost predicate Together(cls: seq<seq<Client>>, c: Client, d: Client) {
    exists k :: 0 <= k < |cls| && c in cls[k] && d in cls[k]
  }

  ghost predicate Disjoint(cls: seq<seq<Client>>) {
    forall k, l, c :: 0 <= k < l < |cls| && c in cls[k] ==> c !in cls[l]
  }

  ghost predicate ClassOk(rep: Reports, clients: seq<Client>, cl: seq<Client>, i: nat) {
    && NoDup(cl) && |cl| >= 2
    && (forall c :: c in cl ==> c in clients && Clean(rep, c, i))
    && (forall c, d :: c in cl && d in cl ==> Agree(rep, c, d, i))
  }

  /** The refinement invariant: disjoint classes of at least two clients, and
      two clients share a class exactly when they agree so far. */
  ghost predicate ClassesOk(rep: Reports, clients: seq<Client>, cls: seq<seq<Client>>, i: nat) {
    && (forall k :: 0 <= k < |cls| ==> ClassOk(rep, clients, cls[k], i))
    && Disjoint(cls)
    && (forall c, d :: c in clients && d in clients && c != d && Agree(rep, c, d, i) ==> Together(cls, c, d))
  }

  /** Every lookup succeeds: a client stops reporting only after a signal. */
  lemma LookupsSucceed(rep: Reports, clients: seq<Client>, maxLen: nat, cls: seq<seq<Client>>, i: nat)
    requires ReportsOk(rep, clients, maxLen) && ClassesOk(rep, clients, cls, i) && i < maxLen
    ensures AllCovered(Level(rep, i), cls)
  {
    forall k, c | 0 <= k < |cls| && c in cls[k]
      ensures c in Level(rep, i)
    {
      assert ClassOk(rep, clients, cls[k], i);
      assert c in clients && Stopping(rep[c], maxLen) && Clean(rep, c, i);
      if i == |rep[c]| && i > 0 {
        assert rep[c][i - 1].signum == 0;
      }
    }
  }

  // ---------------------------------------------------------------------
  // What continues from one class
  // ---------------------------------------------------------------------

  lemma ClassPartition(m: map<Client, Parsed>, cl: seq<Client>)
    requires Covers(m, cl) && NoDup(cl)
    ensures IsPartition(cl, m, ClassClusters(m, cl))
  {
    hide EqKey, Total, SortBySize, Clusters, ClusterOk;
    ClustersPartition(cl, m);
    var cs := Clusters(Entries(cl, m), REAL);
    SortFacts(cs);
    forall c | c in cl
      ensures Placed(SortBySize(cs), c)
    {
      assert Placed(cs, c);
      var x :| x in cs && c in x.members;
      assert x in SortBySize(cs);
    }
  }

  /** n is the member list of a continuing cluster. */
  ghost predicate FromCluster(cs: seq<Cluster>, n: seq<Client>) {
    exists x :: x in cs && x.members == n && x.key.signum == 0 && |n| > 1
  }

  lemma {:induction false} ContinuingFacts(cs: seq<Cluster>)
    ensures forall n :: n in Continuing(cs) ==> FromCluster(cs, n)
    ensures forall x :: x in cs && x.key.signum == 0 && |x.members| > 1 ==> x.members in Continuing(cs)
  {
    if cs != [] {
      ContinuingFacts(cs[1..]);
      assert cs == [cs[0]] + cs[1..];
      forall n | n in Continuing(cs)
        ensures FromCluster(cs, n)
      {
        if n in Continuing(cs[1..]) {
          var x :| x in cs[1..] && x.members == n && x.key.signum == 0 && |n| > 1;
          assert x in cs;
        } else {
          assert cs[0] in cs && cs[0].members == n;
        }
      }
      forall x | x in cs && x.key.signum == 0 && |x.members| > 1
        ensures x.members in Continuing(cs)
      {
        if x != cs[0] {
          assert x in cs[1..];
        }
      }
    }
  }

  lemma {:induction false} ContinuingDisjoint(cl: seq<Client>, m: map<Client, Parsed>, cs: seq<Cluster>)
    requires Covers(m, cl) && KeysDistinct(cs) && forall x :: x in cs ==> ClusterOk(cl, m, x)
    ensures Disjoint(Continuing(cs))
  {
    if cs != [] {
      ContinuingDisjoint(cl, m, cs[1..]);
      ContinuingFacts(cs[1..]);
      var rest := Continuing(cs[1..]);
      forall n, c | n in rest && c in cs[0].members
        ensures c !in n
      {
        assert FromCluster(cs[1..], n);
        var x :| x in cs[1..] && x.members == n;
        var i :| 0 <= i < |cs[1..]| && cs[1..][i] == x;
        assert cs[i + 1] == x && x in cs && cs[0] in cs;
        assert ClusterOk(cl, m, x) && ClusterOk(cl, m, cs[0]);
      }
      DisjointCons(cs[0].members, rest);
    }
  }

  lemma DisjointCons(n: seq<Client>, rest: seq<seq<Client>>)
    requires Disjoint(rest) && forall r, c :: r in rest && c in n ==> c !in r
    ensures Disjoint([n] + rest)
  {
    var all := [n] + rest;
    forall k, l, c | 0 <= k < l < |all| && c in all[k]
      ensures c !in all[l]
    {
      assert all[l] == rest[l - 1] && rest[l - 1] in rest;
      if k > 0 {
        assert all[k] == rest[k - 1];
      }
    }
  }

  lemma DisjointAppend(a: seq<seq<Client>>, b: seq<seq<Client>>)
    requires Disjoint(a) && Disjoint(b) && forall x, y, c :: x in a && y in b && c in x ==> c !in y
    ensures Disjoint(a + b)
  {
    var all := a + b;
    forall k, l, c | 0 <= k < l < |all| && c in all[k]
      ensures c !in all[l]
    {
      if l < |a| {
        assert all[k] == a[k] && all[l] == a[l];
      } else if k >= |a| {
        assert all[k] == b[k - |a|] && all[l] == b[l - |a|];
      } else {
        assert all[k] in a && all[l] in b;
      }
    }
  }

  /** A class of the next level: part of an old class, equal and clean there. */
  ghost predicate ComesFrom(m: map<Client, Parsed>, cls: seq<seq<Client>>, n: seq<Client>)
    requires AllCovered(m, cls)
  {
    exists k :: 0 <= k < |cls| && FromCluster(ClassClusters(m, cls[k]), n)
  }

  lemma {:induction false} NextFacts(m: map<Client, Parsed>, cls: seq<seq<Client>>)
    requires AllCovered(m, cls)
    ensures forall n :: n in NextClasses(m, cls) ==> ComesFrom(m, cls, n)
    ensures forall k, x :: 0 <= k < |cls| && x in ClassClusters(m, cls[k]) && x.key.signum == 0 && |x.members| > 1 ==>
      x.members in NextClasses(m, cls)
  {
    hide ClassClusters;
    if cls != [] {
      var k := |cls| - 1;
      NextFacts(m, cls[..k]);
      ContinuingFacts(ClassClusters(m, cls[k]));
      forall n | n in NextClasses(m, cls)
        ensures ComesFrom(m, cls, n)
      {
        if n in NextClasses(m, cls[..k]) {
          assert ComesFrom(m, cls[..k], n);
          var j :| 0 <= j < k && FromCluster(ClassClusters(m, cls[..k][j]), n);
          assert cls[..k][j] == cls[j];
        } else {
          assert FromCluster(ClassClusters(m, cls[k]), n);
        }
      }
      forall j, x | 0 <= j < |cls| && x in ClassClusters(m, cls[j]) && x.key.signum == 0 && |x.members| > 1
        ensures x.members in NextClasses(m, cls)
      {
        if j < k {
          assert cls[..k][j] == cls[j];
        }
      }
    }
  }

  /** Members of a continuing cluster belong to the class and have its result. */
  lemma FromClusterMembers(m: map<Client, Parsed>, cl: seq<Client>, n: seq<Client>)
    requires Covers(m, cl) && NoDup(cl) && FromCluster(ClassClusters(m, cl), n)
    ensures NoDup(n) && |n| >= 2
    ensures forall c :: c in n ==> c in cl && m[c].signum == 0
    ensures forall c, d :: c in n && d in n ==> EqKey(m[c]) == EqKey(m[d])
  {
    hide ClassClusters, IsPartition;
    ClassPartition(m, cl);
    var x :| x in ClassClusters(m, cl) && x.members == n && x.key.signum == 0 && |n| > 1;
    assert ClusterOk(cl, m, x) by { PartitionCluster(cl, m, ClassClusters(m, cl), x); }
    forall c | c in n
      ensures m[c].signum == 0
    {
      assert EqKey(m[c]).signum == EqKey(x.key).signum;
    }
  }

  lemma PartitionCluster(cl: seq<Client>, m: map<Client, Parsed>, cs: seq<Cluster>, x: Cluster)
    requires Covers(m, cl) && IsPartition(cl, m, cs) && x in cs
    ensures ClusterOk(cl, m, x)
  {
  }

  lemma {:induction false} NextDisjoint(m: map<Client, Parsed>, cls: seq<seq<Client>>)
    requires AllCovered(m, cls) && Disjoint(cls) && forall k :: 0 <= k < |cls| ==> NoDup(cls[k])
    ensures Disjoint(NextClasses(m, cls))
  {
    hide ClassClusters, NoDup, FromCluster, ComesFrom, Continuing;
    if cls != [] {
      var k := |cls| - 1;
      NextDisjoint(m, cls[..k]);
      NextFacts(m, cls[..k]);
      var cs := ClassClusters(m, cls[k]);
      ClassPartition(m, cls[k]);
      ContinuingDisjoint(cls[k], m, cs);
      ContinuingFacts(cs);
      forall x, y, c | x in NextClasses(m, cls[..k]) && y in Continuing(cs) && c in x
        ensures c !in y
      {
        FromDifferentClasses(m, cls, x, y, c);
      }
      DisjointAppend(NextClasses(m, cls[..k]), Continuing(cs));
    }
  }

  lemma FromDifferentClasses(m: map<Client, Parsed>, cls: seq<seq<Client>>, x: seq<Client>, y: seq<Client>, c: Client)
    requires AllCovered(m, cls) && Disjoint(cls) && (forall k :: 0 <= k < |cls| ==> NoDup(cls[k])) && cls != []
    requires ComesFrom(m, cls[..|cls| - 1], x) && FromCluster(ClassClusters(m, cls[|cls| - 1]), y) && c in x
    ensures c !in y
  {
    hide ClassClusters, NoDup, FromCluster, EqKey;
    var k := |cls| - 1;
    var j :| 0 <= j < k && FromCluster(ClassClusters(m, cls[..k][j]), x);
    assert cls[..k][j] == cls[j];
    FromClusterMembers(m, cls[j], x);
    FromClusterMembers(m, cls[k], y);
    assert c in cls[j] && c !in cls[k];
  }

  /** One level preserves the refinement invariant. */
  lemma LevelKeeps(rep: Reports, clients: seq<Client>, maxLen: nat, cls: seq<seq<Client>>, i: nat)
    requires ReportsOk(rep, clients, maxLen) && ClassesOk(rep, clients, cls, i) && i < maxLen
    ensures AllCovered(Level(rep, i), cls)
    ensures ClassesOk(rep, clients, NextClasses(Level(rep, i), cls), i + 1)
  {
    hide ClassClusters, NextClasses, ReportsOk, NoDup;
    LookupsSucceed(rep, clients, maxLen, cls, i);
    var m := Level(rep, i);
    var next := NextClasses(m, cls);
    NextFacts(m, cls);
    forall l | 0 <= l < |next|
      ensures ClassOk(rep, clients, next[l], i + 1)
    {
      assert next[l] in next && ComesFrom(m, cls, next[l]);
      var k :| 0 <= k < |cls| && FromCluster(ClassClusters(m, cls[k]), next[l]);
      ClassStep(rep, clients, cls[k], next[l], i);
    }
    assert Disjoint(next) by { NextDisjoint(m, cls); }
    forall c, d | c in clients && d in clients && c != d && Agree(rep, c, d, i + 1)
      ensures Together(next, c, d)
    {
      assert Agree(rep, c, d, i) && Together(cls, c, d);
      var k :| 0 <= k < |cls| && c in cls[k] && d in cls[k];
      StayTogether(m, cls[k], c, d);
      var x :| x in ClassClusters(m, cls[k]) && x.key.signum == 0 && c in x.members && d in x.members && |x.members| > 1;
      assert x.members in next;
      var l :| 0 <= l < |next| && next[l] == x.members;
      assert c in next[l] && d in next[l];
    }
  }

  lemma ClassStep(rep: Reports, clients: seq<Client>, cl: seq<Client>, n: seq<Client>, i: nat)
    requires Covers(Level(rep, i), cl) && ClassOk(rep, clients, cl, i)
    requires FromCluster(ClassClusters(Level(rep, i), cl), n)
    ensures ClassOk(rep, clients, n, i + 1)
  {
    hide ClassClusters, FromCluster, EqKey;
    FromClusterMembers(Level(rep, i), cl, n);
    forall c | c in n
      ensures Clean(rep, c, i + 1)
    {
      assert c in cl && Clean(rep, c, i);
    }
    forall c, d | c in n && d in n
      ensures Agree(rep, c, d, i + 1)
    {
      assert Agree(rep, c, d, i);
    }
  }

  /** Clients of one class with the same signal-free result stay together. */
  lemma StayTogether(m: map<Client, Parsed>, cl: seq<Client>, c: Client, d: Client)
    requires Covers(m, cl) && NoDup(cl) && c in cl && d in cl && c != d
    requires EqKey(m[c]) == EqKey(m[d]) && m[c].signum == 0
    ensures exists x :: x in ClassClusters(m, cl) && x.key.signum == 0 && c in x.members && d in x.members && |x.members| > 1
  {
    hide ClassClusters;
    ClassPartition(m, cl);
    var cs := ClassClusters(m, cl);
    assert Placed(cs, c) && Placed(cs, d);
    var x :| x in cs && c in x.members;
    var y :| y in cs && d in y.members;
    assert ClusterOk(cl, m, x) && ClusterOk(cl, m, y);
    SameKeySameCluster(cs, x, y);
    assert EqKey(m[c]).signum == EqKey(x.key).signum;
    var i :| 0 <= i < |x.members| && x.members[i] == c;
    var j :| 0 <= j < |x.members| && x.members[j] == d;
  }

  lemma SameKeySameCluster(cs: seq<Cluster>, x: Cluster, y: Cluster)
    requires KeysDistinct(cs) && x in cs && y in cs && EqKey(x.key) == EqKey(y.key)
    ensures x == y
  {
    var i :| 0 <= i < |cs| && cs[i] == x;
    var j :| 0 <= j < |cs| && cs[j] == y;
  }

  /** The refinement invariant holds at every prefix length. */
  lemma {:induction false} RefinementInvariant(rep: Reports, clients: seq<Client>, maxLen: nat, i: nat)
    requires ReportsOk(rep, clients, maxLen) && |clients| >= 2 && i <= maxLen
    ensures ClassesOk(rep, clients, ClassesAt(rep, clients, i), i)
    ensures i < maxLen ==> AllCovered(Level(rep, i), ClassesAt(rep, clients, i))
  {
    hide ReportsOk, NextClasses;
    if i == 0 {
      FirstClass(rep, clients, maxLen);
    } else {
      RefinementInvariant(rep, clients, maxLen, i - 1);
      LevelKeeps(rep, clients, maxLen, ClassesAt(rep, clients, i - 1), i - 1);
    }
    if i < maxLen {
      LookupsSucceed(rep, clients, maxLen, ClassesAt(rep, clients, i), i);
    }
  }

  lemma FirstClass(rep: Reports, clients: seq<Client>, maxLen: nat)
    requires ReportsOk(rep, clients, maxLen) && |clients| >= 2
    ensures ClassesOk(rep, clients, [clients], 0)
  {
    forall c, d | c in clients && d in clients
      ensures Together([clients], c, d)
    {
      assert c in [clients][0] && d in [clients][0];
    }
  }

  // ---------------------------------------------------------------------
  // Counting splits
  // ---------------------------------------------------------------------

  /** Sum of class size minus one. */
  function Potential(cls: seq<seq<Client>>): int {
    if cls == [] then 0 else Potential(cls[..|cls| - 1]) + |cls[|cls| - 1]| - 1
  }

  lemma {:induction false} PotentialAppend(a: seq<seq<Client>>, b: seq<seq<Client>>)
    ensures Potential(a + b) == Potential(a) + Potential(b)
  {
    if b == [] {
      assert a + b == a;
    } else {
      var k := |b| - 1;
      PotentialAppend(a, b[..k]);
      assert (a + b)[..|a + b| - 1] == a + b[..k];
    }
  }

  lemma {:induction false} ContinuingPotential(cs: seq<Cluster>)
    requires forall x :: x in cs ==> x.members != []
    ensures Potential(Continuing(cs)) + |cs| <= Total(cs)
  {
    if cs != [] {
      ContinuingPotential(cs[1..]);
      var x, rest := cs[0], Continuing(cs[1..]);
      assert x in cs;
      PotentialAppend([x.members], rest);
      assert Potential([x.members]) == |x.members| - 1 by { assert [x.members][..0] == []; }
      assert [] + rest == rest;
    }
  }

  /** A recorded split uses up potential. */
  lemma ClassPotential(m: map<Client, Parsed>, cl: seq<Client>, filt: Equal)
    requires Covers(m, cl) && NoDup(cl) && |cl| >= 1
    ensures Potential(Continuing(ClassClusters(m, cl))) + (if ShouldSplit(m, cl, filt) then 1 else 0) <= |cl| - 1
  {
    hide ClassClusters, Continuing, Potential;
    ClassPartition(m, cl);
    var cs := ClassClusters(m, cl);
    forall x | x in cs
      ensures x.members != []
    {
      assert ClusterOk(cl, m, x);
    }
    ContinuingPotential(cs);
    assert |cs| >= 1 by {
      assert cl[0] in cl && Placed(cs, cl[0]);
    }
  }

  lemma {:induction false} LevelPotential(m: map<Client, Parsed>, cls: seq<seq<Client>>, filt: Equal, n: nat)
    requires AllCovered(m, cls) && forall k :: 0 <= k < |cls| ==> NoDup(cls[k]) && |cls[k]| >= 1
    ensures |LevelSplits(m, cls, filt, n)| + Potential(NextClasses(m, cls)) <= Potential(cls)
  {
    hide ShouldSplit, ClassClusters, Continuing, NoDup;
    if cls != [] {
      var k := |cls| - 1;
      LevelPotential(m, cls[..k], filt, n);
      ClassPotential(m, cls[k], filt);
      PotentialAppend(NextClasses(m, cls[..k]), Continuing(ClassClusters(m, cls[k])));
    }
  }

  lemma {:induction false} PotentialNonNegative(cls: seq<seq<Client>>)
    requires forall k :: 0 <= k < |cls| ==> |cls[k]| >= 1
    ensures Potential(cls) >= 0
  {
    if cls != [] {
      PotentialNonNegative(cls[..|cls| - 1]);
    }
  }

  lemma {:induction false} SplitsPotential(rep: Reports, clients: seq<Client>, maxLen: nat, filt: Equal, i: nat)
    requires ReportsOk(rep, clients, maxLen) && |clients| >= 2 && i <= maxLen
    ensures |SplitsUpTo(rep, clients, filt, i)| + Potential(ClassesAt(rep, clients, i)) <= |clients| - 1
  {
    hide ReportsOk, NextClasses, LevelSplits, ClassesOk;
    if i == 0 {
      assert [clients][..0] == [];
    } else {
      SplitsPotential(rep, clients, maxLen, filt, i - 1);
      RefinementInvariant(rep, clients, maxLen, i - 1);
      var cls := ClassesAt(rep, clients, i - 1);
      assert forall k :: 0 <= k < |cls| ==> NoDup(cls[k]) && |cls[k]| >= 1 by { ClassSizes(rep, clients, cls, i - 1); }
      LevelPotential(Level(rep, i - 1), cls, filt, i);
    }
  }

  lemma ClassSizes(rep: Reports, clients: seq<Client>, cls: seq<seq<Client>>, i: nat)
    requires ClassesOk(rep, clients, cls, i)
    ensures forall k :: 0 <= k < |cls| ==> NoDup(cls[k]) && |cls[k]| >= 1
  {
    forall k | 0 <= k < |cls|
      ensures NoDup(cls[k]) && |cls[k]| >= 1
    {
      assert ClassOk(rep, clients, cls[k], i);
    }
  }

  /** A class of one client, or none, has one cluster at most. */
  lemma SmallClass(m: map<Client, Parsed>, cl: seq<Client>, filt: Equal)
    requires Covers(m, cl) && |cl| <= 1
    ensures !ShouldSplit(m, cl, filt) && Continuing(ClassClusters(m, cl)) == []
  {
    hide EqKey, Filtered;
    var es := Entries(cl, m);
    if cl == [] {
      assert ClassClusters(m, cl) == [];
    } else {
      assert es[..0] == [] && es == [es[0]];
      var c := Cluster(es[0].res, [es[0].client]);
      assert Clusters(es[..0], REAL) == [] && Clusters(es, REAL) == [c];
      assert [c][..0] == [] && SortBySize([]) == [] && SortBySize([c]) == [c];
      assert [c][1..] == [] && Continuing([]) == [];
    }
  }

  /** A single client is never split from itself. */
  lemma {:induction false} OneClient(rep: Reports, clients: seq<Client>, maxLen: nat, filt: Equal, i: nat)
    requires ReportsOk(rep, clients, maxLen) && |clients| <= 1 && i <= maxLen
    ensures SplitsUpTo(rep, clients, filt, i) == []
    ensures i > 0 ==> ClassesAt(rep, clients, i) == []
    ensures i < maxLen ==> AllCovered(Level(rep, i), ClassesAt(rep, clients, i))
  {
    hide ShouldSplit, ClassClusters, Continuing;
    if i > 0 {
      OneClient(rep, clients, maxLen, filt, i - 1);
      if i == 1 {
        var m := Level(rep, 0);
        SmallClass(m, clients, filt);
        var cls := [clients];
        assert ClassesAt(rep, clients, 0) == cls && cls[..0] == [];
        assert NextClasses(m, cls[..0]) == [] && LevelSplits(m, cls[..0], filt, 1) == [];
      }
    }
  }

  /** At most one split fewer than there are clients. */
  lemma FewSplits(rep: Reports, clients: seq<Client>, maxLen: nat, filt: Equal)
    requires ReportsOk(rep, clients, maxLen)
    ensures |SplitsUpTo(rep, clients, filt, maxLen)| <= if clients == [] then 0 else |clients| - 1
  {
    hide ReportsOk, SplitsUpTo, Potential, ClassesOk;
    if |clients| <= 1 {
      OneClient(rep, clients, maxLen, filt, maxLen);
      return;
    }
    SplitsPotential(rep, clients, maxLen, filt, maxLen);
    RefinementInvariant(rep, clients, maxLen, maxLen);
    ClassSizes(rep, clients, ClassesAt(rep, clients, maxLen), maxLen);
    PotentialNonNegative(ClassesAt(rep, clients, maxLen));
  }

  // ---------------------------------------------------------------------
  // Who is split from whom
  // ---------------------------------------------------------------------

  /** c and d are in different clusters of the split. */
  ghost predicate Separates(s: Split, c: Client, d: Client) {
    exists i, j :: 0 <= i < |s.clusters| && 0 <= j < |s.clusters| && i != j
      && c in s.clusters[i].members && d in s.clusters[j].members
  }

  ghost function Separations(splits: seq<Split>, c: Client, d: Client): nat {
    if splits == [] then 0
    else Separations(splits[..|splits| - 1], c, d) + if Separates(splits[|splits| - 1], c, d) then 1 else 0
  }

  lemma {:induction false} SeparationsAppend(a: seq<Split>, b: seq<Split>, c: Client, d: Client)
    ensures Separations(a + b, c, d) == Separations(a, c, d) + Separations(b, c, d)
  {
    if b == [] {
      assert a + b == a;
    } else {
      var k := |b| - 1;
      SeparationsAppend(a, b[..k], c, d);
      assert (a + b)[..|a + b| - 1] == a + b[..k];
    }
  }

  /** The clusters of a class separate exactly its members with different results. */
  lemma ClassSeparates(m: map<Client, Parsed>, cl: seq<Client>, n: nat, c: Client, d: Client)
    requires Covers(m, cl) && NoDup(cl)
    ensures Separates(Split(ClassClusters(m, cl), n), c, d) <==> c in cl && d in cl && EqKey(m[c]) != EqKey(m[d])
  {
    hide ClassClusters, EqKey;
    ClassPartition(m, cl);
    var cs := ClassClusters(m, cl);
    var s := Split(cs, n);
    if Separates(s, c, d) {
      var i, j :| 0 <= i < |cs| && 0 <= j < |cs| && i != j && c in cs[i].members && d in cs[j].members;
      assert cs[i] in cs && cs[j] in cs && ClusterOk(cl, m, cs[i]) && ClusterOk(cl, m, cs[j]);
      assert EqKey(cs[i].key) != EqKey(cs[j].key);
    }
    if c in cl && d in cl && EqKey(m[c]) != EqKey(m[d]) {
      assert Placed(cs, c) && Placed(cs, d);
      var x :| x in cs && c in x.members;
      var y :| y in cs && d in y.members;
      assert ClusterOk(cl, m, x) && ClusterOk(cl, m, y);
      var i :| 0 <= i < |cs| && cs[i] == x;
      var j :| 0 <= j < |cs| && cs[j] == y;
    }
  }

  /** A class that reports a split between c and d. */
  ghost predicate Reporting(m: map<Client, Parsed>, cl: seq<Client>, filt: Equal, c: Client, d: Client)
    requires Covers(m, cl)
  {
    c in cl && d in cl && EqKey(m[c]) != EqKey(m[d]) && ShouldSplit(m, cl, filt)
  }

  ghost predicate SomeReporting(m: map<Client, Parsed>, cls: seq<seq<Client>>, filt: Equal, c: Client, d: Client)
    requires AllCovered(m, cls)
  {
    exists k :: 0 <= k < |cls| && Reporting(m, cls[k], filt, c, d)
  }

  lemma {:induction false} LevelSeparations(m: map<Client, Parsed>, cls: seq<seq<Client>>, filt: Equal, n: nat, c: Client, d: Client)
    requires AllCovered(m, cls) && Disjoint(cls) && forall k :: 0 <= k < |cls| ==> NoDup(cls[k])
    ensures Separations(LevelSplits(m, cls, filt, n), c, d) == if SomeReporting(m, cls, filt, c, d) then 1 else 0
  {
    hide ShouldSplit, ClassClusters, NoDup, Separates, EqKey;
    if cls != [] {
      var k := |cls| - 1;
      var before := LevelSplits(m, cls[..k], filt, n);
      LevelSeparations(m, cls[..k], filt, n, c, d);
      ClassSeparates(m, cls[k], n, c, d);
      var one := Split(ClassClusters(m, cls[k]), n);
      SeparationsAppend(before, [one], c, d);
      assert Separations([one], c, d) == if Separates(one, c, d) then 1 else 0 by { assert [one][..0] == []; }
      assert before + [] == before;
      OneMoreReporting(m, cls, filt, c, d);
    }
  }

  /** Classes are disjoint, so at most one of them reports c and d. */
  lemma OneMoreReporting(m: map<Client, Parsed>, cls: seq<seq<Client>>, filt: Equal, c: Client, d: Client)
    requires cls != [] && AllCovered(m, cls) && Disjoint(cls)
    ensures var k := |cls| - 1;
      && (SomeReporting(m, cls, filt, c, d) <==> SomeReporting(m, cls[..k], filt, c, d) || Reporting(m, cls[k], filt, c, d))
      && !(SomeReporting(m, cls[..k], filt, c, d) && Reporting(m, cls[k], filt, c, d))
  {
    hide ShouldSplit, EqKey;
    var k := |cls| - 1;
    assert forall j :: 0 <= j < k ==> cls[..k][j] == cls[j];
    if SomeReporting(m, cls[..k], filt, c, d) {
      var j :| 0 <= j < k && Reporting(m, cls[..k][j], filt, c, d);
      assert Reporting(m, cls[j], filt, c, d) && c !in cls[k];
    }
    if SomeReporting(m, cls, filt, c, d) {
      var j :| 0 <= j < |cls| && Reporting(m, cls[j], filt, c, d);
      assert j == k || Reporting(m, cls[..k][j], filt, c, d);
    }
  }

  /** Some level before i reports c and d. */
  ghost predicate ReportedBefore(rep: Reports, clients: seq<Client>, filt: Equal, c: Client, d: Client, i: nat) {
    exists j :: 0 <= j < i && AllCovered(Level(rep, j), ClassesAt(rep, clients, j))
      && SomeReporting(Level(rep, j), ClassesAt(rep, clients, j), filt, c, d)
  }

  /** Being reported at level j means differing there for the first time. */
  lemma ReportingIsFirst(rep: Reports, clients: seq<Client>, maxLen: nat, filt: Equal, c: Client, d: Client, j: nat)
    requires ReportsOk(rep, clients, maxLen) && |clients| >= 2 && j < maxLen
    requires AllCovered(Level(rep, j), ClassesAt(rep, clients, j))
    requires SomeReporting(Level(rep, j), ClassesAt(rep, clients, j), filt, c, d)
    ensures FirstDiffer(rep, c, d, j)
  {
    hide ShouldSplit, EqKey, ClassesAt, ReportsOk;
    RefinementInvariant(rep, clients, maxLen, j);
    var cls := ClassesAt(rep, clients, j);
    var k :| 0 <= k < |cls| && Reporting(Level(rep, j), cls[k], filt, c, d);
    assert ClassOk(rep, clients, cls[k], j);
    assert c in Level(rep, j) && d in Level(rep, j);
  }

  /** Any two clients are separated by at most one recorded split: by none
      before they first differ, then by one exactly if their class at that
      prefix is reported, and never again. */
  lemma {:induction false} SeparatedAtMostOnce(rep: Reports, clients: seq<Client>, maxLen: nat, filt: Equal, c: Client, d: Client, i: nat)
    requires ReportsOk(rep, clients, maxLen) && |clients| >= 2 && i <= maxLen
    ensures Separations(SplitsUpTo(rep, clients, filt, i), c, d)
      == if ReportedBefore(rep, clients, filt, c, d, i) then 1 else 0
  {
    hide ReportsOk, ClassesOk, LevelSplits, SomeReporting, EqKey, Separates, ClassesAt;
    if i > 0 {
      SeparatedAtMostOnce(rep, clients, maxLen, filt, c, d, i - 1);
      RefinementInvariant(rep, clients, maxLen, i - 1);
      var m, cls := Level(rep, i - 1), ClassesAt(rep, clients, i - 1);
      assert Disjoint(cls) by { ClassesDisjoint(rep, clients, cls, i - 1); }
      assert forall k :: 0 <= k < |cls| ==> NoDup(cls[k]) by { ClassSizes(rep, clients, cls, i - 1); }
      LevelSeparations(m, cls, filt, i, c, d);
      SeparationsAppend(SplitsUpTo(rep, clients, filt, i - 1), LevelSplits(m, cls, filt, i), c, d);
      if ReportedBefore(rep, clients, filt, c, d, i - 1) {
        var j :| 0 <= j < i - 1 && AllCovered(Level(rep, j), ClassesAt(rep, clients, j))
          && SomeReporting(Level(rep, j), ClassesAt(rep, clients, j), filt, c, d);
        assert ReportedBefore(rep, clients, filt, c, d, i);
        if SomeReporting(m, cls, filt, c, d) {
          ReportingIsFirst(rep, clients, maxLen, filt, c, d, j);
          ReportingIsFirst(rep, clients, maxLen, filt, c, d, i - 1);
          assert false;
        }
      }
    }
  }

  lemma ClassesDisjoint(rep: Reports, clients: seq<Client>, cls: seq<seq<Client>>, i: nat)
    requires ClassesOk(rep, clients, cls, i)
    ensures Disjoint(cls)
  {
  }

  /** Clients that first differ at prefix j share a class there, so they are
      reported exactly when that class is. */
  lemma FirstDifferenceIsLookedAt(rep: Reports, clients: seq<Client>, maxLen: nat, c: Client, d: Client, j: nat)
    requires ReportsOk(rep, clients, maxLen) && |clients| >= 2 && j < maxLen
    requires c in clients && d in clients && FirstDiffer(rep, c, d, j)
    ensures Together(ClassesAt(rep, clients, j), c, d)
  {
    hide ReportsOk, ClassesAt, EqKey;
    assert c != d;
    RefinementInvariant(rep, clients, maxLen, j);
  }

  // ---------------------------------------------------------------------
  // The running search
  // ---------------------------------------------------------------------

  lemma NoClasses(m: map<Client, Parsed>, filt: Equal, n: nat)
    ensures AllCovered(m, []) && NextClasses(m, []) == [] && LevelSplits(m, [], filt, n) == []
  {
  }

  /** Nothing is left to split once there are no classes. */
  lemma {:induction false} EmptyStays(rep: Reports, clients: seq<Client>, filt: Equal, i: nat, n: nat)
    requires i <= n && ClassesAt(rep, clients, i) == []
    ensures ClassesAt(rep, clients, n) == []
    ensures SplitsUpTo(rep, clients, filt, n) == SplitsUpTo(rep, clients, filt, i)
    decreases n
  {
    hide AllCovered, NextClasses, LevelSplits, Level;
    if i < n {
      NoClasses(Level(rep, n - 1), filt, n);
      EmptyStays(rep, clients, filt, i, n - 1);
    }
  }

  /** The lookup of a class in the results of this prefix. */
  method Lookup(cl: seq<Client>, byClient: map<Client, Parsed>) returns (exact: seq<Entry>, lenient: seq<Entry>)
    requires Covers(byClient, cl)
    ensures exact == Entries(cl, byClient) && lenient == LenientEntries(cl, byClient)
  {
    exact, lenient := [], [];
    for k := 0 to |cl|
      invariant |exact| == |lenient| == k
      invariant forall i :: 0 <= i < k ==> exact[i] == Entry(cl[i], byClient[cl[i]])
      invariant forall i :: 0 <= i < k ==> lenient[i] == Entry(cl[i], Lenient(byClient[cl[i]]))
    {
      assert cl[k] in cl;
      exact := exact + [Entry(cl[k], byClient[cl[k]])];
      lenient := lenient + [Entry(cl[k], Lenient(byClient[cl[k]]))];
    }
  }

  /** The classes to go on with, cluster by cluster. */
  method CollectContinuing(cs: seq<Cluster>) returns (next: seq<seq<Client>>)
    ensures next == Continuing(cs)
  {
    hide Continuing;
    next := [];
    assert cs[0..] == cs && [] + Continuing(cs) == Continuing(cs);
    for k := 0 to |cs|
      invariant Continuing(cs) == next + Continuing(cs[k..])
    {
      ContinuingOne(cs, k);
      ghost var rest := Continuing(cs[k + 1..]);
      if cs[k].key.signum == 0 && |cs[k].members| > 1 {
        assert next + ([cs[k].members] + rest) == next + [cs[k].members] + rest;
        next := next + [cs[k].members];
      }
    }
    assert Continuing(cs[|cs|..]) == [] by { NoneContinuing(cs); }
    assert next + [] == next;
  }

  lemma NoneContinuing(cs: seq<Cluster>)
    ensures Continuing(cs[|cs|..]) == []
  {
  }

  lemma ContinuingOne(cs: seq<Cluster>, k: nat)
    requires k < |cs|
    ensures Continuing(cs[k..]) ==
      if cs[k].key.signum == 0 && |cs[k].members| > 1 then [cs[k].members] + Continuing(cs[k + 1..])
      else Continuing(cs[k + 1..])
  {
    assert cs[k..][1..] == cs[k + 1..];
    assert [] + Continuing(cs[k + 1..]) == Continuing(cs[k + 1..]);
  }

  /** One prefix: refine every class and record the splits. */
  method RefineLevel(byClient: map<Client, Parsed>, cls: seq<seq<Client>>, filt: Equal, seqLen: nat)
    returns (next: seq<seq<Client>>, splits: seq<Split>)
    requires AllCovered(byClient, cls)
    ensures next == NextClasses(byClient, cls) && splits == LevelSplits(byClient, cls, filt, seqLen)
  {
    hide Continuing, Clusters, SortBySize, RemoveUnusable, Entries, LenientEntries, Covers;
    next, splits := [], [];
    assert cls[..0] == [];
    for k := 0 to |cls|
      invariant next == NextClasses(byClient, cls[..k]) && splits == LevelSplits(byClient, cls[..k], filt, seqLen)
    {
      assert cls[..k + 1][..k] == cls[..k];
      var exact, lenient := Lookup(cls[k], byClient);
      var clusters := ClusterByResults(exact, REAL);
      clusters := SortBySize(clusters);
      var usable := RemoveUnusable(clusters);
      var report := false;
      if |usable| > 1 {
        var filtered := ClusterByResults(lenient, Filtered(filt));
        report := |RemoveUnusable(filtered)| > 1;
      }
      if report {
        splits := splits + [Split(clusters, seqLen)];
      }
      var more := CollectContinuing(clusters);
      next := next + more;
      assert splits == LevelSplits(byClient, cls[..k + 1], filt, seqLen);
    }
    assert cls[..|cls|] == cls;
  }

  lemma Lookups(rep: Reports, clients: seq<Client>, maxLen: nat, filt: Equal, i: nat)
    requires ReportsOk(rep, clients, maxLen) && i < maxLen
    ensures AllCovered(Level(rep, i), ClassesAt(rep, clients, i))
  {
    hide ReportsOk, AllCovered, ClassesAt, ClassesOk;
    if |clients| <= 1 {
      OneClient(rep, clients, maxLen, filt, i);
    } else {
      RefinementInvariant(rep, clients, maxLen, i);
    }
  }

  /** find_minimal_diff_tree on the reports of all clients. */
  method FindMinimalDiffTree(rep: Reports, clients: seq<Client>, maxLen: nat, filt: Equal) returns (splits: seq<Split>)
    requires ReportsOk(rep, clients, maxLen)
    requires forall c :: c in rep <==> c in clients
    ensures splits == SplitsUpTo(rep, clients, filt, maxLen)
    ensures |splits| <= if clients == [] then 0 else |clients| - 1
  {
    hide NextClasses, LevelSplits, ClassesOk, AllCovered;
    var currentClasses := [clients];
    splits := [];
    for i := 0 to maxLen
      invariant currentClasses == ClassesAt(rep, clients, i)
      invariant splits == SplitsUpTo(rep, clients, filt, i)
    {
      Lookups(rep, clients, maxLen, filt, i);
      var byClient := CollectLevel(rep, clients, i);
      assert byClient == Level(rep, i);
      var next, found := RefineLevel(byClient, currentClasses, filt, i + 1);
      splits := splits + found;
      currentClasses := next;
      if |currentClasses| == 0 {
        EmptyStays(rep, clients, filt, i + 1, maxLen);
        FewSplits(rep, clients, maxLen, filt);
        return;
      }
    }
    FewSplits(rep, clients, maxLen, filt);
  }
}
