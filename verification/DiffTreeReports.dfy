/**
 Which classes of the diff tree are reported, said in terms of the clients'
 results alone: what the clusters of a class are, when they are usable, and
 when two clients end up in different clusters of a recorded split.
 */
module DiffTreeReports {
  import opened Bytes
  import opened ResultCodec
  import opened ResultRoundTrip
  import opened DiffTree
  import opened DiffTreeRefinement

  // ---------------------------------------------------------------------
  // Usable clusters
  // ---------------------------------------------------------------------

  /** Both results are illegal instructions (signal 4), or neither is. */
  predicate Alike(a: Parsed, b: Parsed) {
    a.signum == 4 <==> b.signum == 4
  }

  /** Two of the clusters have alike keys. */
  ghost predicate AlikePair(cs: seq<Cluster>) {
    exists i, j :: 0 <= i < j < |cs| && Alike(cs[i].key, cs[j].key)
  }

  ghost predicate OfKind(c: Cluster, ill: bool) {
    (c.key.signum == 4) == ill
  }

  ghost function CountKind(cs: seq<Cluster>, ill: bool): nat {
    if cs == [] then 0 else (if OfKind(cs[0], ill) then 1 else 0) + CountKind(cs[1..], ill)
  }

  lemma {:induction false} KindsAdd(cs: seq<Cluster>)
    ensures CountSigill(cs) == CountKind(cs, true) && |DropSigill(cs)| == CountKind(cs, false)
    ensures |cs| == CountKind(cs, true) + CountKind(cs, false)
  {
    if cs != [] { KindsAdd(cs[1..]); }
  }

  lemma {:induction false} SomeKind(cs: seq<Cluster>, ill: bool)
    ensures CountKind(cs, ill) >= 1 <==> exists i :: 0 <= i < |cs| && OfKind(cs[i], ill)
  {
    hide OfKind;
    if cs != [] {
      SomeKind(cs[1..], ill);
      assert forall i :: 1 <= i < |cs| ==> cs[i] == cs[1..][i - 1];
    }
  }

  ghost predicate PairOfKind(cs: seq<Cluster>, ill: bool) {
    exists i, j :: 0 <= i < j < |cs| && OfKind(cs[i], ill) && OfKind(cs[j], ill)
  }

  lemma {:induction false} TwoOfKind(cs: seq<Cluster>, ill: bool)
    ensures CountKind(cs, ill) >= 2 <==> PairOfKind(cs, ill)
  {
    hide OfKind;
    if cs != [] {
      TwoOfKind(cs[1..], ill);
      SomeKind(cs[1..], ill);
      assert forall i :: 1 <= i < |cs| ==> cs[i] == cs[1..][i - 1];
      if PairOfKind(cs, ill) {
        var i, j :| 0 <= i < j < |cs| && OfKind(cs[i], ill) && OfKind(cs[j], ill);
        assert OfKind(cs[1..][j - 1], ill);
        if i > 0 { assert OfKind(cs[1..][i - 1], ill); }
      }
      if PairOfKind(cs[1..], ill) {
        var i, j :| 0 <= i < j < |cs[1..]| && OfKind(cs[1..][i], ill) && OfKind(cs[1..][j], ill);
        assert OfKind(cs[i + 1], ill) && OfKind(cs[j + 1], ill);
      }
    }
  }

  /** More than one cluster is usable exactly when two clusters both have, or
      both lack, an illegal instruction as their result. */
  lemma RemoveUnusableIff(cs: seq<Cluster>)
    ensures |RemoveUnusable(cs)| > 1 <==> AlikePair(cs)
  {
    hide CountKind, CountSigill, DropSigill;
    KindsAdd(cs);
    TwoOfKind(cs, true);
    TwoOfKind(cs, false);
    if AlikePair(cs) {
      var i, j :| 0 <= i < j < |cs| && Alike(cs[i].key, cs[j].key);
      var ill := cs[i].key.signum == 4;
      assert OfKind(cs[i], ill) && OfKind(cs[j], ill) && PairOfKind(cs, ill);
    }
    forall ill | PairOfKind(cs, ill)
      ensures AlikePair(cs)
    {
      var i, j :| 0 <= i < j < |cs| && OfKind(cs[i], ill) && OfKind(cs[j], ill);
      assert Alike(cs[i].key, cs[j].key);
    }
  }

  // ---------------------------------------------------------------------
  // The exact results of a class
  // ---------------------------------------------------------------------

  /** Two members differ, and either both or neither ran into an illegal
      instruction. */
  ghost predicate UsableDifference(m: map<Client, Parsed>, cl: seq<Client>)
    requires Covers(m, cl)
  {
    exists a, b :: a in cl && b in cl && EqKey(m[a]) != EqKey(m[b]) && Alike(m[a], m[b])
  }

  lemma UsableClassIff(m: map<Client, Parsed>, cl: seq<Client>)
    requires Covers(m, cl) && NoDup(cl)
    ensures |RemoveUnusable(ClassClusters(m, cl))| > 1 <==> UsableDifference(m, cl)
  {
    hide ClassClusters, RemoveUnusable, Total, EqKey;
    var cs := ClassClusters(m, cl);
    ClassPartition(m, cl);
    RemoveUnusableIff(cs);
    if AlikePair(cs) {
      var i, j :| 0 <= i < j < |cs| && Alike(cs[i].key, cs[j].key);
      assert ClusterOk(cl, m, cs[i]) && ClusterOk(cl, m, cs[j]);
      var a, b := cs[i].members[0], cs[j].members[0];
      KeySignal(m[a], cs[i].key);
      KeySignal(m[b], cs[j].key);
      assert a in cl && b in cl && EqKey(m[a]) != EqKey(m[b]) && Alike(m[a], m[b]);
    }
    if UsableDifference(m, cl) {
      var a, b :| a in cl && b in cl && EqKey(m[a]) != EqKey(m[b]) && Alike(m[a], m[b]);
      PlacedApart(m, cl, cs, a, b);
    }
  }

  lemma PlacedApart(m: map<Client, Parsed>, cl: seq<Client>, cs: seq<Cluster>, a: Client, b: Client)
    requires Covers(m, cl) && IsPartition(cl, m, cs) && a in cl && b in cl && EqKey(m[a]) != EqKey(m[b]) && Alike(m[a], m[b])
    ensures AlikePair(cs)
  {
    hide Total, EqKey;
    assert Placed(cs, a) && Placed(cs, b);
    var x :| x in cs && a in x.members;
    var y :| y in cs && b in y.members;
    assert ClusterOk(cl, m, x) && ClusterOk(cl, m, y);
    KeySignal(m[a], x.key);
    KeySignal(m[b], y.key);
    var i :| 0 <= i < |cs| && cs[i] == x;
    var j :| 0 <= j < |cs| && cs[j] == y;
    assert i != j && Alike(cs[i].key, cs[j].key) && Alike(cs[j].key, cs[i].key);
  }

  lemma KeySignal(a: Parsed, b: Parsed)
    requires EqKey(a) == EqKey(b)
    ensures a.signum == b.signum
  {
    assert EqKey(a).signum == EqKey(b).signum;
  }

  // ---------------------------------------------------------------------
  // The filtered results of a class
  // ---------------------------------------------------------------------

  /** Result i founds a cluster: no earlier founder is equal to it, by the
      filter or exactly. */
  ghost predicate Founder(rs: seq<Parsed>, filt: Equal, i: nat)
    requires i < |rs|
    decreases i
  {
    forall k: nat | k < i :: Founder(rs, filt, k) ==> !filt(rs[k], rs[i]) && !ParsedEqual(rs[k], rs[i])
  }

  /** The founders among the first n results, in order. */
  ghost function Founders(rs: seq<Parsed>, filt: Equal, n: nat): (l: seq<nat>)
    requires n <= |rs|
    ensures forall k :: 0 <= k < |l| ==> l[k] < n && Founder(rs, filt, l[k])
    ensures forall k, k' :: 0 <= k < k' < |l| ==> l[k] < l[k']
    ensures forall i: nat :: i < n && Founder(rs, filt, i) ==> i in l
  {
    if n == 0 then [] else Founders(rs, filt, n - 1) + if Founder(rs, filt, n - 1) then [n - 1] else []
  }

  ghost function Results(es: seq<Entry>): (rs: seq<Parsed>)
    ensures |rs| == |es|
    ensures forall i :: 0 <= i < |es| ==> rs[i] == es[i].res
  {
    seq(|es|, i requires 0 <= i < |es| => es[i].res)
  }

  /** Some stored key is equal to the result. */
  ghost predicate Stored(cs: seq<Cluster>, eq: Equal, res: Parsed) {
    exists k :: 0 <= k < |cs| && eq(cs[k].key, res)
  }

  lemma StoredTail(cs: seq<Cluster>, eq: Equal, res: Parsed)
    requires cs != []
    ensures Stored(cs, eq, res) <==> eq(cs[0].key, res) || Stored(cs[1..], eq, res)
  {
    var rest := cs[1..];
    assert forall k :: 0 <= k < |rest| ==> rest[k] == cs[k + 1];
    if Stored(cs, eq, res) && !eq(cs[0].key, res) {
      var k :| 0 <= k < |cs| && eq(cs[k].key, res);
      assert eq(rest[k - 1].key, res);
    }
  }

  /** Inserting founds a cluster exactly when no stored key is equal. */
  lemma {:induction false} InsertKeys(cs: seq<Cluster>, eq: Equal, e: Entry)
    ensures var r := Insert(cs, eq, e);
      && |r| == |cs| + (if Stored(cs, eq, e.res) then 0 else 1)
      && (!Stored(cs, eq, e.res) ==> r[|cs|].key == e.res)
      && forall k :: 0 <= k < |cs| ==> r[k].key == cs[k].key
  {
    hide Stored;
    if cs != [] {
      StoredTail(cs, eq, e.res);
      if !eq(cs[0].key, e.res) { InsertKeys(cs[1..], eq, e); }
    } else {
      assert !Stored(cs, eq, e.res) by { NothingStored(eq, e.res); }
    }
  }

  lemma NothingStored(eq: Equal, res: Parsed)
    ensures !Stored([], eq, res)
  {
  }

  /** The stored keys are the results of the founders. */
  lemma {:induction false} KeysAreFounders(es: seq<Entry>, filt: Equal, n: nat)
    requires n <= |es|
    ensures var cs, l := Clusters(es[..n], Filtered(filt)), Founders(Results(es), filt, n);
      |cs| == |l| && forall k :: 0 <= k < |l| ==> cs[k].key == es[l[k]].res
  {
    hide Insert, ParsedEqual;
    if n > 0 {
      var eq, rs := Filtered(filt), Results(es);
      KeysAreFounders(es, filt, n - 1);
      assert es[..n][..n - 1] == es[..n - 1];
      var before, l := Clusters(es[..n - 1], eq), Founders(rs, filt, n - 1);
      InsertKeys(before, eq, es[n - 1]);
      FounderAgainst(es, filt, n - 1, before, l);
    }
  }

  lemma FounderAgainst(es: seq<Entry>, filt: Equal, n: nat, cs: seq<Cluster>, l: seq<nat>)
    requires n < |es| && l == Founders(Results(es), filt, n)
    requires |cs| == |l| && forall k :: 0 <= k < |l| ==> cs[k].key == es[l[k]].res
    ensures Founder(Results(es), filt, n) <==> !Stored(cs, Filtered(filt), es[n].res)
  {
    hide ParsedEqual, Founders;
    var rs := Results(es);
    if Founder(rs, filt, n) {
      forall k | 0 <= k < |cs|
        ensures !Filtered(filt)(cs[k].key, es[n].res)
      {
        assert Founder(rs, filt, l[k]) && rs[l[k]] == cs[k].key;
      }
    } else {
      var i: nat :| i < n && Founder(rs, filt, i) && (filt(rs[i], rs[n]) || ParsedEqual(rs[i], rs[n]));
      assert i in l;
      var k :| 0 <= k < |l| && l[k] == i;
      assert Filtered(filt)(cs[k].key, es[n].res);
    }
  }

  /** The lenient results of the clients of a class. */
  ghost function LenientResults(m: map<Client, Parsed>, cl: seq<Client>): (rs: seq<Parsed>)
    requires Covers(m, cl)
    ensures |rs| == |cl|
    ensures forall i :: 0 <= i < |cl| ==> rs[i] == Lenient(m[cl[i]])
  {
    seq(|cl|, i requires 0 <= i < |cl| => Lenient(m[cl[i]]))
  }

  /** Two founders are alike. */
  ghost predicate AlikeFounders(rs: seq<Parsed>, filt: Equal) {
    exists i: nat, j: nat :: i < j < |rs| && Founder(rs, filt, i) && Founder(rs, filt, j) && Alike(rs[i], rs[j])
  }

  lemma FilteredIff(m: map<Client, Parsed>, cl: seq<Client>, filt: Equal)
    requires Covers(m, cl)
    ensures |RemoveUnusable(Clusters(LenientEntries(cl, m), Filtered(filt)))| > 1 <==> AlikeFounders(LenientResults(m, cl), filt)
  {
    hide RemoveUnusable, Clusters, Lenient, Founder, AlikePair, AlikeFounders, Filtered;
    var es, rs := LenientEntries(cl, m), LenientResults(m, cl);
    assert Results(es) == rs;
    var cs, l := Clusters(es, Filtered(filt)), Founders(rs, filt, |es|);
    assert es[..|es|] == es;
    KeysAreFounders(es, filt, |es|);
    RemoveUnusableIff(cs);
    assert forall k :: 0 <= k < |l| ==> cs[k].key == rs[l[k]];
    PairsOfFounders(cs, rs, filt, l);
  }

  lemma Ordered(l: seq<nat>, k: nat, k': nat)
    requires (forall a, b :: 0 <= a < b < |l| ==> l[a] < l[b]) && k < |l| && k' < |l| && l[k] < l[k']
    ensures k < k'
  {
  }

  lemma PairsOfFounders(cs: seq<Cluster>, rs: seq<Parsed>, filt: Equal, l: seq<nat>)
    requires l == Founders(rs, filt, |rs|) && |cs| == |l| && forall k :: 0 <= k < |l| ==> cs[k].key == rs[l[k]]
    ensures AlikePair(cs) <==> AlikeFounders(rs, filt)
  {
    hide Founder, Founders, Alike, AlikePair;
    if AlikePair(cs) { PairToFounders(cs, rs, filt, l); }
    if AlikeFounders(rs, filt) {
      var i: nat, j: nat :| i < j < |rs| && Founder(rs, filt, i) && Founder(rs, filt, j) && Alike(rs[i], rs[j]);
      FoundersToPair(cs, rs, l, i, j);
    }
  }

  lemma PairToFounders(cs: seq<Cluster>, rs: seq<Parsed>, filt: Equal, l: seq<nat>)
    requires l == Founders(rs, filt, |rs|) && |cs| == |l| && forall k :: 0 <= k < |l| ==> cs[k].key == rs[l[k]]
    requires AlikePair(cs)
    ensures AlikeFounders(rs, filt)
  {
    hide Founder, Founders, Alike;
    var i, j :| 0 <= i < j < |cs| && Alike(cs[i].key, cs[j].key);
    assert l[i] < l[j] && Founder(rs, filt, l[i]) && Founder(rs, filt, l[j]) && Alike(rs[l[i]], rs[l[j]]);
  }

  lemma FoundersToPair(cs: seq<Cluster>, rs: seq<Parsed>, l: seq<nat>, i: nat, j: nat)
    requires i < j < |rs| && i in l && j in l && Alike(rs[i], rs[j])
    requires forall a, b :: 0 <= a < b < |l| ==> l[a] < l[b]
    requires |cs| == |l| && forall k :: 0 <= k < |l| ==> l[k] < |rs| && cs[k].key == rs[l[k]]
    ensures AlikePair(cs)
  {
    hide Alike;
    var k :| 0 <= k < |l| && l[k] == i;
    var k' :| 0 <= k' < |l| && l[k'] == j;
    Ordered(l, k, k');
    assert Alike(cs[k].key, cs[k'].key);
  }

  /** Lenient results are equal exactly when the signals are, a bus error (7)
      and a segmentation fault (11) counting as the same, and so is everything
      else unless the signal is an alarm (14). */
  lemma LenientEqualIff(a: Parsed, b: Parsed)
    ensures ParsedEqual(Lenient(a), Lenient(b)) <==>
      && (a.signum == b.signum || (a.signum == 7 && b.signum == 11) || (a.signum == 11 && b.signum == 7))
      && (a.signum == 14 || (
        && a.siAddr == b.siAddr && a.siPc == b.siPc && a.siCode == b.siCode && a.regs == b.regs
        && (a.mem.Some? ==> a.mem == b.mem)))
    ensures Lenient(a).signum != 7 && (a.signum != 7 ==> Lenient(a).signum == a.signum)
  {
  }

  // ---------------------------------------------------------------------
  // The classes, in the order of the clients
  // ---------------------------------------------------------------------

  /** The clients that agree with c on the first i prefixes. */
  ghost function Peers(rep: Reports, clients: seq<Client>, c: Client, i: nat): (ps: seq<Client>) {
    if clients == [] then []
    else
      var k := |clients| - 1;
      Peers(rep, clients[..k], c, i) + if Agree(rep, c, clients[k], i) then [clients[k]] else []
  }

  lemma {:induction false} PeersAre(rep: Reports, clients: seq<Client>, c: Client, i: nat)
    ensures forall d :: d in Peers(rep, clients, c, i) <==> d in clients && Agree(rep, c, d, i)
  {
    hide Agree;
    if clients != [] {
      var k := |clients| - 1;
      PeersAre(rep, clients[..k], c, i);
      assert clients == clients[..k] + [clients[k]];
    }
  }

  /** The clients of a class whose result has the given key. */
  ghost function WithKey(m: map<Client, Parsed>, cl: seq<Client>, key: Parsed): (r: seq<Client>)
    requires Covers(m, cl)
    ensures forall c :: c in r ==> c in cl && EqKey(m[c]) == key
  {
    if cl == [] then []
    else
      var k := |cl| - 1;
      WithKey(m, cl[..k], key) + if EqKey(m[cl[k]]) == key then [cl[k]] else []
  }

  lemma {:induction false} NoneWithKey(m: map<Client, Parsed>, cl: seq<Client>, key: Parsed)
    requires Covers(m, cl) && forall c :: c in cl ==> EqKey(m[c]) != key
    ensures WithKey(m, cl, key) == []
  {
    hide EqKey;
    if cl != [] { NoneWithKey(m, cl[..|cl| - 1], key); }
  }

  /** Every cluster lists the class's clients with its key, in class order. */
  ghost predicate MembersInOrder(m: map<Client, Parsed>, cl: seq<Client>, cs: seq<Cluster>)
    requires Covers(m, cl)
  {
    forall k :: 0 <= k < |cs| ==> cs[k].members == WithKey(m, cl, EqKey(cs[k].key))
  }

  lemma {:induction false} ClusterMembers(m: map<Client, Parsed>, cl: seq<Client>)
    requires Covers(m, cl) && NoDup(cl)
    ensures MembersInOrder(m, cl, Clusters(Entries(cl, m), REAL))
  {
    hide EqKey, Insert, IsPartition;
    if cl != [] {
      var n := |cl| - 1;
      var cl', c := cl[..n], cl[n];
      ClusterMembers(m, cl');
      ClustersPartition(cl', m);
      var cs := Clusters(Entries(cl', m), REAL);
      assert Entries(cl, m)[..n] == Entries(cl', m) && Entries(cl, m)[n] == Entry(c, m[c]);
      MembersStep(m, cl, cs);
    }
  }

  lemma MembersStep(m: map<Client, Parsed>, cl: seq<Client>, cs: seq<Cluster>)
    requires cl != [] && Covers(m, cl) && IsPartition(cl[..|cl| - 1], m, cs) && MembersInOrder(m, cl[..|cl| - 1], cs)
    ensures MembersInOrder(m, cl, Insert(cs, REAL, Entry(cl[|cl| - 1], m[cl[|cl| - 1]])))
  {
    hide EqKey, Insert, Total;
    var cl', c := cl[..|cl| - 1], cl[|cl| - 1];
    var e := Entry(c, m[c]);
    InsertCases(cs, e);
    if Find(cs, e.res) == |cs| {
      forall d | d in cl'
        ensures EqKey(m[d]) != EqKey(m[c])
      {
        assert Placed(cs, d);
        var x :| x in cs && d in x.members;
        assert ClusterOk(cl', m, x);
      }
      NoneWithKey(m, cl', EqKey(m[c]));
    }
  }

  lemma ClassMembers(m: map<Client, Parsed>, cl: seq<Client>, x: Cluster)
    requires Covers(m, cl) && NoDup(cl) && x in ClassClusters(m, cl)
    ensures x.members == WithKey(m, cl, EqKey(x.key))
  {
    hide EqKey, Clusters, WithKey, Total;
    ClusterMembers(m, cl);
    SortFacts(Clusters(Entries(cl, m), REAL));
  }

  /** Those who agree on one prefix more. */
  lemma {:induction false} PeersStep(rep: Reports, clients: seq<Client>, c: Client, i: nat)
    requires Clean(rep, c, i + 1) && Covers(Level(rep, i), Peers(rep, clients, c, i))
    ensures Peers(rep, clients, c, i + 1) == WithKey(Level(rep, i), Peers(rep, clients, c, i), EqKey(rep[c][i]))
  {
    hide EqKey;
    if clients != [] {
      var k := |clients| - 1;
      var d, rest := clients[k], Peers(rep, clients[..k], c, i);
      assert forall e :: e in rest ==> e in Peers(rep, clients, c, i);
      PeersStep(rep, clients[..k], c, i);
      AgreeStep(rep, c, d, i);
      if Agree(rep, c, d, i) {
        assert Peers(rep, clients, c, i)[..|rest|] == rest;
      } else {
        assert Peers(rep, clients, c, i) == rest;
      }
    }
  }

  lemma AgreeStep(rep: Reports, c: Client, d: Client, i: nat)
    requires Clean(rep, c, i + 1) && (Agree(rep, c, d, i) ==> d in Level(rep, i))
    ensures Agree(rep, c, d, i + 1) <==> Agree(rep, c, d, i) && EqKey(rep[d][i]) == EqKey(rep[c][i])
  {
    if Agree(rep, c, d, i) && EqKey(rep[d][i]) == EqKey(rep[c][i]) {
      KeySignal(rep[d][i], rep[c][i]);
    }
  }

  /** A class at any prefix length consists of all clients that agree with any
      one of its members so far, in the order of the clients. */
  lemma {:induction false} ClassIsPeers(rep: Reports, clients: seq<Client>, maxLen: nat, i: nat, k: nat, c: Client)
    requires ReportsOk(rep, clients, maxLen) && |clients| >= 2 && i <= maxLen
    requires k < |ClassesAt(rep, clients, i)| && c in ClassesAt(rep, clients, i)[k]
    ensures ClassesAt(rep, clients, i)[k] == Peers(rep, clients, c, i)
  {
    hide EqKey, NextClasses, ClassClusters, ReportsOk, Peers, WithKey;
    if i == 0 {
      forall k | 0 <= k < |clients|
        ensures Agree(rep, c, clients[k], 0)
      {
        AgreeAtFirst(rep, clients, maxLen, c, clients[k]);
      }
      AllPeers(rep, clients, c);
    } else {
      RefinementInvariant(rep, clients, maxLen, i - 1);
      RefinementInvariant(rep, clients, maxLen, i);
      var m, cls, n := Level(rep, i - 1), ClassesAt(rep, clients, i - 1), ClassesAt(rep, clients, i)[k];
      NextFacts(m, cls);
      assert n in NextClasses(m, cls) && ComesFrom(m, cls, n);
      var j :| 0 <= j < |cls| && FromCluster(ClassClusters(m, cls[j]), n);
      var x :| x in ClassClusters(m, cls[j]) && x.members == n;
      assert ClassOk(rep, clients, cls[j], i - 1) && ClassOk(rep, clients, n, i);
      ClassMembers(m, cls[j], x);
      assert c in cls[j] && EqKey(m[c]) == EqKey(x.key);
      ClassIsPeers(rep, clients, maxLen, i - 1, j, c);
      PeersStep(rep, clients, c, i - 1);
    }
  }

  lemma AgreeAtFirst(rep: Reports, clients: seq<Client>, maxLen: nat, c: Client, d: Client)
    requires ReportsOk(rep, clients, maxLen) && c in clients && d in clients
    ensures Agree(rep, c, d, 0)
  {
    hide EqKey, Stopping, NoDup;
  }

  lemma {:induction false} AllPeers(rep: Reports, some: seq<Client>, c: Client)
    requires forall i :: 0 <= i < |some| ==> Agree(rep, c, some[i], 0)
    ensures Peers(rep, some, c, 0) == some
  {
    hide Agree, Peers;
    if some == [] {
      NoPeers(rep, c, 0);
    } else {
      AllPeers(rep, some[..|some| - 1], c);
      LastPeer(rep, some, c, 0);
    }
  }

  lemma NoPeers(rep: Reports, c: Client, i: nat)
    ensures Peers(rep, [], c, i) == []
  {
    hide Agree;
  }

  lemma LastPeer(rep: Reports, some: seq<Client>, c: Client, i: nat)
    requires some != [] && Agree(rep, c, some[|some| - 1], i) && Peers(rep, some[..|some| - 1], c, i) == some[..|some| - 1]
    ensures Peers(rep, some, c, i) == some
  {
    hide Agree;
  }

  // ---------------------------------------------------------------------
  // Who is separated
  // ---------------------------------------------------------------------

  /** c and d first differ at prefix j, and among the clients that agree with
      c up to there, two usable results differ, exactly and when filtered. */
  ghost predicate SeparatedAt(rep: Reports, clients: seq<Client>, filt: Equal, c: Client, d: Client, j: nat) {
    var peers, m := Peers(rep, clients, c, j), Level(rep, j);
    && c in clients && d in clients && FirstDiffer(rep, c, d, j)
    && Covers(m, peers) && UsableDifference(m, peers) && AlikeFounders(LenientResults(m, peers), filt)
  }

  lemma ReportingIff(rep: Reports, clients: seq<Client>, maxLen: nat, filt: Equal, c: Client, d: Client, j: nat)
    requires ReportsOk(rep, clients, maxLen) && |clients| >= 2 && j < maxLen
    ensures SeparatedAt(rep, clients, filt, c, d, j) <==>
      && AllCovered(Level(rep, j), ClassesAt(rep, clients, j))
      && SomeReporting(Level(rep, j), ClassesAt(rep, clients, j), filt, c, d)
  {
    hide EqKey, ClassesAt, ReportsOk, ShouldSplit, Peers, UsableDifference, AlikeFounders;
    RefinementInvariant(rep, clients, maxLen, j);
    var m, cls := Level(rep, j), ClassesAt(rep, clients, j);
    if SomeReporting(m, cls, filt, c, d) {
      ReportingIsFirst(rep, clients, maxLen, filt, c, d, j);
      var k :| 0 <= k < |cls| && Reporting(m, cls[k], filt, c, d);
      assert ClassOk(rep, clients, cls[k], j);
      ClassIsPeers(rep, clients, maxLen, j, k, c);
      ShouldSplitIff(m, cls[k], filt);
    }
    if SeparatedAt(rep, clients, filt, c, d, j) {
      FirstDifferenceIsLookedAt(rep, clients, maxLen, c, d, j);
      var k :| 0 <= k < |cls| && c in cls[k] && d in cls[k];
      assert ClassOk(rep, clients, cls[k], j);
      ClassIsPeers(rep, clients, maxLen, j, k, c);
      ShouldSplitIff(m, cls[k], filt);
      assert Reporting(m, cls[k], filt, c, d);
    }
  }

  /** A class is reported exactly when two usable results differ, and two of
      the clusters' founding filtered results are alike. */
  lemma ShouldSplitIff(m: map<Client, Parsed>, cl: seq<Client>, filt: Equal)
    requires Covers(m, cl) && NoDup(cl)
    ensures ShouldSplit(m, cl, filt) <==> UsableDifference(m, cl) && AlikeFounders(LenientResults(m, cl), filt)
  {
    hide RemoveUnusable, ClassClusters, Clusters, UsableDifference, AlikeFounders;
    UsableClassIff(m, cl);
    FilteredIff(m, cl, filt);
  }

  /** One recorded split separates two clients exactly when they first differ
      at a prefix where the clients that agreed so far have usable results that
      differ, both exactly and filtered; otherwise none does. */
  lemma SeparatedIff(rep: Reports, clients: seq<Client>, maxLen: nat, filt: Equal, c: Client, d: Client)
    requires ReportsOk(rep, clients, maxLen) && |clients| >= 2
    ensures Separations(SplitsUpTo(rep, clients, filt, maxLen), c, d)
      == if exists j: nat :: j < maxLen && SeparatedAt(rep, clients, filt, c, d, j) then 1 else 0
  {
    hide ReportsOk, SplitsUpTo, SeparatedAt, SomeReporting, AllCovered, ClassesAt, Separations;
    SeparatedAtMostOnce(rep, clients, maxLen, filt, c, d, maxLen);
    forall j: nat | j < maxLen
      ensures SeparatedAt(rep, clients, filt, c, d, j) <==>
        && AllCovered(Level(rep, j), ClassesAt(rep, clients, j))
        && SomeReporting(Level(rep, j), ClassesAt(rep, clients, j), filt, c, d)
    {
      ReportingIff(rep, clients, maxLen, filt, c, d, j);
    }
  }

  lemma {:induction false} LevelSplitsAre(m: map<Client, Parsed>, cls: seq<seq<Client>>, filt: Equal, n: nat, s: Split)
    requires AllCovered(m, cls) && s in LevelSplits(m, cls, filt, n)
    ensures s.seqLen == n && exists k :: 0 <= k < |cls| && s.clusters == ClassClusters(m, cls[k]) && ShouldSplit(m, cls[k], filt)
  {
    hide ShouldSplit, ClassClusters;
    var k := |cls| - 1;
    if s in LevelSplits(m, cls[..k], filt, n) {
      LevelSplitsAre(m, cls[..k], filt, n, s);
      var j :| 0 <= j < k && s.clusters == ClassClusters(m, cls[..k][j]) && ShouldSplit(m, cls[..k][j], filt);
      assert cls[..k][j] == cls[j];
    }
  }

  lemma LevelSplitLength(rep: Reports, clients: seq<Client>, maxLen: nat, filt: Equal, i: nat, s: Split, c: Client, d: Client)
    requires ReportsOk(rep, clients, maxLen) && |clients| >= 2 && 0 < i <= maxLen
    requires AllCovered(Level(rep, i - 1), ClassesAt(rep, clients, i - 1))
    requires s in LevelSplits(Level(rep, i - 1), ClassesAt(rep, clients, i - 1), filt, i) && Separates(s, c, d)
    ensures s.seqLen == i && FirstDiffer(rep, c, d, i - 1)
  {
    hide ReportsOk, ShouldSplit, ClassClusters, ClassesAt, LevelSplits, EqKey, Separates, FirstDiffer, ClassesOk, NoDup;
    var m, cls := Level(rep, i - 1), ClassesAt(rep, clients, i - 1);
    LevelSplitsAre(m, cls, filt, i, s);
    var k :| 0 <= k < |cls| && s.clusters == ClassClusters(m, cls[k]) && ShouldSplit(m, cls[k], filt);
    RefinementInvariant(rep, clients, maxLen, i - 1);
    ClassSizes(rep, clients, cls, i - 1);
    ClassSeparates(m, cls[k], i, c, d);
    assert s == Split(ClassClusters(m, cls[k]), i);
    assert Reporting(m, cls[k], filt, c, d);
    ReportingIsFirst(rep, clients, maxLen, filt, c, d, i - 1);
  }

  /** A split carries the length of the prefix at which the clients it
      separates first differ. */
  lemma {:induction false} SplitLength(rep: Reports, clients: seq<Client>, maxLen: nat, filt: Equal, i: nat, s: Split, c: Client, d: Client)
    requires ReportsOk(rep, clients, maxLen) && |clients| >= 2 && i <= maxLen
    requires s in SplitsUpTo(rep, clients, filt, i) && Separates(s, c, d)
    ensures 1 <= s.seqLen <= i && FirstDiffer(rep, c, d, s.seqLen - 1)
  {
    hide ReportsOk, ClassesAt, LevelSplits, Separates, FirstDiffer, ClassesOk, AllCovered;
    if i > 0 {
      if s in SplitsUpTo(rep, clients, filt, i - 1) {
        SplitLength(rep, clients, maxLen, filt, i - 1, s, c, d);
      } else {
        RefinementInvariant(rep, clients, maxLen, i - 1);
        LevelSplitLength(rep, clients, maxLen, filt, i, s, c, d);
      }
    }
  }
}
