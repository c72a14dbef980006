/** Grouping the flagged modules of one sub-detector into clusters of modules that
    touch (`reachableCluster`, `badClustersBarrel`, `badClustersEndcap`). */
module Clustering {
  import opened Geometry
  import opened SortedSets
  import opened BadDets
  import opened Adjacency

  /** No id occurs twice. */
  predicate Distinct(s: seq<nat>) {
    forall i, j :: 0 <= i < j < |s| ==> s[i] != s[j]
  }

  /** `nb` is the neighbour function `reachableCluster` follows: `Neighbours` on a
      well-formed catalog. The proofs below see `nb` as a whole and look inside it only
      where a call of `Neighbours` is written. */
  ghost predicate FollowsNeighbours(cat: Catalog, bar: seq<nat>, end: seq<nat>, nb: nat -> seq<nat>) {
    && WellFormed(cat)
    && forall x {:trigger Neighbours(cat, bar, end, x)} :: nb(x) == Neighbours(cat, bar, end, x)
  }

  /** Every neighbour of every entry of `s` lies in `t`. */
  ghost predicate NeighboursWithin(nb: nat -> seq<nat>, s: seq<nat>, t: set<nat>) {
    ProcessedWithin(nb, s, |s|, t)
  }

  /** Every neighbour of each of the first `n` entries of `s` lies in `t`. */
  ghost predicate ProcessedWithin(nb: nat -> seq<nat>, s: seq<nat>, n: nat, t: set<nat>)
    requires n <= |s|
  {
    forall j, y :: 0 <= j < n && y in nb(s[j]) ==> y in t
  }

  /** Each entry after the first is a neighbour of an earlier entry, so every entry is
      reachable from the first. */
  ghost predicate Linked(nb: nat -> seq<nat>, s: seq<nat>) {
    forall k :: 0 < k < |s| ==> HasParent(nb, s[..k], s[k])
  }

  /** `y` is a neighbour of some entry of `p`. */
  ghost predicate HasParent(nb: nat -> seq<nat>, p: seq<nat>, y: nat) {
    exists j :: 0 <= j < |p| && y in nb(p[j])
  }

  /** Every neighbour is on one of the bad lists. */
  lemma NeighboursFlagged(cat: Catalog, bar: seq<nat>, end: seq<nat>, nb: nat -> seq<nat>, x: nat, y: nat)
    requires FollowsNeighbours(cat, bar, end, nb) && y in nb(x)
    ensures y in bar || y in end
  {
    assert nb(x) == Neighbours(cat, bar, end, x);
    if cat.det(x).subdet == PixelBarrel {
      BarrelAdjacencyIff(cat, bar, end, x, y);
    }
  }

  /** The neighbours `reachableCluster` visits from one module: `badAdjecentDetsBarrel`
      for a barrel module, `badAdjecentDetsEndcap` for an endcap module, none otherwise. */
  method BadAdjacentDets(cat: Catalog, bar: seq<nat>, end: seq<nat>, ghost nb: nat -> seq<nat>, det: nat)
    returns (adj: seq<nat>)
    requires FollowsNeighbours(cat, bar, end, nb)
    ensures adj == nb(det)
  {
    if cat.det(det).subdet == PixelBarrel {
      BarrelAdjacencyIff(cat, bar, end, det, det);
      adj := BadAdjacentDetsBarrel(cat, bar, end, det);
    } else if cat.det(det).subdet == PixelEndcap {
      adj := BadAdjacentDetsEndcap(cat, end, det);
    } else {
      adj := [];
    }
    assert adj == Neighbours(cat, bar, end, det);
  }

  /** The inner loop of `reachableCluster`: every module of `adj` not found yet is
      appended to the cluster, marked found and queued, in the order of `adj`. */
  method EnqueueUnfound(adj: seq<nat>, cluster: seq<nat>, found: set<nat>, workQueue: seq<nat>)
    returns (cluster': seq<nat>, found': set<nat>, workQueue': seq<nat>)
    requires Distinct(cluster) && forall x :: x in cluster ==> x in found
    ensures |cluster| <= |cluster'| && cluster'[..|cluster|] == cluster
    ensures workQueue' == workQueue + cluster'[|cluster|..]
    ensures forall x :: x in found' <==> x in found || x in cluster'[|cluster|..]
    ensures forall y :: y in adj ==> y in found'
    ensures forall x :: x in cluster'[|cluster|..] ==> x in adj && x !in found
    ensures Distinct(cluster')
  {
    cluster', found', workQueue' := cluster, found, workQueue;
    for i := 0 to |adj|
      invariant |cluster| <= |cluster'| && cluster'[..|cluster|] == cluster
      invariant workQueue' == workQueue + cluster'[|cluster|..]
      invariant forall x :: x in found' <==> x in found || x in cluster'[|cluster|..]
      invariant forall m :: 0 <= m < i ==> adj[m] in found'
      invariant forall x :: x in cluster'[|cluster|..] ==> x in adj && x !in found
      invariant Distinct(cluster')
    {
      var badDet := adj[i];
      if badDet !in found' {
        assert badDet !in cluster';
        DistinctAppend(cluster', badDet);
        assert (cluster' + [badDet])[..|cluster|] == cluster;
        assert (cluster' + [badDet])[|cluster|..] == cluster'[|cluster|..] + [badDet];
        cluster' := cluster' + [badDet];
        found' := found' + {badDet};
        workQueue' := workQueue' + [badDet];
      }
    }
  }

  /** `reachableCluster`: breadth-first search from `initDet` over flagged neighbours,
      skipping modules already in `foundDets`. The queue is the not yet processed tail
      of the cluster. Returns the cluster and the grown set of found modules. */
  method ReachableCluster(cat: Catalog, bar: seq<nat>, end: seq<nat>, ghost nb: nat -> seq<nat>,
                          initDet: nat, foundDets: set<nat>)
    returns (cluster: seq<nat>, found: set<nat>)
    requires FollowsNeighbours(cat, bar, end, nb)
    ensures |cluster| > 0 && cluster[0] == initDet
    ensures Distinct(cluster)
    ensures forall k :: 0 < k < |cluster| ==> cluster[k] !in foundDets
    ensures forall x :: x in found <==> x in foundDets || x in cluster
    ensures NeighboursWithin(nb, cluster, found)
    ensures Linked(nb, cluster)
  {
    ghost var universe := [initDet] + bar + end;
    found := foundDets + {initDet};
    var workQueue := [initDet];
    cluster := [initDet];
    ghost var head := 0;
    while workQueue != []
      invariant 0 <= head <= |cluster| && workQueue == cluster[head..]
      invariant |cluster| > 0 && cluster[0] == initDet
      invariant Distinct(cluster)
      invariant forall k :: 0 < k < |cluster| ==> cluster[k] !in foundDets
      invariant forall x :: x in found <==> x in foundDets || x in cluster
      invariant forall x :: x in cluster ==> x in universe
      invariant |cluster| <= |universe|
      invariant ProcessedWithin(nb, cluster, head, found)
      invariant Linked(nb, cluster)
      decreases |universe| - |cluster|, |cluster| - head
    {
      var workDet := workQueue[0];
      workQueue := workQueue[1..];
      head := head + 1;
      assert workQueue == cluster[head..];
      var badAdjDets := BadAdjacentDets(cat, bar, end, nb, workDet);
      ghost var cluster0, found0 := cluster, found;
      cluster, found, workQueue := EnqueueUnfound(badAdjDets, cluster, found, workQueue);
      ghost var added := cluster[|cluster0|..];
      assert cluster == cluster0 + added;
      assert workQueue == cluster[head..] by {
        assert workQueue == cluster0[head..] + added;
      }
      VisitKeepsMembers(cat, bar, end, nb, universe, foundDets, workDet, cluster0, found0, added, found);
      LinkedAppendAll(nb, cluster0, added, head - 1);
      ProcessedStep(nb, cluster0, cluster, head, found0, found);
    }
  }

  /** One step of `reachableCluster` (dequeue `workDet`, enqueue `added`, its unfound
      neighbours) keeps the membership invariants. */
  lemma VisitKeepsMembers(cat: Catalog, bar: seq<nat>, end: seq<nat>, nb: nat -> seq<nat>,
                          universe: seq<nat>, foundDets: set<nat>, workDet: nat,
                          cluster0: seq<nat>, found0: set<nat>, added: seq<nat>, found: set<nat>)
    requires FollowsNeighbours(cat, bar, end, nb)
    requires forall k :: 0 < k < |cluster0| ==> cluster0[k] !in foundDets
    requires forall x :: x in found0 <==> x in foundDets || x in cluster0
    requires forall x :: x in cluster0 ==> x in universe
    requires forall x :: x in universe <== x in bar || x in end
    requires forall x :: x in found <==> x in found0 || x in added
    requires forall x :: x in added ==> x in nb(workDet) && x !in found0
    requires Distinct(cluster0 + added)
    ensures forall k :: 0 < k < |cluster0 + added| ==> (cluster0 + added)[k] !in foundDets
    ensures forall x :: x in found <==> x in foundDets || x in cluster0 + added
    ensures forall x :: x in cluster0 + added ==> x in universe
    ensures |cluster0 + added| <= |universe|
  {
    var cluster := cluster0 + added;
    forall x | x in added ensures x in universe {
      NeighboursFlagged(cat, bar, end, nb, workDet, x);
    }
    DistinctBound(cluster, universe);
    forall k | 0 < k < |cluster| ensures cluster[k] !in foundDets {
      if k >= |cluster0| {
        assert cluster[k] == added[k - |cluster0|];
        assert cluster[k] in added;
      }
    }
  }

  /** A duplicate-free sequence drawn from `t` is no longer than `t`. */
  lemma {:induction false} DistinctBound(s: seq<nat>, t: seq<nat>)
    requires Distinct(s) && forall x :: x in s ==> x in t
    ensures |s| <= |t|
    decreases |s|
  {
    if s != [] {
      var x := s[|s| - 1];
      assert s[|s| - 1] in s;
      assert x in t;
      var i :| 0 <= i < |t| && t[i] == x;
      var t' := t[..i] + t[i + 1..];
      var s' := s[..|s| - 1];
      forall y | y in s' ensures y in t' {
        var k :| 0 <= k < |s'| && s'[k] == y;
        assert s[k] == y && y != x;
        assert y in s && y in t;
        var n :| 0 <= n < |t| && t[n] == y;
        if n < i { assert t'[n] == y; } else { assert t'[n - 1] == y; }
      }
      DistinctBound(s', t');
    }
  }

  lemma DistinctAppend(s: seq<nat>, b: nat)
    requires Distinct(s) && b !in s
    ensures Distinct(s + [b])
  {
  }

  lemma LinkedAppend(nb: nat -> seq<nat>, s: seq<nat>, b: nat, parent: nat)
    requires Linked(nb, s)
    requires parent < |s| && b in nb(s[parent])
    ensures Linked(nb, s + [b])
  {
    var s' := s + [b];
    forall k | 0 < k < |s'|
      ensures HasParent(nb, s'[..k], s'[k])
    {
      if k == |s| {
        assert s'[..k] == s;
      } else {
        assert s'[..k] == s[..k] && s'[k] == s[k];
      }
    }
  }

  lemma LinkedAppendAll(nb: nat -> seq<nat>, s: seq<nat>, t: seq<nat>, parent: nat)
    requires Linked(nb, s)
    requires parent < |s| && forall x :: x in t ==> x in nb(s[parent])
    ensures Linked(nb, s + t)
    decreases |t|
  {
    if t != [] {
      var s' := s + t[..|t| - 1];
      assert forall x :: x in t[..|t| - 1] ==> x in t;
      LinkedAppendAll(nb, s, t[..|t| - 1], parent);
      assert s'[parent] == s[parent];
      assert t[|t| - 1] in t;
      LinkedAppend(nb, s', t[|t| - 1], parent);
      assert s' + [t[|t| - 1]] == s + t;
    } else {
      assert s + t == s;
    }
  }

  lemma ProcessedStep(nb: nat -> seq<nat>, s0: seq<nat>, s: seq<nat>, n: nat, t0: set<nat>, t: set<nat>)
    requires 0 < n <= |s0| <= |s| && s[..|s0|] == s0
    requires ProcessedWithin(nb, s0, n - 1, t0) && t0 <= t
    requires forall y :: y in nb(s0[n - 1]) ==> y in t
    ensures ProcessedWithin(nb, s, n, t)
  {
    forall j, y | 0 <= j < n && y in nb(s[j]) ensures y in t {
      assert s[j] == s[..|s0|][j] == s0[j];
    }
  }

  /** A cluster grown from a module of one list stays in that list. */
  lemma {:induction false} LinkedStaysInList(cat: Catalog, bar: seq<nat>, end: seq<nat>, nb: nat -> seq<nat>,
                                              list: seq<nat>, cluster: seq<nat>, k: nat)
    requires FollowsNeighbours(cat, bar, end, nb) && BadListsValid(cat, bar, end)
    requires list == bar || list == end
    requires |cluster| > 0 && cluster[0] in list && Linked(nb, cluster)
    requires k < |cluster|
    ensures cluster[k] in list
    decreases k
  {
    if k > 0 {
      assert HasParent(nb, cluster[..k], cluster[k]);
      var j :| 0 <= j < k && cluster[k] in nb(cluster[..k][j]);
      assert cluster[..k][j] == cluster[j];
      LinkedStaysInList(cat, bar, end, nb, list, cluster, j);
      assert nb(cluster[j]) == Neighbours(cat, bar, end, cluster[j]);
      NeighboursStayInList(cat, bar, end, list, cluster[j], cluster[k]);
    }
  }

  /** Every neighbour of an entry of `s` is itself in `s`. */
  ghost predicate Closed(nb: nat -> seq<nat>, s: seq<nat>) {
    forall j, y :: 0 <= j < |s| && y in nb(s[j]) ==> y in s
  }

  /** What each cluster is: a duplicate-free, connected group of modules closed under
      touching. */
  ghost predicate ClusterShape(nb: nat -> seq<nat>, c: seq<nat>) {
    Distinct(c) && Linked(nb, c) && Closed(nb, c)
  }

  predicate NonEmpty(clusters: seq<seq<nat>>) {
    forall i :: 0 <= i < |clusters| ==> |clusters[i]| > 0
  }

  /** `x` belongs to one of the clusters. */
  ghost predicate InSome(clusters: seq<seq<nat>>, x: nat) {
    exists i, j :: 0 <= i < |clusters| && 0 <= j < |clusters[i]| && clusters[i][j] == x
  }

  /** No module is in two clusters. */
  predicate Disjoint(clusters: seq<seq<nat>>) {
    forall i, j, i', j' ::
      0 <= i < i' < |clusters| && 0 <= j < |clusters[i]| && 0 <= j' < |clusters[i']| ==>
        clusters[i][j] != clusters[i'][j']
  }

  /** The first entry of each cluster is its least id, and the clusters come in increasing
      order of their first entries. */
  predicate SeedsOrdered(clusters: seq<seq<nat>>)
    requires NonEmpty(clusters)
  {
    && (forall i, j :: 0 <= i < |clusters| && 0 <= j < |clusters[i]| ==> clusters[i][0] <= clusters[i][j])
    && (forall i, i' :: 0 <= i < i' < |clusters| ==> clusters[i][0] < clusters[i'][0])
  }

  /** Every found module is in some cluster. */
  ghost predicate Covered(clusters: seq<seq<nat>>, found: set<nat>) {
    forall x :: x in found ==> InSome(clusters, x)
  }

  /** Every cluster member is found and listed. */
  predicate MembersIn(clusters: seq<seq<nat>>, found: set<nat>, list: seq<nat>) {
    forall i, j :: 0 <= i < |clusters| && 0 <= j < |clusters[i]| ==>
      clusters[i][j] in found && clusters[i][j] in list
  }

  /** The first `k` entries of `list` are found. */
  predicate PrefixFound(list: seq<nat>, k: nat, found: set<nat>)
    requires k <= |list|
  {
    forall m :: 0 <= m < k ==> list[m] in found
  }

  ghost predicate AllShaped(nb: nat -> seq<nat>, clusters: seq<seq<nat>>) {
    forall i :: 0 <= i < |clusters| ==> ClusterShape(nb, clusters[i])
  }

  /** Every seed is below the entries of `list` from `k` on. */
  predicate SeedsBelow(clusters: seq<seq<nat>>, list: seq<nat>, k: nat)
    requires NonEmpty(clusters)
  {
    forall i, m :: 0 <= i < |clusters| && k <= m < |list| ==> clusters[i][0] < list[m]
  }

  /** The loop invariant of `badClustersBarrel` / `badClustersEndcap` after the first `k`
      entries of `list`. */
  ghost predicate ClustersSoFar(nb: nat -> seq<nat>, list: seq<nat>, k: nat, clusters: seq<seq<nat>>,
                                found: set<nat>)
    requires k <= |list|
  {
    && Covered(clusters, found)
    && MembersIn(clusters, found, list)
    && PrefixFound(list, k, found)
    && NonEmpty(clusters)
    && AllShaped(nb, clusters)
    && Disjoint(clusters)
    && SeedsOrdered(clusters)
    && SeedsBelow(clusters, list, k)
  }

  /** `badClustersBarrel` (with `list` the barrel bad list) and `badClustersEndcap` (with
      the endcap bad list): walks the list in increasing id order and grows a cluster
      from every module no earlier cluster holds. The clusters partition the list into
      connected groups closed under touching; each starts with its least id and the
      clusters come in increasing order of that id. */
  method BadClusters(cat: Catalog, bar: seq<nat>, end: seq<nat>, ghost nb: nat -> seq<nat>, list: seq<nat>)
    returns (clusters: seq<seq<nat>>)
    requires FollowsNeighbours(cat, bar, end, nb) && BadListsValid(cat, bar, end)
    requires list == bar || list == end
    ensures forall x :: x in list <==> InSome(clusters, x)
    ensures NonEmpty(clusters) && Disjoint(clusters) && SeedsOrdered(clusters)
    ensures forall i :: 0 <= i < |clusters| ==> ClusterShape(nb, clusters[i])
  {
    clusters := [];
    var foundDets: set<nat> := {};
    for k := 0 to |list|
      invariant ClustersSoFar(nb, list, k, clusters, foundDets)
    {
      var badDet := list[k];
      if badDet !in foundDets {
        var cluster, found' := ReachableCluster(cat, bar, end, nb, badDet, foundDets);
        AddClusterKeeps(cat, bar, end, nb, list, k, clusters, foundDets, cluster, found');
        clusters, foundDets := clusters + [cluster], found';
      } else {
        SkipFoundKeeps(nb, list, k, clusters, foundDets);
      }
    }
    ClustersPartition(nb, list, clusters, foundDets);
  }

  /** Passing over an entry that is already found keeps the invariant. */
  lemma SkipFoundKeeps(nb: nat -> seq<nat>, list: seq<nat>, k: nat, clusters: seq<seq<nat>>, found: set<nat>)
    requires k < |list| && list[k] in found
    requires ClustersSoFar(nb, list, k, clusters, found)
    ensures ClustersSoFar(nb, list, k + 1, clusters, found)
  {
  }

  /** Once the whole list is walked, the clusters hold exactly the listed modules. */
  lemma ClustersPartition(nb: nat -> seq<nat>, list: seq<nat>, clusters: seq<seq<nat>>, found: set<nat>)
    requires ClustersSoFar(nb, list, |list|, clusters, found)
    ensures forall x :: x in list <==> InSome(clusters, x)
  {
    forall x ensures x in list <==> InSome(clusters, x) {
      if x in list {
        var m :| 0 <= m < |list| && list[m] == x;
        assert x in found;
      }
    }
  }

  /** The members of a cluster grown from an unfound module of `list` are unfound
      modules of `list`. */
  lemma NewMembersFresh(cat: Catalog, bar: seq<nat>, end: seq<nat>, nb: nat -> seq<nat>,
                        list: seq<nat>, found: set<nat>, c: seq<nat>)
    requires FollowsNeighbours(cat, bar, end, nb) && BadListsValid(cat, bar, end)
    requires list == bar || list == end
    requires |c| > 0 && c[0] in list && c[0] !in found && Linked(nb, c)
    requires forall j :: 0 < j < |c| ==> c[j] !in found
    ensures forall j :: 0 <= j < |c| ==> c[j] in list && c[j] !in found
  {
    forall j | 0 <= j < |c| ensures c[j] in list && c[j] !in found {
      LinkedStaysInList(cat, bar, end, nb, list, c, j);
    }
  }

  /** A cluster grown from an unfound module is closed: a neighbour found earlier would
      lie in an earlier closed cluster, and by symmetry pull the new member into it. */
  lemma NewClusterClosed(cat: Catalog, bar: seq<nat>, end: seq<nat>, nb: nat -> seq<nat>,
                         list: seq<nat>, clusters: seq<seq<nat>>, found: set<nat>,
                         c: seq<nat>, found': set<nat>)
    requires FollowsNeighbours(cat, bar, end, nb) && BadListsValid(cat, bar, end)
    requires list == bar || list == end
    requires Covered(clusters, found) && MembersIn(clusters, found, list) && AllShaped(nb, clusters)
    requires forall j :: 0 <= j < |c| ==> c[j] in list && c[j] !in found
    requires forall x :: x in found' <==> x in found || x in c
    requires NeighboursWithin(nb, c, found')
    ensures Closed(nb, c)
  {
    forall j, y | 0 <= j < |c| && y in nb(c[j]) ensures y in c {
      assert ProcessedWithin(nb, c, |c|, found');
      if y !in c {
        assert InSome(clusters, y);
        var i, jy :| 0 <= i < |clusters| && 0 <= jy < |clusters[i]| && clusters[i][jy] == y;
        assert ClusterShape(nb, clusters[i]);
        NeighbourOfMemberInside(cat, bar, end, nb, list, clusters[i], jy, c[j]);
      }
    }
  }

  /** A listed module touching a member of a closed group is in that group. */
  lemma NeighbourOfMemberInside(cat: Catalog, bar: seq<nat>, end: seq<nat>, nb: nat -> seq<nat>,
                                list: seq<nat>, g: seq<nat>, jy: nat, x: nat)
    requires FollowsNeighbours(cat, bar, end, nb) && BadListsValid(cat, bar, end)
    requires list == bar || list == end
    requires Closed(nb, g) && jy < |g| && g[jy] in list && x in list
    requires g[jy] in nb(x)
    ensures x in g
  {
    var y := g[jy];
    assert nb(x) == Neighbours(cat, bar, end, x);
    NeighboursSymmetric(cat, bar, end, list, x, y);
    assert nb(y) == Neighbours(cat, bar, end, y);
  }

  /** Adding the cluster grown from the first unfound entry keeps the invariant. */
  lemma AddClusterKeeps(cat: Catalog, bar: seq<nat>, end: seq<nat>, nb: nat -> seq<nat>,
                        list: seq<nat>, k: nat, clusters: seq<seq<nat>>, found: set<nat>,
                        c: seq<nat>, found': set<nat>)
    requires FollowsNeighbours(cat, bar, end, nb) && BadListsValid(cat, bar, end)
    requires list == bar || list == end
    requires k < |list| && list[k] !in found
    requires ClustersSoFar(nb, list, k, clusters, found)
    requires |c| > 0 && c[0] == list[k]
    requires Distinct(c)
    requires forall j :: 0 < j < |c| ==> c[j] !in found
    requires forall x :: x in found' <==> x in found || x in c
    requires NeighboursWithin(nb, c, found')
    requires Linked(nb, c)
    ensures ClustersSoFar(nb, list, k + 1, clusters + [c], found')
  {
    NewMembersFresh(cat, bar, end, nb, list, found, c);
    NewClusterClosed(cat, bar, end, nb, list, clusters, found, c, found');
    forall j | 0 <= j < |c| ensures list[k] <= c[j] {
      var m :| 0 <= m < |list| && list[m] == c[j];
    }
    AppendCluster(nb, list, k, clusters, found, c, found');
  }

  /** The bookkeeping half of `AddClusterKeeps`, once the new cluster is known to be a
      closed group of unfound modules of `list` led by its least member `list[k]`. */
  lemma AppendCluster(nb: nat -> seq<nat>, list: seq<nat>, k: nat, clusters: seq<seq<nat>>,
                      found: set<nat>, c: seq<nat>, found': set<nat>)
    requires StrictlySorted(list) && k < |list|
    requires ClustersSoFar(nb, list, k, clusters, found)
    requires |c| > 0 && c[0] == list[k] && ClusterShape(nb, c)
    requires forall j :: 0 <= j < |c| ==> c[j] in list && c[j] !in found && list[k] <= c[j]
    requires forall x :: x in found' <==> x in found || x in c
    ensures ClustersSoFar(nb, list, k + 1, clusters + [c], found')
  {
    var cs := clusters + [c];
    AppendCovered(clusters, found, c, found');
    AppendMembersIn(clusters, found, list, c, found');
    AppendDisjoint(clusters, found, list, c);
    AppendSeeds(list, k, clusters, c);
    assert PrefixFound(list, k + 1, found');
    assert AllShaped(nb, cs) by {
      assert forall i :: 0 <= i < |clusters| ==> cs[i] == clusters[i];
    }
  }

  lemma AppendCovered(clusters: seq<seq<nat>>, found: set<nat>, c: seq<nat>, found': set<nat>)
    requires Covered(clusters, found)
    requires forall x :: x in found' <==> x in found || x in c
    ensures Covered(clusters + [c], found')
  {
    var cs := clusters + [c];
    forall x | x in found' ensures InSome(cs, x) {
      if x in found {
        var i, j :| 0 <= i < |clusters| && 0 <= j < |clusters[i]| && clusters[i][j] == x;
        assert cs[i][j] == x;
      } else {
        var j :| 0 <= j < |c| && c[j] == x;
        assert cs[|clusters|][j] == x;
      }
    }
  }

  lemma AppendMembersIn(clusters: seq<seq<nat>>, found: set<nat>, list: seq<nat>, c: seq<nat>, found': set<nat>)
    requires MembersIn(clusters, found, list)
    requires forall j :: 0 <= j < |c| ==> c[j] in list
    requires forall x :: x in found' <==> x in found || x in c
    ensures MembersIn(clusters + [c], found', list)
  {
    var cs := clusters + [c];
    forall i, j | 0 <= i < |cs| && 0 <= j < |cs[i]| ensures cs[i][j] in found' && cs[i][j] in list {
      if i < |clusters| {
        assert cs[i][j] == clusters[i][j];
      } else {
        assert cs[i][j] == c[j];
      }
    }
  }

  lemma AppendDisjoint(clusters: seq<seq<nat>>, found: set<nat>, list: seq<nat>, c: seq<nat>)
    requires MembersIn(clusters, found, list) && Disjoint(clusters)
    requires forall j :: 0 <= j < |c| ==> c[j] !in found
    ensures Disjoint(clusters + [c])
  {
    var cs := clusters + [c];
    forall i, j, i', j' | 0 <= i < i' < |cs| && 0 <= j < |cs[i]| && 0 <= j' < |cs[i']|
      ensures cs[i][j] != cs[i'][j']
    {
      assert cs[i][j] == clusters[i][j];
      if i' < |clusters| {
        assert cs[i'][j'] == clusters[i'][j'];
      } else {
        assert cs[i'][j'] == c[j'];
      }
    }
  }

  lemma AppendSeeds(list: seq<nat>, k: nat, clusters: seq<seq<nat>>, c: seq<nat>)
    requires StrictlySorted(list) && k < |list|
    requires NonEmpty(clusters) && SeedsOrdered(clusters) && SeedsBelow(clusters, list, k)
    requires |c| > 0 && c[0] == list[k]
    requires forall j :: 0 <= j < |c| ==> list[k] <= c[j]
    ensures NonEmpty(clusters + [c]) && SeedsOrdered(clusters + [c]) && SeedsBelow(clusters + [c], list, k + 1)
  {
    var cs := clusters + [c];
    assert forall i :: 0 <= i < |clusters| ==> cs[i] == clusters[i];
    assert cs[|clusters|] == c;
    forall i, m | 0 <= i < |cs| && k + 1 <= m < |list| ensures cs[i][0] < list[m] {
      assert list[k] < list[m];
    }
  }

  /** With the clusters partitioning the list in the order `badClusters` builds them,
      the seed of cluster `i` is the least listed module that no earlier cluster holds:
      it is listed, no earlier cluster holds it, and every other such module is larger. */
  lemma SeedIsLeastUnfound(clusters: seq<seq<nat>>, list: seq<nat>, i: nat, x: nat)
    requires NonEmpty(clusters) && Disjoint(clusters) && SeedsOrdered(clusters)
    requires forall y :: y in list <==> InSome(clusters, y)
    requires i < |clusters| && x in list
    requires forall i', j :: 0 <= i' < i && 0 <= j < |clusters[i']| ==> clusters[i'][j] != x
    ensures clusters[i][0] in list && clusters[i][0] <= x
    ensures forall i' :: 0 <= i' < i ==> clusters[i][0] !in clusters[i']
  {
    assert InSome(clusters, clusters[i][0]);
    var a, b :| 0 <= a < |clusters| && 0 <= b < |clusters[a]| && clusters[a][b] == x;
    assert clusters[a][0] <= x;
    if a < i {
      assert false;
    }
    forall i' | 0 <= i' < i ensures clusters[i][0] !in clusters[i'] {
      assert clusters[i'][0] < clusters[i][0];
    }
  }
}
