/** `clusterSpans`: the clusters of each sub-detector's bad list, each reduced to its
    spans. */
module Pipeline {
  import opened Geometry
  import opened BadDets
  import opened Adjacency
  import opened Clustering
  import opened Spans

  /** Both extents of a span are non-degenerate. */
  predicate SpanOk(s: ClusterSpan) {
    s.zSpan.first < s.zSpan.second && s.rSpan.first < s.rSpan.second
  }

  /** What `getSpan` leaves for a barrel cluster of a real detector: the sub-detector,
      the layer (1 to 4) with disk 0, the phi span from the least to the greatest ladder,
      and the z and r spans. */
  ghost predicate BarrelSpanOf(cat: Catalog, c: seq<nat>, s: ClusterSpan) {
    && |c| > 0
    && var layer := cat.det(c[0]).layer;
    && s.subdetId == PixelBarrel && s.layer == layer && 1 <= layer <= 4 && s.disk == 0
    && s.phiSpan == Span(cat.det(cat.pxbDetId(layer, MinLadder(cat, c), 1)).phi.first,
                         cat.det(cat.pxbDetId(layer, MaxLadder(cat, c), 1)).phi.second)
    && s.zSpan == MinMaxSpan(ZsOf(cat, c)) && s.rSpan == MinMaxSpan(RsOf(cat, c))
    && SpanOk(s)
  }

  /** What `getSpan` leaves for an endcap cluster: the sub-detector, the disk with layer
      0, the endcap phi span, and the z and r spans. */
  ghost predicate EndcapSpanOf(trig: Trig, cat: Catalog, c: seq<nat>, s: ClusterSpan) {
    && |c| > 0
    && s.subdetId == PixelEndcap && s.layer == 0 && s.disk == cat.det(c[0]).disk
    && s.phiSpan == EndcapPhi(trig, PhisOf(cat, c))
    && s.zSpan == MinMaxSpan(ZsOf(cat, c)) && s.rSpan == MinMaxSpan(RsOf(cat, c))
    && SpanOk(s)
  }

  /** A cluster grown along barrel adjacency from a module of the barrel list stays on
      the barrel list and on the layer of its seed. */
  lemma {:induction false} LinkedOneLayer(cat: Catalog, bar: seq<nat>, end: seq<nat>, nb: nat -> seq<nat>,
                                           cluster: seq<nat>, k: nat)
    requires FollowsNeighbours(cat, bar, end, nb) && BadListsValid(cat, bar, end)
    requires |cluster| > 0 && cluster[0] in bar && Linked(nb, cluster)
    requires k < |cluster|
    ensures cluster[k] in bar && cat.det(cluster[k]).layer == cat.det(cluster[0]).layer
    decreases k
  {
    if k > 0 {
      assert HasParent(nb, cluster[..k], cluster[k]);
      var j :| 0 <= j < k && cluster[k] in nb(cluster[..k][j]);
      assert cluster[..k][j] == cluster[j];
      LinkedOneLayer(cat, bar, end, nb, cluster, j);
      assert nb(cluster[j]) == Neighbours(cat, bar, end, cluster[j]);
      NeighboursStayInList(cat, bar, end, bar, cluster[j], cluster[k]);
      BarrelAdjacencyIff(cat, bar, end, cluster[j], cluster[k]);
    }
  }

  /** The z and r spans of a cluster on a real detector are non-degenerate. */
  lemma ClusterExtentsOk(cat: Catalog, c: seq<nat>)
    requires WellFormed(cat) && |c| > 0
    ensures MinMaxSpan(ZsOf(cat, c)).first < MinMaxSpan(ZsOf(cat, c)).second
    ensures MinMaxSpan(RsOf(cat, c)).first < MinMaxSpan(RsOf(cat, c)).second
  {
    var zs, rs := ZsOf(cat, c), RsOf(cat, c);
    assert forall k :: 0 <= k < |zs| ==> zs[k] == cat.det(c[k]).z;
    MinMaxSpanOrdered(zs);
    MinMaxSpanOrdered(rs);
  }

  /** A cluster of the barrel partition is a non-empty single-layer group of barrel
      modules. */
  lemma BarrelClusterFacts(cat: Catalog, bar: seq<nat>, end: seq<nat>, nb: nat -> seq<nat>,
                           clusters: seq<seq<nat>>, i: nat)
    requires FollowsNeighbours(cat, bar, end, nb) && BadListsValid(cat, bar, end)
    requires forall x :: x in bar <==> InSome(clusters, x)
    requires NonEmpty(clusters) && i < |clusters| && ClusterShape(nb, clusters[i])
    ensures OneBarrelLayer(cat, clusters[i])
  {
    var c := clusters[i];
    assert InSome(clusters, c[0]);
    forall k | 0 <= k < |c|
      ensures cat.det(c[k]).subdet == PixelBarrel && cat.det(c[k]).layer == cat.det(c[0]).layer
    {
      LinkedOneLayer(cat, bar, end, nb, c, k);
    }
  }

  /** The first member of a cluster of the endcap partition is an endcap module. */
  lemma EndcapClusterFacts(cat: Catalog, bar: seq<nat>, end: seq<nat>, clusters: seq<seq<nat>>, i: nat)
    requires BadListsValid(cat, bar, end)
    requires forall x :: x in end <==> InSome(clusters, x)
    requires NonEmpty(clusters) && i < |clusters|
    ensures cat.det(clusters[i][0]).subdet == PixelEndcap
  {
    assert InSome(clusters, clusters[i][0]);
  }

  /** Every cluster of the barrel partition is a non-empty group of barrel modules on one
      layer. */
  lemma BarrelClustersFacts(cat: Catalog, bar: seq<nat>, end: seq<nat>, nb: nat -> seq<nat>,
                            clusters: seq<seq<nat>>)
    requires FollowsNeighbours(cat, bar, end, nb) && BadListsValid(cat, bar, end)
    requires forall x :: x in bar <==> InSome(clusters, x)
    requires NonEmpty(clusters) && forall i :: 0 <= i < |clusters| ==> ClusterShape(nb, clusters[i])
    ensures forall i :: 0 <= i < |clusters| ==> |clusters[i]| > 0 && OneBarrelLayer(cat, clusters[i])
  {
    forall i | 0 <= i < |clusters| ensures OneBarrelLayer(cat, clusters[i]) {
      BarrelClusterFacts(cat, bar, end, nb, clusters, i);
    }
  }

  /** The loop of `clusterSpans` over the barrel clusters. */
  method BarrelSpans(trig: Trig, cat: Catalog, clusters: seq<seq<nat>>) returns (spans: seq<ClusterSpan>)
    requires WellFormed(cat)
    requires forall i :: 0 <= i < |clusters| ==> |clusters[i]| > 0 && OneBarrelLayer(cat, clusters[i])
    ensures |spans| == |clusters|
    ensures forall i :: 0 <= i < |spans| ==> BarrelSpanOf(cat, clusters[i], spans[i])
  {
    spans := [];
    for i := 0 to |clusters|
      invariant |spans| == i
      invariant forall j :: 0 <= j < i ==> BarrelSpanOf(cat, clusters[j], spans[j])
    {
      var cspan := BarrelClusterSpan(trig, cat, clusters[i]);
      spans := spans + [cspan];
    }
  }

  /** `getSpan` from the default span, for one cluster of barrel modules of one layer. */
  method BarrelClusterSpan(trig: Trig, cat: Catalog, cluster: seq<nat>) returns (cspan: ClusterSpan)
    requires WellFormed(cat) && |cluster| > 0 && OneBarrelLayer(cat, cluster)
    ensures BarrelSpanOf(cat, cluster, cspan)
  {
    var d := cat.det(cluster[0]);
    assert ValidBarrelCoords(d.layer, d.ladder, d.moduleNum);
    BarrelPhiFromExtremeLadders(cat, cluster);
    ClusterExtentsOk(cat, cluster);
    cspan := GetSpan(trig, cat, cluster, DefaultClusterSpan);
  }

  /** The loop of `clusterSpans` over the endcap clusters. */
  method EndcapSpans(trig: Trig, cat: Catalog, bar: seq<nat>, end: seq<nat>, clusters: seq<seq<nat>>)
    returns (spans: seq<ClusterSpan>)
    requires WellFormed(cat) && BadListsValid(cat, bar, end)
    requires forall x :: x in end <==> InSome(clusters, x)
    requires NonEmpty(clusters)
    ensures |spans| == |clusters|
    ensures forall i :: 0 <= i < |spans| ==> EndcapSpanOf(trig, cat, clusters[i], spans[i])
  {
    spans := [];
    for i := 0 to |clusters|
      invariant |spans| == i
      invariant forall j :: 0 <= j < i ==> EndcapSpanOf(trig, cat, clusters[j], spans[j])
    {
      var cluster := clusters[i];
      EndcapClusterFacts(cat, bar, end, clusters, i);
      ClusterExtentsOk(cat, cluster);
      var cspan := GetSpan(trig, cat, cluster, DefaultClusterSpan);
      spans := spans + [cspan];
    }
  }

  /** `clusterSpans`: clusters the barrel list and the endcap list, then computes the spans
      of every cluster, starting each from the default span. */
  method ClusterSpans(trig: Trig, cat: Catalog, bar: seq<nat>, end: seq<nat>)
    returns (barSpans: seq<ClusterSpan>, endSpans: seq<ClusterSpan>,
             ghost barClusters: seq<seq<nat>>, ghost endClusters: seq<seq<nat>>)
    requires WellFormed(cat) && BadListsValid(cat, bar, end)
    ensures forall x :: x in bar <==> InSome(barClusters, x)
    ensures forall x :: x in end <==> InSome(endClusters, x)
    ensures NonEmpty(barClusters) && Disjoint(barClusters) && SeedsOrdered(barClusters)
    ensures NonEmpty(endClusters) && Disjoint(endClusters) && SeedsOrdered(endClusters)
    ensures forall i :: 0 <= i < |barClusters| ==>
              ClusterShape(x => Neighbours(cat, bar, end, x), barClusters[i])
    ensures forall i :: 0 <= i < |endClusters| ==>
              ClusterShape(x => Neighbours(cat, bar, end, x), endClusters[i])
    ensures |barSpans| == |barClusters| && |endSpans| == |endClusters|
    ensures forall i :: 0 <= i < |barSpans| ==> BarrelSpanOf(cat, barClusters[i], barSpans[i])
    ensures forall i :: 0 <= i < |endSpans| ==> EndcapSpanOf(trig, cat, endClusters[i], endSpans[i])
    ensures forall i :: 0 <= i < |barSpans| ==>
              barSpans[i].subdetId == PixelBarrel && 1 <= barSpans[i].layer <= 4 && barSpans[i].disk == 0
              && SpanOk(barSpans[i])
    ensures forall i :: 0 <= i < |endSpans| ==>
              endSpans[i].subdetId == PixelEndcap && endSpans[i].layer == 0 && SpanOk(endSpans[i])
    ensures (barSpans == []) == (bar == []) && (endSpans == []) == (end == [])
  {
    ghost var nb: nat -> seq<nat> := x => Neighbours(cat, bar, end, x);
    assert FollowsNeighbours(cat, bar, end, nb);
    var badClustersBar := BadClusters(cat, bar, end, nb, bar);
    var badClustersEnd := BadClusters(cat, bar, end, nb, end);
    barClusters, endClusters := badClustersBar, badClustersEnd;
    BarrelClustersFacts(cat, bar, end, nb, badClustersBar);
    barSpans := BarrelSpans(trig, cat, badClustersBar);
    endSpans := EndcapSpans(trig, cat, bar, end, badClustersEnd);
    if bar != [] {
      assert InSome(barClusters, bar[0]);
    }
    if barClusters != [] {
      assert InSome(barClusters, barClusters[0][0]);
    }
    if end != [] {
      assert InSome(endClusters, end[0]);
    }
    if endClusters != [] {
      assert InSome(endClusters, endClusters[0][0]);
    }
  }
}
