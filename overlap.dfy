/** Where two clusters of dead modules shadow each other along the beam axis
    (`zAxisIntersection`, `getZAxisOverlapRange*`, `overlappingSpans`). */
module Overlap {
  import opened Geometry
  import opened PhiOverlap
  import opened BadDets
  import opened Adjacency
  import opened Clustering
  import opened Pipeline

  /** A point `{z, r}` in cylindrical coordinates. */
  datatype Point = Point(z: real, r: real)

  /** `zAxisIntersection(A, B)`: the z at which the line through A and B reaches r = 0.
      The result lies on that line. */
  function ZAxisIntersection(a: Point, b: Point): (z: real)
    requires a.r != b.r
    ensures (z - a.z) * (b.r - a.r) == (b.z - a.z) * (0.0 - a.r)
  {
    var slope := (b.z - a.z) / (b.r - a.r);
    assert slope * (b.r - a.r) == b.z - a.z;
    assert slope * (-a.r) * (b.r - a.r) == slope * (b.r - a.r) * (-a.r);
    slope * (-a.r) + a.z
  }

  /** The line through two points does not depend on their order. */
  lemma ZAxisIntersectionSymmetric(a: Point, b: Point)
    requires a.r != b.r
    ensures ZAxisIntersection(a, b) == ZAxisIntersection(b, a)
  {
    var z, z' := ZAxisIntersection(a, b), ZAxisIntersection(b, a);
    var dr := b.r - a.r;
    assert (z' - b.z) * (a.r - b.r) == (a.z - b.z) * (0.0 - b.r);
    assert z * dr == a.z * dr - (b.z - a.z) * a.r;
    assert z' * dr == b.z * dr - (b.z - a.z) * b.r;
    assert (z - z') * dr == 0.0;
  }

  /** A z range on the beam axis; an end may be infinite. */
  datatype Range = Range(lower: Ext, upper: Ext)

  /** `getZAxisOverlapRangeBarrel`: orders the two clusters by radius and projects
      corner pairs of their (z, r) boxes onto the beam axis, choosing the corners by how
      the z spans lie; None (`false`) when the r spans meet. */
  function OverlapRangeBarrel(a: ClusterSpan, b: ClusterSpan): (r: Option<Range>)
    requires a.rSpan.first <= a.rSpan.second && b.rSpan.first <= b.rSpan.second
    ensures r.None? <==> !(a.rSpan.second < b.rSpan.first) && !(a.rSpan.first > b.rSpan.second)
    ensures r.Some? ==> r.value.lower.Fin? && r.value.upper.Fin?
  {
    if !(a.rSpan.second < b.rSpan.first) && !(a.rSpan.first > b.rSpan.second) then None
    else
      var (lo, up) := if a.rSpan.second < b.rSpan.first then (a, b) else (b, a);
      if up.zSpan.second < lo.zSpan.first then
        Some(Range(Fin(ZAxisIntersection(Point(up.zSpan.second, up.rSpan.second), Point(lo.zSpan.first, lo.rSpan.first))),
                   Fin(ZAxisIntersection(Point(up.zSpan.first, up.rSpan.first), Point(lo.zSpan.second, lo.rSpan.second)))))
      else if up.zSpan.first <= lo.zSpan.second && lo.zSpan.first <= up.zSpan.second then
        Some(Range(Fin(ZAxisIntersection(Point(up.zSpan.second, up.rSpan.first), Point(lo.zSpan.first, lo.rSpan.second))),
                   Fin(ZAxisIntersection(Point(up.zSpan.first, up.rSpan.first), Point(lo.zSpan.second, lo.rSpan.second)))))
      else if up.zSpan.first > lo.zSpan.second then
        Some(Range(Fin(ZAxisIntersection(Point(up.zSpan.second, up.rSpan.first), Point(lo.zSpan.first, lo.rSpan.second))),
                   Fin(ZAxisIntersection(Point(up.zSpan.first, up.rSpan.second), Point(lo.zSpan.second, lo.rSpan.first)))))
      else
        // the three guards above cover every pair of z spans
        assert false; None
  }

  /** The barrel range does not depend on which cluster comes first. */
  lemma OverlapRangeBarrelSymmetric(a: ClusterSpan, b: ClusterSpan)
    requires a.rSpan.first <= a.rSpan.second && b.rSpan.first <= b.rSpan.second
    ensures OverlapRangeBarrel(a, b) == OverlapRangeBarrel(b, a)
  {
  }

  /** `a` lies further from z = 0 than `b` on the same side, with the z spans apart:
      on the negative side `a` ends before `b` starts, on the positive side `a` starts
      after `b` ends. */
  predicate Further(a: ClusterSpan, b: ClusterSpan) {
    || (a.zSpan.first < 0.0 && b.zSpan.first < 0.0 && a.zSpan.second < b.zSpan.first)
    || (a.zSpan.first > 0.0 && b.zSpan.first > 0.0 && a.zSpan.first > b.zSpan.second)
  }

  /** `getZAxisOverlapRangeEndcap`: two endcap clusters on the same side of z = 0 with z
      spans apart shadow each other when the further one reaches out beyond the inner
      edge of the nearer. The bound towards the interaction point is then open
      (infinite) when the further cluster also reaches in below the nearer one's outer
      edge. The second point of the closing projection takes its r from the further
      cluster's outer edge. */
  function OverlapRangeEndcap(a: ClusterSpan, b: ClusterSpan): (r: Option<Range>)
    requires a.rSpan.first < a.rSpan.second && b.rSpan.first < b.rSpan.second
    ensures var (f, n) := if Further(a, b) then (a, b) else (b, a);
      && (r.Some? <==> (Further(a, b) || Further(b, a)) && f.rSpan.second > n.rSpan.first)
      && (r.Some? && a.zSpan.first < 0.0 ==>
            r.value.lower.Fin? && (r.value.upper == PosInf <==> f.rSpan.first <= n.rSpan.second))
      && (r.Some? && a.zSpan.first > 0.0 ==>
            r.value.upper.Fin? && (r.value.lower == NegInf <==> f.rSpan.first <= n.rSpan.second))
  {
    if a.zSpan.first < 0.0 && b.zSpan.first < 0.0 then
      if !(a.zSpan.second < b.zSpan.first) && !(b.zSpan.second < a.zSpan.first) then None
      else
        var (further, nearer) := if a.zSpan.second < b.zSpan.first then (a, b) else (b, a);
        if further.rSpan.second > nearer.rSpan.first then
          var lower := ZAxisIntersection(Point(further.zSpan.second, further.rSpan.second),
                                         Point(nearer.zSpan.first, nearer.rSpan.first));
          var upper := if further.rSpan.first > nearer.rSpan.second
                       then Fin(ZAxisIntersection(Point(further.zSpan.first, further.rSpan.first),
                                                  Point(nearer.zSpan.second, further.rSpan.second)))
                       else PosInf;
          Some(Range(Fin(lower), upper))
        else None
    else if a.zSpan.first > 0.0 && b.zSpan.first > 0.0 then
      if !(a.zSpan.first > b.zSpan.second) && !(b.zSpan.first > a.zSpan.second) then None
      else
        var (further, nearer) := if a.zSpan.first > b.zSpan.second then (a, b) else (b, a);
        if further.rSpan.second > nearer.rSpan.first then
          var upper := ZAxisIntersection(Point(further.zSpan.first, further.rSpan.second),
                                         Point(nearer.zSpan.second, nearer.rSpan.first));
          var lower := if further.rSpan.first > nearer.rSpan.second
                       then Fin(ZAxisIntersection(Point(further.zSpan.second, further.rSpan.first),
                                                  Point(nearer.zSpan.first, further.rSpan.second)))
                       else NegInf;
          Some(Range(lower, Fin(upper)))
        else None
    else None
  }

  /** Endcap clusters on opposite sides of z = 0, or starting at z = 0, or whose z spans
      meet, never shadow each other. */
  lemma EndcapRangeNone(a: ClusterSpan, b: ClusterSpan)
    requires a.rSpan.first < a.rSpan.second && b.rSpan.first < b.rSpan.second
    requires || !((a.zSpan.first < 0.0 && b.zSpan.first < 0.0) || (a.zSpan.first > 0.0 && b.zSpan.first > 0.0))
             || (a.zSpan.first <= b.zSpan.second && b.zSpan.first <= a.zSpan.second)
    ensures OverlapRangeEndcap(a, b).None?
  {
  }

  /** The effect of taking point D's r from the further cluster's outer edge: a further
      cluster at z (-30, -20), r (5, 10) and a nearer one at z (-10, -5), r (2, 4) get the
      inverted range (-7.5, -55), which fails the threshold test at 0. With the nearer
      cluster's outer edge for point D the upper end would be 95, and the range would
      contain z = 0. */
  lemma EndcapPointDInvertsRange()
    ensures var further := ClusterSpan(PixelEndcap, Span(0.0, 0.0), Span(-30.0, -20.0), Span(5.0, 10.0), 0, 1);
            var nearer := ClusterSpan(PixelEndcap, Span(0.0, 0.0), Span(-10.0, -5.0), Span(2.0, 4.0), 0, 2);
            var r := OverlapRangeEndcap(further, nearer);
            && r == Some(Range(Fin(-7.5), Fin(-55.0)))
            && !WithinThreshold(Fin(0.0), r.value)
            && ZAxisIntersection(Point(further.zSpan.first, further.rSpan.first),
                                 Point(nearer.zSpan.second, nearer.rSpan.second)) == 95.0
  {
  }

  /** `getZAxisOverlapRangeBarrelEndcap`: a barrel and an endcap cluster shadow each other
      when the endcap cluster reaches out beyond the barrel cluster's inner edge and lies
      wholly to one side of it in z; the bound towards the barrel is open when the endcap
      cluster also reaches in below the barrel cluster's outer edge. */
  function OverlapRangeBarrelEndcap(bar: ClusterSpan, end: ClusterSpan): (r: Option<Range>)
    ensures r.Some? <==> end.rSpan.second > bar.rSpan.first
                         && (end.zSpan.second < bar.zSpan.first || end.zSpan.first > bar.zSpan.second)
    ensures r.Some? && end.zSpan.second < bar.zSpan.first ==>
              r.value.lower.Fin? && (r.value.upper == PosInf <==> end.rSpan.first <= bar.rSpan.second)
    ensures r.Some? && !(end.zSpan.second < bar.zSpan.first) ==>
              r.value.upper.Fin? && (r.value.lower == NegInf <==> end.rSpan.first <= bar.rSpan.second)
  {
    if end.rSpan.second > bar.rSpan.first then
      if end.zSpan.second < bar.zSpan.first then
        var lower := ZAxisIntersection(Point(end.zSpan.second, end.rSpan.second), Point(bar.zSpan.first, bar.rSpan.first));
        var upper := if end.rSpan.first > bar.rSpan.second
                     then Fin(ZAxisIntersection(Point(end.zSpan.first, end.rSpan.first), Point(bar.zSpan.second, bar.rSpan.second)))
                     else PosInf;
        Some(Range(Fin(lower), upper))
      else if end.zSpan.first > bar.zSpan.second then
        var upper := ZAxisIntersection(Point(end.zSpan.first, end.rSpan.second), Point(bar.zSpan.second, bar.rSpan.first));
        var lower := if end.rSpan.first > bar.rSpan.second
                     then Fin(ZAxisIntersection(Point(end.zSpan.second, end.rSpan.first), Point(bar.zSpan.first, bar.rSpan.second)))
                     else NegInf;
        Some(Range(lower, Fin(upper)))
      else None
    else None
  }

  // ---------------------------------------------------------------- grouping

  /** `-zAxisThreshold <= range.second && range.first <= zAxisThreshold`, with the
      threshold a float that may be infinite. */
  predicate WithinThreshold(threshold: Ext, range: Range) {
    Le(Neg(threshold), range.upper) && Le(range.lower, threshold)
  }

  /** The default argument of `overlappingSpans`, `numeric_limits<float>::infinity()`,
      which the analyzer's only call uses. */
  const DefaultZAxisThreshold: Ext := PosInf

  /** At the default threshold every range passes the threshold test. */
  lemma DefaultThresholdAdmitsAll(range: Range)
    ensures WithinThreshold(DefaultZAxisThreshold, range)
    ensures WithinThreshold(Fin(0.0), range) <==> Le(range.lower, Fin(0.0)) && Le(Fin(0.0), range.upper)
  {
  }

  /** The range test of one pass: the barrel test in the barrel pass, the endcap test in
      the endcap pass. */
  function PassRange(barrel: bool, a: ClusterSpan, b: ClusterSpan): Option<Range>
    requires ROrdered(a) && ROrdered(b)
  {
    if barrel then OverlapRangeBarrel(a, b) else OverlapRangeEndcap(a, b)
  }

  /** `b` joins the group anchored at `a`: the phi spans overlap, the range test succeeds,
      and the range comes within the threshold of z = 0. */
  predicate Partner(barrel: bool, threshold: Ext, a: ClusterSpan, b: ClusterSpan)
    requires ROrdered(a) && ROrdered(b)
  {
    && PhiSpansOverlap(a.phiSpan, b.phiSpan)
    && PassRange(barrel, a, b).Some?
    && WithinThreshold(threshold, PassRange(barrel, a, b).value)
  }

  /** At the default threshold a later span is a partner exactly when the phi spans
      overlap and the range test of the pass succeeds. */
  lemma PartnerAtDefaultThreshold(barrel: bool, a: ClusterSpan, b: ClusterSpan)
    requires ROrdered(a) && ROrdered(b)
    ensures Partner(barrel, DefaultZAxisThreshold, a, b)
            <==> PhiSpansOverlap(a.phiSpan, b.phiSpan) && PassRange(barrel, a, b).Some?
  {
    if PassRange(barrel, a, b).Some? {
      DefaultThresholdAdmitsAll(PassRange(barrel, a, b).value);
    }
  }

  /** The r span is strictly ordered; this is all the range functions need to keep
      their divisions away from zero. */
  predicate ROrdered(s: ClusterSpan) {
    s.rSpan.first < s.rSpan.second
  }

  predicate AllROrdered(spans: seq<ClusterSpan>) {
    forall k :: 0 <= k < |spans| ==> ROrdered(spans[k])
  }

  /** Every span has positive z and r extent, as `clusterSpans` produces them. */
  predicate AllOk(spans: seq<ClusterSpan>) {
    forall k :: 0 <= k < |spans| ==> SpanOk(spans[k])
  }

  /** The partners of `spans[i]` among `spans[i+1..j]`, in order. */
  function PartnersUpTo(barrel: bool, threshold: Ext, spans: seq<ClusterSpan>, i: nat, j: nat): (p: seq<ClusterSpan>)
    requires AllROrdered(spans) && i < j <= |spans|
    ensures forall x :: x in p <==>
              exists k :: i < k < j && spans[k] == x && Partner(barrel, threshold, spans[i], spans[k])
    decreases j
  {
    if j == i + 1 then []
    else
      var p := PartnersUpTo(barrel, threshold, spans, i, j - 1);
      if Partner(barrel, threshold, spans[i], spans[j - 1]) then p + [spans[j - 1]] else p
  }

  /** The group the inner loop has built for anchor `i` after the entries before `j`:
      empty while no partner is found, otherwise the anchor followed by its partners. */
  function GroupUpTo(barrel: bool, threshold: Ext, spans: seq<ClusterSpan>, i: nat, j: nat): seq<ClusterSpan>
    requires AllROrdered(spans) && i < j <= |spans|
  {
    var p := PartnersUpTo(barrel, threshold, spans, i, j);
    if p == [] then [] else [spans[i]] + p
  }

  /** The groups of one pass after the anchors before `n`. */
  function GroupsUpTo(barrel: bool, threshold: Ext, spans: seq<ClusterSpan>, n: nat): seq<seq<ClusterSpan>>
    requires AllROrdered(spans) && n <= |spans|
  {
    if n == 0 then []
    else
      var g := GroupUpTo(barrel, threshold, spans, n - 1, |spans|);
      GroupsUpTo(barrel, threshold, spans, n - 1) + (if g == [] then [] else [g])
  }

  /** One step of the inner loop: the group grows by `spans[j]` exactly when it is a
      partner, starting with the anchor if it was still empty. */
  lemma GroupUpToStep(barrel: bool, threshold: Ext, spans: seq<ClusterSpan>, i: nat, j: nat)
    requires AllROrdered(spans) && i < j < |spans|
    ensures var g := GroupUpTo(barrel, threshold, spans, i, j);
            GroupUpTo(barrel, threshold, spans, i, j + 1)
            == if Partner(barrel, threshold, spans[i], spans[j])
               then (if g == [] then [spans[i]] else g) + [spans[j]]
               else g
  {
  }

  /** The inner loop of one pass: scans the spans after `spans[i]` and collects the
      group anchored there. */
  method AnchorGroup(barrel: bool, threshold: Ext, spans: seq<ClusterSpan>, i: nat)
    returns (overlapSpans: seq<ClusterSpan>)
    requires AllROrdered(spans) && i < |spans|
    ensures overlapSpans == GroupUpTo(barrel, threshold, spans, i, |spans|)
  {
    overlapSpans := [];
    for j := i + 1 to |spans|
      invariant overlapSpans == GroupUpTo(barrel, threshold, spans, i, j)
    {
      var comp := spans[j];
      GroupUpToStep(barrel, threshold, spans, i, j);
      if PhiSpansOverlap(spans[i].phiSpan, comp.phiSpan) {
        var range := if barrel then OverlapRangeBarrel(spans[i], comp) else OverlapRangeEndcap(spans[i], comp);
        if range.Some? {
          if Le(Neg(threshold), range.value.upper) && Le(range.value.lower, threshold) {
            if overlapSpans == [] {
              overlapSpans := overlapSpans + [spans[i]];
            }
            overlapSpans := overlapSpans + [comp];
          }
        }
      }
    }
  }

  /** One pass of `overlappingSpans`: every span anchors a group of the later spans that
      are its partners; groups without partners are dropped. */
  method OverlappingPass(barrel: bool, threshold: Ext, spans: seq<ClusterSpan>) returns (groups: seq<seq<ClusterSpan>>)
    requires AllROrdered(spans)
    ensures groups == GroupsUpTo(barrel, threshold, spans, |spans|)
  {
    groups := [];
    for i := 0 to |spans|
      invariant groups == GroupsUpTo(barrel, threshold, spans, i)
    {
      var overlapSpans := AnchorGroup(barrel, threshold, spans, i);
      if overlapSpans != [] {
        groups := groups + [overlapSpans];
      }
    }
  }

  /** `g` is the group anchored at `spans[i]`: the anchor, then its partners among the
      later spans, at least one of them. */
  predicate AnchoredAt(barrel: bool, threshold: Ext, spans: seq<ClusterSpan>, i: nat, g: seq<ClusterSpan>)
    requires AllROrdered(spans) && i < |spans|
  {
    |g| >= 2 && g[0] == spans[i] && g[1..] == PartnersUpTo(barrel, threshold, spans, i, |spans|)
  }

  /** At the default threshold the partners of an anchor are exactly the later spans that
      overlap it in phi and get a range from the pass's range test. */
  lemma PartnersAtDefaultThreshold(barrel: bool, spans: seq<ClusterSpan>, i: nat)
    requires AllROrdered(spans) && i < |spans|
    ensures forall x :: x in PartnersUpTo(barrel, DefaultZAxisThreshold, spans, i, |spans|) <==>
              exists k :: i < k < |spans| && spans[k] == x
                          && PhiSpansOverlap(spans[i].phiSpan, spans[k].phiSpan)
                          && PassRange(barrel, spans[i], spans[k]).Some?
  {
    forall k | i < k < |spans| {
      PartnerAtDefaultThreshold(barrel, spans[i], spans[k]);
    }
  }

  /** Every group of a pass is anchored at one of the spans; with the contract of
      `PartnersUpTo` its members after the first are exactly the later partners of the
      anchor. */
  lemma {:induction false} GroupsShape(barrel: bool, threshold: Ext, spans: seq<ClusterSpan>, n: nat, g: seq<ClusterSpan>)
    requires AllROrdered(spans) && n <= |spans|
    requires g in GroupsUpTo(barrel, threshold, spans, n)
    ensures exists i :: 0 <= i < n && AnchoredAt(barrel, threshold, spans, i, g)
  {
    if n > 0 {
      if g in GroupsUpTo(barrel, threshold, spans, n - 1) {
        GroupsShape(barrel, threshold, spans, n - 1, g);
      } else {
        var p := PartnersUpTo(barrel, threshold, spans, n - 1, |spans|);
        assert g == [spans[n - 1]] + p;
        assert g[1..] == p;
        assert AnchoredAt(barrel, threshold, spans, n - 1, g);
      }
    }
  }

  /** Every partner pair is reported: the group of the earlier span exists and holds the
      later one. */
  lemma PartnersReported(barrel: bool, threshold: Ext, spans: seq<ClusterSpan>, i: nat, k: nat)
    requires AllROrdered(spans) && i < k < |spans|
    requires Partner(barrel, threshold, spans[i], spans[k])
    ensures var g := GroupUpTo(barrel, threshold, spans, i, |spans|);
            g != [] && g in GroupsUpTo(barrel, threshold, spans, |spans|) && g[0] == spans[i] && spans[k] in g
  {
    var g := GroupUpTo(barrel, threshold, spans, i, |spans|);
    assert spans[k] in PartnersUpTo(barrel, threshold, spans, i, |spans|);
    GroupStays(barrel, threshold, spans, i, |spans|, g);
  }

  /** A group present after the anchors before `n` stays present. */
  lemma {:induction false} GroupStays(barrel: bool, threshold: Ext, spans: seq<ClusterSpan>, i: nat, n: nat,
                                      g: seq<ClusterSpan>)
    requires AllROrdered(spans) && i < n <= |spans|
    requires g == GroupUpTo(barrel, threshold, spans, i, |spans|) && g != []
    ensures g in GroupsUpTo(barrel, threshold, spans, n)
    decreases n
  {
    if n == i + 1 {
      assert GroupsUpTo(barrel, threshold, spans, n)
             == GroupsUpTo(barrel, threshold, spans, i) + [g];
    } else {
      GroupStays(barrel, threshold, spans, i, n - 1, g);
      var earlier := GroupsUpTo(barrel, threshold, spans, n - 1);
      var h := GroupUpTo(barrel, threshold, spans, n - 1, |spans|);
      assert GroupsUpTo(barrel, threshold, spans, n) == earlier + (if h == [] then [] else [h]);
    }
  }

  /** Every span of a group is one of the spans of the pass. */
  lemma GroupMembersFromPass(barrel: bool, threshold: Ext, spans: seq<ClusterSpan>, g: seq<ClusterSpan>)
    requires AllROrdered(spans) && g in GroupsUpTo(barrel, threshold, spans, |spans|)
    ensures forall x :: x in g ==> x in spans
  {
    GroupsShape(barrel, threshold, spans, |spans|, g);
    var i :| 0 <= i < |spans| && AnchoredAt(barrel, threshold, spans, i, g);
    forall x | x in g ensures x in spans {
      if x != g[0] {
        assert x in g[1..];
      }
    }
  }

  /** All spans of a group belong to one sub-detector. */
  ghost predicate OneSubdet(groups: seq<seq<ClusterSpan>>, subdet: int) {
    forall i, x: ClusterSpan :: 0 <= i < |groups| && x in groups[i] ==> x.subdetId == subdet
  }

  /** Groups of two or more spans, all of one sub-detector. */
  ghost predicate GroupsOf(groups: seq<seq<ClusterSpan>>, subdet: int) {
    && OneSubdet(groups, subdet)
    && forall i :: 0 <= i < |groups| ==> |groups[i]| >= 2 && forall x :: x in groups[i] ==> SpanOk(x)
  }

  /** A pass over spans of one sub-detector yields groups of two or more spans of that
      sub-detector. */
  lemma PassOneSubdet(barrel: bool, threshold: Ext, spans: seq<ClusterSpan>, subdet: int)
    requires AllOk(spans) && forall k :: 0 <= k < |spans| ==> spans[k].subdetId == subdet
    ensures GroupsOf(GroupsUpTo(barrel, threshold, spans, |spans|), subdet)
  {
    var groups := GroupsUpTo(barrel, threshold, spans, |spans|);
    forall i | 0 <= i < |groups|
      ensures |groups[i]| >= 2 && forall x: ClusterSpan :: x in groups[i] ==> x.subdetId == subdet && SpanOk(x)
    {
      GroupMembersFromPass(barrel, threshold, spans, groups[i]);
      GroupsShape(barrel, threshold, spans, |spans|, groups[i]);
    }
  }

  /** `overlappingSpans(zAxisThreshold)`: computes the cluster spans, then runs the barrel
      pass and the endcap pass and concatenates their groups. Barrel clusters are never
      compared with endcap clusters, so no group mixes the two. */
  method OverlappingSpans(trig: Trig, cat: Catalog, bar: seq<nat>, end: seq<nat>, threshold: Ext)
    returns (groups: seq<seq<ClusterSpan>>,
             ghost barSpans: seq<ClusterSpan>, ghost endSpans: seq<ClusterSpan>,
             ghost barClusters: seq<seq<nat>>, ghost endClusters: seq<seq<nat>>)
    requires WellFormed(cat) && BadListsValid(cat, bar, end)
    ensures forall x :: x in bar <==> InSome(barClusters, x)
    ensures forall x :: x in end <==> InSome(endClusters, x)
    ensures NonEmpty(barClusters) && Disjoint(barClusters) && SeedsOrdered(barClusters)
    ensures NonEmpty(endClusters) && Disjoint(endClusters) && SeedsOrdered(endClusters)
    ensures forall i :: 0 <= i < |barClusters| ==>
              ClusterShape(x => Neighbours(cat, bar, end, x), barClusters[i])
    ensures forall i :: 0 <= i < |endClusters| ==>
              ClusterShape(x => Neighbours(cat, bar, end, x), endClusters[i])
    ensures |barSpans| == |barClusters| && |endSpans| == |endClusters|
    ensures forall i :: 0 <= i < |barSpans| ==> BarrelSpanOf(cat, barClusters[i], barSpans[i])
    ensures forall i :: 0 <= i < |endSpans| ==> EndcapSpanOf(trig, cat, endClusters[i], endSpans[i])
    ensures AllOk(barSpans) && AllOk(endSpans)
    ensures groups == GroupsUpTo(true, threshold, barSpans, |barSpans|)
                      + GroupsUpTo(false, threshold, endSpans, |endSpans|)
    ensures OneSubdet(groups[..|GroupsUpTo(true, threshold, barSpans, |barSpans|)|], PixelBarrel)
    ensures OneSubdet(groups[|GroupsUpTo(true, threshold, barSpans, |barSpans|)|..], PixelEndcap)
    ensures forall k :: 0 <= k < |groups| ==>
              |groups[k]| >= 2 && (groups[k][0].subdetId == PixelBarrel || groups[k][0].subdetId == PixelEndcap)
    ensures forall k, x: ClusterSpan :: 0 <= k < |groups| && x in groups[k] ==> x.subdetId == groups[k][0].subdetId && SpanOk(x)
    ensures forall k, k' :: 0 <= k < k' < |groups| && groups[k][0].subdetId == PixelEndcap ==>
              groups[k'][0].subdetId == PixelEndcap
  {
    var cspansBar, cspansEnd;
    cspansBar, cspansEnd, barClusters, endClusters := ClusterSpans(trig, cat, bar, end);
    barSpans, endSpans := cspansBar, cspansEnd;
    var barGroups := OverlappingPass(true, threshold, cspansBar);
    var endGroups := OverlappingPass(false, threshold, cspansEnd);
    groups := barGroups + endGroups;
    PassOneSubdet(true, threshold, cspansBar, PixelBarrel);
    PassOneSubdet(false, threshold, cspansEnd, PixelEndcap);
    assert groups[..|barGroups|] == barGroups;
    assert groups[|barGroups|..] == endGroups;
    BarrelThenEndcap(barGroups, endGroups);
  }

  /** Barrel groups followed by endcap groups: each group keeps to the sub-detector of its
      first span, and no barrel group follows an endcap group. */
  lemma BarrelThenEndcap(barGroups: seq<seq<ClusterSpan>>, endGroups: seq<seq<ClusterSpan>>)
    requires GroupsOf(barGroups, PixelBarrel) && GroupsOf(endGroups, PixelEndcap)
    ensures var groups := barGroups + endGroups;
      && (forall k :: 0 <= k < |groups| ==>
            |groups[k]| >= 2 && (groups[k][0].subdetId == PixelBarrel || groups[k][0].subdetId == PixelEndcap))
      && (forall k, x: ClusterSpan :: 0 <= k < |groups| && x in groups[k] ==>
            x.subdetId == groups[k][0].subdetId && SpanOk(x))
      && (forall k, k' :: 0 <= k < k' < |groups| && groups[k][0].subdetId == PixelEndcap ==>
            groups[k'][0].subdetId == PixelEndcap)
  {
    var groups := barGroups + endGroups;
    forall k | 0 <= k < |groups|
      ensures |groups[k]| >= 2 && forall x: ClusterSpan :: x in groups[k] ==> SpanOk(x)
      ensures forall x: ClusterSpan :: x in groups[k] ==>
                x.subdetId == (if k < |barGroups| then PixelBarrel else PixelEndcap)
    {
      if k < |barGroups| {
        assert groups[k] == barGroups[k];
      } else {
        assert groups[k] == endGroups[k - |barGroups|];
      }
    }
  }
}
