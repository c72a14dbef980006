/** Reducing a cluster of flagged modules to its phi, z and r bounding intervals
    (`getPhiSpanBarrel`, `getPhiSpanEndcap`, `getZSpan`, `getRSpan`, `getSpan`). */
module Spans {
  import opened Geometry
  import opened SortedSets
  import opened PhiOverlap

  /** `phiMoreClockwise(phiA, phiB)`: compares the unit vectors of the two angles inside
      a half plane holding both; false when no such half plane is found. */
  predicate PhiMoreClockwise(trig: Trig, phiA: real, phiB: real) {
    var xa, ya, xb, yb := trig.cos(phiA), trig.sin(phiA), trig.cos(phiB), trig.sin(phiB);
    if xa >= 0.0 && xb >= 0.0 then ya <= yb
    else if ya >= 0.0 && yb >= 0.0 then xa >= xb
    else if xa <= 0.0 && xb <= 0.0 then ya >= yb
    else if ya <= 0.0 && yb <= 0.0 then xa <= xb
    else false
  }

  /** `phiMoreCounterclockwise(phiA, phiB)`, the same case split with every comparison turned. */
  predicate PhiMoreCounterclockwise(trig: Trig, phiA: real, phiB: real) {
    var xa, ya, xb, yb := trig.cos(phiA), trig.sin(phiA), trig.cos(phiB), trig.sin(phiB);
    if xa >= 0.0 && xb >= 0.0 then ya >= yb
    else if ya >= 0.0 && yb >= 0.0 then xa <= xb
    else if xa <= 0.0 && xb <= 0.0 then ya <= yb
    else if ya <= 0.0 && yb <= 0.0 then xa >= xb
    else false
  }

  /** "a is more counterclockwise than b" is "b is more clockwise than a", whatever
      cos and sin are. */
  lemma CounterclockwiseIsConverse(trig: Trig, a: real, b: real)
    ensures PhiMoreCounterclockwise(trig, a, b) == PhiMoreClockwise(trig, b, a)
  {
  }

  /** Both comparisons are non-strict: every angle passes against itself. */
  lemma PhiComparisonsReflexive(trig: Trig, a: real)
    ensures PhiMoreClockwise(trig, a, a) && PhiMoreCounterclockwise(trig, a, a)
  {
  }

  // ---------------------------------------------------------------- barrel phi span

  predicate InU32(s: seq<nat>) {
    forall k :: 0 <= k < |s| ==> s[k] < TwoTo32
  }

  /** The ladders of the members of `cluster`, as the `std::set<unsigned>` the source
      fills: ascending and without repeats. */
  function Ladders(cat: Catalog, cluster: seq<nat>): (r: seq<nat>)
    ensures StrictlySorted(r) && InU32(r)
    ensures forall l :: l in r <==> exists k :: 0 <= k < |cluster| && cat.det(cluster[k]).ladder == l
  {
    if cluster == [] then []
    else
      var init := cluster[..|cluster| - 1];
      var r := InsertSorted(Ladders(cat, init), cat.det(cluster[|cluster| - 1]).ladder);
      assert forall k :: 0 <= k < |init| ==> init[k] == cluster[k];
      assert forall k :: 0 <= k < |r| ==> r[k] < TwoTo32 by {
        forall k | 0 <= k < |r| ensures r[k] < TwoTo32 {
          assert r[k] in r;
        }
      }
      r
  }

  /** The loop filling the ladder set. */
  method LadderSet(cat: Catalog, cluster: seq<nat>) returns (lads: seq<nat>)
    ensures lads == Ladders(cat, cluster)
  {
    lads := [];
    for i := 0 to |cluster|
      invariant lads == Ladders(cat, cluster[..i])
    {
      assert cluster[..i + 1][..i] == cluster[..i];
      lads := InsertSorted(lads, cat.det(cluster[i]).ladder);
    }
    assert cluster[..|cluster|] == cluster;
  }

  /** `(size + i - 1) % size` for `0 <= i <= size`: the slot before `i`, cyclically. */
  function PrevSlot(i: nat, size: nat): nat
    requires 0 < size && i <= size
  {
    if i == 0 then size - 1 else i - 1
  }

  /** The test of the discontinuity loop at index `i`:
      `(nLadders + ladv[i] - 1) % nLadders == ladv[(size + i - 1) % size]` in unsigned
      arithmetic. */
  predicate Continues(ladv: seq<nat>, n: U32, i: nat)
    requires n > 0 && i < |ladv| && InU32(ladv)
  {
    UMod(Sub32(Add32(n, ladv[i]), 1), n) == ladv[PrevSlot(i, |ladv|)]
  }

  /** The first index from `i` on where the test fails, if there is one. */
  function FirstBreak(ladv: seq<nat>, n: U32, i: nat): (r: Option<nat>)
    requires n > 0 && i <= |ladv| && InU32(ladv)
    ensures r.Some? ==> i <= r.value < |ladv| && !Continues(ladv, n, r.value)
    ensures forall j :: i <= j < |ladv| && (r.None? || j < r.value) ==> Continues(ladv, n, j)
    decreases |ladv| - i
  {
    if i == |ladv| then None
    else if !Continues(ladv, n, i) then Some(i)
    else FirstBreak(ladv, n, i + 1)
  }

  /** The barrel phi span of a ladder vector: from the start of ladder `ladv[i]` (module 1)
      to the end of ladder `ladv[i-1]`, cyclically, for the first discontinuity `i`; the
      sentinel when there is none. */
  function BarrelPhi(cat: Catalog, layer: U32, ladv: seq<nat>): Span
    requires NLadders(layer) > 0 && InU32(ladv)
  {
    match FirstBreak(ladv, NLadders(layer), 0)
    case None => SentinelSpan
    case Some(i) =>
      Span(cat.det(cat.pxbDetId(layer, ladv[i], 1)).phi.first,
           cat.det(cat.pxbDetId(layer, ladv[PrevSlot(i, |ladv|)], 1)).phi.second)
  }

  /** `getPhiSpanBarrel`: an empty cluster gets the default span; otherwise the layer of
      the first member is recorded with disk 0 and the phi span is taken at the first
      discontinuity of the sorted ladder set. */
  method GetPhiSpanBarrel(cat: Catalog, cluster: seq<nat>, cspan: ClusterSpan) returns (cspan': ClusterSpan)
    requires |cluster| > 0 ==> NLadders(cat.det(cluster[0]).layer) > 0
    ensures |cluster| == 0 ==> cspan' == DefaultClusterSpan
    ensures |cluster| > 0 ==>
      var layer := cat.det(cluster[0]).layer;
      cspan' == cspan.(layer := layer, disk := 0, phiSpan := BarrelPhi(cat, layer, Ladders(cat, cluster)))
  {
    if |cluster| == 0 {
      return DefaultClusterSpan;
    }
    cspan' := cspan.(layer := cat.det(cluster[0]).layer, disk := 0);
    var ladv := LadderSet(cat, cluster);
    assert cat.det(cluster[0]).ladder in ladv;
    var nLadders := NLadders(cspan'.layer);
    var i: nat := 0;
    var currentLadder: U32 := ladv[0];
    var previousLadder: U32 := ladv[|ladv| - 1];
    while UMod(Sub32(Add32(nLadders, currentLadder), 1), nLadders) == previousLadder
      invariant i < |ladv|
      invariant currentLadder == ladv[i] && previousLadder == ladv[PrevSlot(i, |ladv|)]
      invariant FirstBreak(ladv, nLadders, 0) == FirstBreak(ladv, nLadders, i)
      decreases |ladv| - i
    {
      i := i + 1;
      currentLadder := ladv[if i == |ladv| then 0 else i];
      previousLadder := ladv[i - 1];
      if i == |ladv| {
        cspan' := cspan'.(phiSpan := SentinelSpan);
        return;
      }
    }
    var startLadder, endLadder := currentLadder, previousLadder;
    var detStart := cat.pxbDetId(cspan'.layer, startLadder, 1);
    var detEnd := cat.pxbDetId(cspan'.layer, endLadder, 1);
    cspan' := cspan'.(phiSpan := Span(cat.det(detStart).phi.first, cat.det(detEnd).phi.second));
  }

  /** Every member is a barrel module on the layer of the first member. */
  ghost predicate OneBarrelLayer(cat: Catalog, cluster: seq<nat>) {
    forall k :: 0 <= k < |cluster| ==>
      cat.det(cluster[k]).subdet == PixelBarrel && cat.det(cluster[k]).layer == cat.det(cluster[0]).layer
  }

  /** `(n + l - 1) % n` in unsigned arithmetic is `l - 1` for a ladder `l` in 1..n. */
  lemma RingPrevValue(l: U32, n: U32)
    requires 1 <= l <= n <= NLayer4Ladders
    ensures UMod(Sub32(Add32(n, l), 1), n) == l - 1
  {
    assert Add32(n, l) == n + l;
    assert Sub32(n + l, 1) == n + l - 1;
    assert UMod(n + l - 1, n) == UMod(l - 1, n);
  }

  /** The ladder set holds the ladder of the first member; its ends are the least and the
      greatest ladder of the cluster. */
  lemma LadderSetEnds(cat: Catalog, cluster: seq<nat>)
    requires |cluster| > 0
    ensures var ladv := Ladders(cat, cluster);
            && |ladv| > 0
            && (forall k :: 0 <= k < |cluster| ==> ladv[0] <= cat.det(cluster[k]).ladder <= ladv[|ladv| - 1])
            && (exists k :: 0 <= k < |cluster| && cat.det(cluster[k]).ladder == ladv[0])
            && (exists k :: 0 <= k < |cluster| && cat.det(cluster[k]).ladder == ladv[|ladv| - 1])
  {
    var ladv := Ladders(cat, cluster);
    assert cat.det(cluster[0]).ladder in ladv;
    assert ladv[0] in ladv && ladv[|ladv| - 1] in ladv;
    forall k | 0 <= k < |cluster| ensures ladv[0] <= cat.det(cluster[k]).ladder <= ladv[|ladv| - 1] {
      assert cat.det(cluster[k]).ladder in ladv;
      SortedEnds(ladv, cat.det(cluster[k]).ladder);
    }
  }

  /** The least ladder of a non-empty cluster. */
  function MinLadder(cat: Catalog, cluster: seq<nat>): (l: nat)
    requires |cluster| > 0
    ensures forall k :: 0 <= k < |cluster| ==> l <= cat.det(cluster[k]).ladder
    ensures exists k :: 0 <= k < |cluster| && cat.det(cluster[k]).ladder == l
  {
    LadderSetEnds(cat, cluster);
    Ladders(cat, cluster)[0]
  }

  /** The greatest ladder of a non-empty cluster. */
  function MaxLadder(cat: Catalog, cluster: seq<nat>): (l: nat)
    requires |cluster| > 0
    ensures forall k :: 0 <= k < |cluster| ==> cat.det(cluster[k]).ladder <= l
    ensures exists k :: 0 <= k < |cluster| && cat.det(cluster[k]).ladder == l
  {
    LadderSetEnds(cat, cluster);
    var ladv := Ladders(cat, cluster);
    ladv[|ladv| - 1]
  }

  /** On a real detector, with ladders numbered from 1, the discontinuity test fails at
      once: the loop never iterates, the sentinel is never written, and the span runs
      from the start of the least ladder of the cluster to the end of the greatest. */
  lemma BarrelPhiFromExtremeLadders(cat: Catalog, cluster: seq<nat>)
    requires WellFormed(cat) && |cluster| > 0 && OneBarrelLayer(cat, cluster)
    ensures var layer := cat.det(cluster[0]).layer;
            && NLadders(layer) > 0
            && FirstBreak(Ladders(cat, cluster), NLadders(layer), 0) == Some(0)
            && BarrelPhi(cat, layer, Ladders(cat, cluster))
               == Span(cat.det(cat.pxbDetId(layer, MinLadder(cat, cluster), 1)).phi.first,
                       cat.det(cat.pxbDetId(layer, MaxLadder(cat, cluster), 1)).phi.second)
  {
    var d := cat.det(cluster[0]);
    var n := NLadders(d.layer);
    assert ValidBarrelCoords(d.layer, d.ladder, d.moduleNum);
    var ladv := Ladders(cat, cluster);
    LadderSetEnds(cat, cluster);
    var k0 :| 0 <= k0 < |cluster| && cat.det(cluster[k0]).ladder == ladv[0];
    assert ValidBarrelCoords(cat.det(cluster[k0]).layer, ladv[0], cat.det(cluster[k0]).moduleNum);
    RingPrevValue(ladv[0], n);
    assert !Continues(ladv, n, 0);
  }

  // ---------------------------------------------------------------- endcap phi span

  /** The phi intervals of the members, in cluster order. */
  function PhisOf(cat: Catalog, cluster: seq<nat>): (r: seq<Span>)
    ensures |r| == |cluster|
    ensures forall k :: 0 <= k < |cluster| ==> r[k] == cat.det(cluster[k]).phi
  {
    seq(|cluster|, k requires 0 <= k < |cluster| => cat.det(cluster[k]).phi)
  }

  /** The test that moves the walk from `from` to `to`: the ranges overlap and `to`
      reaches further clockwise (by its start) or counterclockwise (by its end). */
  predicate Moves(trig: Trig, clockwise: bool, from: Span, to: Span) {
    && PhiSpansOverlap(from, to)
    && (if clockwise then PhiMoreClockwise(trig, to.first, from.first)
        else PhiMoreCounterclockwise(trig, to.second, from.second))
  }

  /** The first member from index `c` on, other than `s` itself, that the walk moves to
      from `s`. */
  function FirstMove(trig: Trig, clockwise: bool, phis: seq<Span>, s: nat, c: nat): (r: Option<nat>)
    requires s < |phis| && c <= |phis|
    ensures r.Some? ==> c <= r.value < |phis| && r.value != s && Moves(trig, clockwise, phis[s], phis[r.value])
    ensures forall j :: c <= j < |phis| && j != s && (r.None? || j < r.value) ==>
              !Moves(trig, clockwise, phis[s], phis[j])
    decreases |phis| - c
  {
    if c == |phis| then None
    else if Moves(trig, clockwise, phis[s], phis[c]) && c != s then Some(c)
    else FirstMove(trig, clockwise, phis, s, c + 1)
  }

  /** The walk from member `s` after `counter` moves: the member it stops at, or None once
      a move would take the counter past the cluster size. */
  function Walk(trig: Trig, clockwise: bool, phis: seq<Span>, s: nat, counter: nat): (r: Option<nat>)
    requires s < |phis| && counter <= |phis|
    ensures r.Some? ==> r.value < |phis|
    ensures r.Some? ==> forall j :: 0 <= j < |phis| && j != r.value ==>
              !Moves(trig, clockwise, phis[r.value], phis[j])
    decreases |phis| - counter
  {
    match FirstMove(trig, clockwise, phis, s, 0)
    case None => Some(s)
    case Some(m) => if counter + 1 > |phis| then None else Walk(trig, clockwise, phis, m, counter + 1)
  }

  /** The inner `for` loop of a walk: scans the cluster from the beginning for the first
      member the walk moves to. */
  method FindMove(trig: Trig, clockwise: bool, phis: seq<Span>, s: nat) returns (m: Option<nat>)
    requires s < |phis|
    ensures m == FirstMove(trig, clockwise, phis, s, 0)
  {
    var c := 0;
    while c < |phis|
      invariant c <= |phis|
      invariant FirstMove(trig, clockwise, phis, s, 0) == FirstMove(trig, clockwise, phis, s, c)
    {
      if Moves(trig, clockwise, phis[s], phis[c]) && c != s {
        return Some(c);
      }
      c := c + 1;
    }
    return None;
  }

  /** One walk of `getPhiSpanEndcap`: starting from the first member, keep moving to the
      first member found further round; stop when none is, or give up (None) when the
      move counter exceeds the cluster size. */
  method WalkBoundary(trig: Trig, clockwise: bool, phis: seq<Span>) returns (r: Option<nat>)
    requires |phis| > 0
    ensures r == Walk(trig, clockwise, phis, 0, 0)
  {
    var found := false;
    var s: nat := 0;
    var counter: nat := 0;
    while !found
      invariant s < |phis| && counter <= |phis|
      invariant Walk(trig, clockwise, phis, 0, 0) == Walk(trig, clockwise, phis, s, counter)
      invariant found ==> FirstMove(trig, clockwise, phis, s, 0).None?
      decreases |phis| + 1 - counter, if found then 0 else 1
    {
      var m := FindMove(trig, clockwise, phis, s);
      if m.Some? {
        counter := counter + 1;
        if counter > |phis| {
          return None;
        }
        s := m.value;
      } else {
        found := true;
      }
    }
    return Some(s);
  }

  /** The endcap phi span: the start of the clockwise boundary to the end of the
      counterclockwise boundary, or the sentinel when either walk gives up. */
  function EndcapPhi(trig: Trig, phis: seq<Span>): Span
    requires |phis| > 0
  {
    match Walk(trig, true, phis, 0, 0)
    case None => SentinelSpan
    case Some(a) =>
      match Walk(trig, false, phis, 0, 0)
      case None => SentinelSpan
      case Some(b) => Span(phis[a].first, phis[b].second)
  }

  /** `getPhiSpanEndcap` on a non-empty cluster; only the phi span changes. */
  method GetPhiSpanEndcap(trig: Trig, cat: Catalog, cluster: seq<nat>, cspan: ClusterSpan)
    returns (cspan': ClusterSpan)
    requires |cluster| > 0
    ensures cspan' == cspan.(phiSpan := EndcapPhi(trig, PhisOf(cat, cluster)))
  {
    var phis := PhisOf(cat, cluster);
    var startDet := WalkBoundary(trig, true, phis);
    if startDet.None? {
      return cspan.(phiSpan := SentinelSpan);
    }
    var first := phis[startDet.value].first;
    var endDet := WalkBoundary(trig, false, phis);
    if endDet.None? {
      return cspan.(phiSpan := SentinelSpan);
    }
    cspan' := cspan.(phiSpan := Span(first, phis[endDet.value].second));
  }

  /** The endcap phi span is the sentinel, or runs from the start of some member to the
      end of some member such that no other member overlaps the first and lies further
      clockwise, nor overlaps the second and lies further counterclockwise. */
  lemma EndcapPhiFromBoundaries(trig: Trig, phis: seq<Span>)
    requires |phis| > 0
    ensures || EndcapPhi(trig, phis) == SentinelSpan
            || exists a, b :: 0 <= a < |phis| && 0 <= b < |phis|
                 && EndcapPhi(trig, phis) == Span(phis[a].first, phis[b].second)
                 && (forall j :: 0 <= j < |phis| && j != a ==> !Moves(trig, true, phis[a], phis[j]))
                 && (forall j :: 0 <= j < |phis| && j != b ==> !Moves(trig, false, phis[b], phis[j]))
  {
    var wa := Walk(trig, true, phis, 0, 0);
    var wb := Walk(trig, false, phis, 0, 0);
    if wa.Some? && wb.Some? {
      var a, b := wa.value, wb.value;
      assert EndcapPhi(trig, phis) == Span(phis[a].first, phis[b].second);
    }
  }

  /** A one-member cluster spans exactly that member's phi interval. */
  lemma SingleEndcapPhi(trig: Trig, p: Span)
    ensures EndcapPhi(trig, [p]) == p
  {
    assert FirstMove(trig, true, [p], 0, 1).None?;
    assert FirstMove(trig, false, [p], 0, 1).None?;
  }

  /** Two overlapping members that start at the same phi each count as further clockwise
      than the other, so the clockwise walk moves back and forth between them until the
      move counter passes the cluster size, and the cluster gets the sentinel. */
  lemma {:induction false} TiedStartsGiveSentinel(trig: Trig, p: Span, q: Span)
    requires p.first == q.first && PhiSpansOverlap(p, q)
    ensures EndcapPhi(trig, [p, q]) == SentinelSpan
  {
    var phis := [p, q];
    PhiComparisonsReflexive(trig, p.first);
    PhiOverlapSymmetric(p, q);
    assert Moves(trig, true, p, q) && Moves(trig, true, q, p);
    assert FirstMove(trig, true, phis, 0, 0) == Some(1) by {
      assert FirstMove(trig, true, phis, 0, 1) == Some(1);
    }
    assert FirstMove(trig, true, phis, 1, 0) == Some(0);
    assert Walk(trig, true, phis, 0, 2) == None;
    assert Walk(trig, true, phis, 1, 1) == None;
    assert Walk(trig, true, phis, 0, 0) == None;
  }

  // ---------------------------------------------------------------- z and r spans

  function ZsOf(cat: Catalog, cluster: seq<nat>): (r: seq<Span>)
    ensures |r| == |cluster|
    ensures forall k :: 0 <= k < |cluster| ==> r[k] == cat.det(cluster[k]).z
  {
    seq(|cluster|, k requires 0 <= k < |cluster| => cat.det(cluster[k]).z)
  }

  function RsOf(cat: Catalog, cluster: seq<nat>): (r: seq<Span>)
    ensures |r| == |cluster|
    ensures forall k :: 0 <= k < |cluster| ==> r[k] == cat.det(cluster[k]).r
  {
    seq(|cluster|, k requires 0 <= k < |cluster| => cat.det(cluster[k]).r)
  }

  /** The element `std::minmax_element` reports as least when comparing starts: the
      first one with the least start. */
  function FirstMinIndex(s: seq<Span>): (i: nat)
    requires |s| > 0
    ensures i < |s|
    ensures forall k :: 0 <= k < |s| ==> s[i].first <= s[k].first
    ensures forall k :: 0 <= k < i ==> s[i].first < s[k].first
  {
    if |s| == 1 then 0
    else
      var i := FirstMinIndex(s[..|s| - 1]);
      assert forall k :: 0 <= k < |s| - 1 ==> s[..|s| - 1][k] == s[k];
      if s[|s| - 1].first < s[i].first then |s| - 1 else i
  }

  /** The element `std::minmax_element` reports as greatest: the last one with the
      greatest start. */
  function LastMaxIndex(s: seq<Span>): (i: nat)
    requires |s| > 0
    ensures i < |s|
    ensures forall k :: 0 <= k < |s| ==> s[k].first <= s[i].first
    ensures forall k :: i < k < |s| ==> s[k].first < s[i].first
  {
    if |s| == 1 then 0
    else
      var i := LastMaxIndex(s[..|s| - 1]);
      assert forall k :: 0 <= k < |s| - 1 ==> s[..|s| - 1][k] == s[k];
      if s[|s| - 1].first >= s[i].first then |s| - 1 else i
  }

  /** The span `getZSpan` / `getRSpan` writes: the start of the least element and the end
      of the greatest, both ordered by start. */
  function MinMaxSpan(s: seq<Span>): Span
    requires |s| > 0
  {
    Span(s[FirstMinIndex(s)].first, s[LastMaxIndex(s)].second)
  }

  /** The span starts at the least start, and ends at the end of the last interval with
      the greatest start (not at the greatest end). */
  lemma MinMaxSpanMeaning(s: seq<Span>)
    requires |s| > 0
    ensures forall k :: 0 <= k < |s| ==> MinMaxSpan(s).first <= s[k].first
    ensures exists k :: 0 <= k < |s| && MinMaxSpan(s).first == s[k].first
    ensures exists h :: 0 <= h < |s| && MinMaxSpan(s).second == s[h].second
               && (forall k :: 0 <= k < |s| ==> s[k].first <= s[h].first)
               && (forall k :: h < k < |s| ==> s[k].first < s[h].first)
  {
    var lo, hi := FirstMinIndex(s), LastMaxIndex(s);
    assert MinMaxSpan(s).first == s[lo].first;
    assert MinMaxSpan(s).second == s[hi].second;
  }

  /** When every interval is non-degenerate, so is the span. */
  lemma MinMaxSpanOrdered(s: seq<Span>)
    requires |s| > 0 && forall k :: 0 <= k < |s| ==> s[k].first < s[k].second
    ensures MinMaxSpan(s).first < MinMaxSpan(s).second
  {
    var lo, hi := FirstMinIndex(s), LastMaxIndex(s);
    assert s[lo].first <= s[hi].first < s[hi].second;
  }

  /** The end of the span is not the greatest end: here the interval with the later start
      ends first. */
  lemma MinMaxSpanNotGreatestEnd()
    ensures MinMaxSpan([Span(0.0, 10.0), Span(1.0, 2.0)]) == Span(0.0, 2.0)
  {
    var s := [Span(0.0, 10.0), Span(1.0, 2.0)];
    assert s[..1] == [Span(0.0, 10.0)];
    assert FirstMinIndex(s) == 0;
    assert LastMaxIndex(s) == 1;
  }

  /** `getZSpan` on a non-empty cluster; only the z span changes. */
  method GetZSpan(cat: Catalog, cluster: seq<nat>, cspan: ClusterSpan) returns (cspan': ClusterSpan)
    requires |cluster| > 0
    ensures cspan' == cspan.(zSpan := MinMaxSpan(ZsOf(cat, cluster)))
  {
    var zs := ZsOf(cat, cluster);
    var lo, hi := FirstMinIndex(zs), LastMaxIndex(zs);
    cspan' := cspan.(zSpan := Span(zs[lo].first, zs[hi].second));
  }

  /** `getRSpan` on a non-empty cluster; only the r span changes. */
  method GetRSpan(cat: Catalog, cluster: seq<nat>, cspan: ClusterSpan) returns (cspan': ClusterSpan)
    requires |cluster| > 0
    ensures cspan' == cspan.(rSpan := MinMaxSpan(RsOf(cat, cluster)))
  {
    var rs := RsOf(cat, cluster);
    var lo, hi := FirstMinIndex(rs), LastMaxIndex(rs);
    cspan' := cspan.(rSpan := Span(rs[lo].first, rs[hi].second));
  }

  // ---------------------------------------------------------------- whole cluster

  /** `getSpan`: nothing changes for an empty cluster. Otherwise the sub-detector of the
      first member is recorded; a barrel cluster gets its layer (disk 0) and barrel phi
      span, an endcap cluster its disk (layer 0) and endcap phi span, any other keeps its
      layer, disk and phi; then the z and r spans are filled in. */
  method GetSpan(trig: Trig, cat: Catalog, cluster: seq<nat>, cspan: ClusterSpan) returns (cspan': ClusterSpan)
    requires |cluster| > 0 && cat.det(cluster[0]).subdet == PixelBarrel ==> NLadders(cat.det(cluster[0]).layer) > 0
    ensures |cluster| == 0 ==> cspan' == cspan
    ensures |cluster| > 0 ==>
      var d := cat.det(cluster[0]);
      && cspan'.subdetId == d.subdet
      && cspan'.zSpan == MinMaxSpan(ZsOf(cat, cluster))
      && cspan'.rSpan == MinMaxSpan(RsOf(cat, cluster))
      && (d.subdet == PixelBarrel ==>
            cspan'.layer == d.layer && cspan'.disk == 0
            && cspan'.phiSpan == BarrelPhi(cat, d.layer, Ladders(cat, cluster)))
      && (d.subdet == PixelEndcap ==>
            cspan'.layer == 0 && cspan'.disk == d.disk
            && cspan'.phiSpan == EndcapPhi(trig, PhisOf(cat, cluster)))
      && (d.subdet != PixelBarrel && d.subdet != PixelEndcap ==>
            cspan'.layer == cspan.layer && cspan'.disk == cspan.disk && cspan'.phiSpan == cspan.phiSpan)
  {
    cspan' := cspan;
    if |cluster| > 0 {
      var first := cluster[0];
      cspan' := cspan'.(subdetId := cat.det(first).subdet);
      if cspan'.subdetId == 1 {
        cspan' := cspan'.(layer := cat.det(first).layer, disk := 0);
        cspan' := GetPhiSpanBarrel(cat, cluster, cspan');
      } else if cspan'.subdetId == 2 {
        cspan' := cspan'.(disk := cat.det(first).disk, layer := 0);
        cspan' := GetPhiSpanEndcap(trig, cat, cluster, cspan');
      }
      cspan' := GetZSpan(cat, cluster, cspan');
      cspan' := GetRSpan(cat, cluster, cspan');
    }
  }
}
