/** Which flagged modules touch a given flagged module (`badAdjecentDetsBarrel`,
    `badAdjecentDetsEndcap`). */
module Adjacency {
  import opened Geometry
  import opened PhiOverlap
  import opened BadDets

  /** `((ladder-1)+1)%nLads+1` in `unsigned int` arithmetic. */
  function NextLadder(ladder: U32, n: U32): U32
    requires n > 0
  {
    Add32(UMod(Add32(Sub32(ladder, 1), 1), n), 1)
  }

  /** `((ladder-1)-1+nLads)%nLads+1` in `unsigned int` arithmetic. */
  function PrevLadder(ladder: U32, n: U32): U32
    requires n > 0
  {
    Add32(UMod(Add32(Sub32(Sub32(ladder, 1), 1), n), n), 1)
  }

  lemma ModBelow(x: int, n: int)
    requires 0 <= x < n
    ensures x % n == x
  {
  }

  lemma ModAbove(x: int, n: int)
    requires 0 < n <= x < 2 * n
    ensures x % n == x - n
  {
    assert x == n * 1 + (x - n);
  }

  lemma NextLadderValue(ladder: U32, n: U32)
    requires 1 <= ladder <= n <= NLayer4Ladders
    ensures NextLadder(ladder, n) == (if ladder < n then ladder + 1 else 1)
  {
    ModBelow(ladder - 1, TwoTo32);
    ModBelow(ladder, TwoTo32);
    assert Add32(Sub32(ladder, 1), 1) == ladder;
    if ladder == n {
      assert UMod(ladder, n) == UMod(0, n);
    }
  }

  lemma PrevLadderValue(ladder: U32, n: U32)
    requires 1 <= ladder <= n <= NLayer4Ladders
    ensures PrevLadder(ladder, n) == (if ladder > 1 then ladder - 1 else n)
  {
    ModBelow(ladder - 1, TwoTo32);
    assert Sub32(ladder, 1) == ladder - 1;
    if ladder > 1 {
      ModBelow(ladder - 2, TwoTo32);
      ModBelow(ladder - 2 + n, TwoTo32);
      assert Add32(Sub32(ladder - 1, 1), n) == ladder - 2 + n;
      assert UMod(ladder - 2 + n, n) == UMod(ladder - 2, n);
      ModBelow(ladder - 1, TwoTo32);
    } else {
      assert Sub32(0, 1) == TwoTo32 - 1;
      ModAbove(TwoTo32 - 1 + n, TwoTo32);
      assert Add32(TwoTo32 - 1, n) == n - 1;
      ModBelow(n, TwoTo32);
    }
  }

  /** The ladder after `ladder` on a ring of `n` ladders numbered 1..n. */
  function RingNext(ladder: int, n: int): int {
    if ladder < n then ladder + 1 else 1
  }

  /** On a ring of at most 64 ladders numbered 1..n the unsigned expressions are the
      ring successor and predecessor, both stay in 1..n, and each undoes the other. */
  lemma LadderRing(ladder: U32, n: U32)
    requires 1 <= ladder <= n <= NLayer4Ladders
    ensures NextLadder(ladder, n) == RingNext(ladder, n)
    ensures RingNext(PrevLadder(ladder, n), n) == ladder
    ensures 1 <= NextLadder(ladder, n) <= n && 1 <= PrevLadder(ladder, n) <= n
    ensures PrevLadder(NextLadder(ladder, n), n) == ladder
    ensures NextLadder(PrevLadder(ladder, n), n) == ladder
  {
    NextLadderValue(ladder, n);
    PrevLadderValue(ladder, n);
    NextLadderValue(PrevLadder(ladder, n), n);
    PrevLadderValue(NextLadder(ladder, n), n);
  }

  /** The candidate neighbours `badAdjecentDetsBarrel` builds before filtering: the same
      module on the next and the previous ladder, then the module above (not for the last
      module of the ladder) and the module below (not for the first). */
  function BarrelCandidates(cat: Catalog, info: DetInfo): seq<nat>
    requires NLadders(info.layer) > 0
  {
    var n := NLadders(info.layer);
    var m := info.moduleNum;
    [cat.pxbDetId(info.layer, NextLadder(info.ladder, n), m),
     cat.pxbDetId(info.layer, PrevLadder(info.ladder, n), m)]
    + (if m == 1 then [cat.pxbDetId(info.layer, info.ladder, Add32(m, 1))]
       else if m == NModulesPerLadder then [cat.pxbDetId(info.layer, info.ladder, Sub32(m, 1))]
       else [cat.pxbDetId(info.layer, info.ladder, Add32(m, 1)),
             cat.pxbDetId(info.layer, info.ladder, Sub32(m, 1))])
  }

  /** `adj.erase(remove_if(..., detWorks))`: keeps the flagged candidates, in order. */
  function KeepFlagged(cands: seq<nat>, bar: seq<nat>, end: seq<nat>): (r: seq<nat>)
    ensures forall y :: y in r <==> y in cands && !DetWorks(y, bar, end)
  {
    if cands == [] then []
    else (if DetWorks(cands[0], bar, end) then [] else [cands[0]]) + KeepFlagged(cands[1..], bar, end)
  }

  /** `badAdjecentDetsBarrel`. */
  function BadAdjacentDetsBarrel(cat: Catalog, bar: seq<nat>, end: seq<nat>, det: nat): seq<nat>
    requires NLadders(cat.det(det).layer) > 0
  {
    KeepFlagged(BarrelCandidates(cat, cat.det(det)), bar, end)
  }

  /** Barrel modules that touch, stated on ring arithmetic without the source's
      unsigned expressions: same layer, and either the same module on ring-adjacent
      ladders or the same ladder and consecutive modules. */
  predicate BarrelTouching(a: DetInfo, b: DetInfo) {
    && a.layer == b.layer && 1 <= a.layer <= 4
    && var n := NLadders(a.layer);
       || (a.moduleNum == b.moduleNum && (b.ladder == RingNext(a.ladder, n) || a.ladder == RingNext(b.ladder, n)))
       || (a.ladder == b.ladder && (b.moduleNum == a.moduleNum + 1 || a.moduleNum == b.moduleNum + 1))
  }

  /** The module `pxbDetId` builds from valid coordinates touching `a` touches `a`. */
  lemma BuiltTouches(cat: Catalog, a: DetInfo, ladder: nat, moduleNum: nat)
    requires WellFormed(cat) && ValidBarrelCoords(a.layer, ladder, moduleNum)
    requires var n := NLadders(a.layer);
      || (moduleNum == a.moduleNum && (ladder == RingNext(a.ladder, n) || a.ladder == RingNext(ladder, n)))
      || (ladder == a.ladder && (moduleNum == a.moduleNum + 1 || a.moduleNum == moduleNum + 1))
    ensures cat.det(cat.pxbDetId(a.layer, ladder, moduleNum)).subdet == PixelBarrel
    ensures BarrelTouching(a, cat.det(cat.pxbDetId(a.layer, ladder, moduleNum)))
  {
    var b := cat.det(cat.pxbDetId(a.layer, ladder, moduleNum));
    assert b.layer == a.layer && b.ladder == ladder && b.moduleNum == moduleNum;
  }

  /** The candidates with the unsigned module arithmetic resolved. */
  lemma CandidatesShape(cat: Catalog, a: DetInfo, y: nat)
    requires ValidBarrelCoords(a.layer, a.ladder, a.moduleNum)
    ensures NLadders(a.layer) > 0
    ensures var n, m := NLadders(a.layer), a.moduleNum;
      y in BarrelCandidates(cat, a) <==>
        || y == cat.pxbDetId(a.layer, NextLadder(a.ladder, n), m)
        || y == cat.pxbDetId(a.layer, PrevLadder(a.ladder, n), m)
        || (m < NModulesPerLadder && y == cat.pxbDetId(a.layer, a.ladder, m + 1))
        || (m > 1 && y == cat.pxbDetId(a.layer, a.ladder, m - 1))
  {
    var m := a.moduleNum;
    assert Add32(m, 1) == m + 1;
    assert m > 1 ==> Sub32(m, 1) == m - 1;
  }

  /** Every candidate is a barrel module touching the module it was built from. */
  lemma CandidatesTouch(cat: Catalog, x: nat, y: nat)
    requires WellFormed(cat) && cat.det(x).subdet == PixelBarrel
    requires NLadders(cat.det(x).layer) > 0
    requires y in BarrelCandidates(cat, cat.det(x))
    ensures cat.det(y).subdet == PixelBarrel && BarrelTouching(cat.det(x), cat.det(y))
  {
    var a := cat.det(x);
    var n := NLadders(a.layer);
    var m := a.moduleNum;
    assert ValidBarrelCoords(a.layer, a.ladder, m);
    CandidatesShape(cat, a, y);
    LadderRing(a.ladder, n);
    var nx, pv := NextLadder(a.ladder, n), PrevLadder(a.ladder, n);
    if y == cat.pxbDetId(a.layer, nx, m) {
      BuiltTouches(cat, a, nx, m);
    } else if y == cat.pxbDetId(a.layer, pv, m) {
      BuiltTouches(cat, a, pv, m);
    } else if m < NModulesPerLadder && y == cat.pxbDetId(a.layer, a.ladder, m + 1) {
      BuiltTouches(cat, a, a.ladder, m + 1);
    } else {
      BuiltTouches(cat, a, a.ladder, m - 1);
    }
  }

  /** Every barrel module touching a barrel module is one of its candidates. */
  lemma TouchingIsCandidate(cat: Catalog, x: nat, y: nat)
    requires WellFormed(cat) && cat.det(x).subdet == PixelBarrel && cat.det(y).subdet == PixelBarrel
    requires BarrelTouching(cat.det(x), cat.det(y))
    ensures NLadders(cat.det(x).layer) > 0
    ensures y in BarrelCandidates(cat, cat.det(x))
  {
    var a, b := cat.det(x), cat.det(y);
    var n := NLadders(a.layer);
    var m := a.moduleNum;
    assert ValidBarrelCoords(a.layer, a.ladder, m);
    assert ValidBarrelCoords(b.layer, b.ladder, b.moduleNum);
    assert y == cat.pxbDetId(b.layer, b.ladder, b.moduleNum);
    CandidatesShape(cat, a, y);
    LadderRing(a.ladder, n);
    if m == b.moduleNum && a.ladder == RingNext(b.ladder, n) && b.ladder != RingNext(a.ladder, n) {
      LadderRing(b.ladder, n);
      assert b.ladder == PrevLadder(a.ladder, n);
    }
  }

  /** The barrel neighbours of a barrel module are exactly the flagged barrel modules
      that touch it. */
  lemma BarrelAdjacencyIff(cat: Catalog, bar: seq<nat>, end: seq<nat>, x: nat, y: nat)
    requires WellFormed(cat) && cat.det(x).subdet == PixelBarrel
    ensures NLadders(cat.det(x).layer) > 0
    ensures y in BadAdjacentDetsBarrel(cat, bar, end, x) <==>
      cat.det(y).subdet == PixelBarrel && BarrelTouching(cat.det(x), cat.det(y)) && !DetWorks(y, bar, end)
  {
    assert ValidBarrelCoords(cat.det(x).layer, cat.det(x).ladder, cat.det(x).moduleNum);
    if y in BadAdjacentDetsBarrel(cat, bar, end, x) {
      CandidatesTouch(cat, x, y);
    }
    if cat.det(y).subdet == PixelBarrel && BarrelTouching(cat.det(x), cat.det(y)) {
      TouchingIsCandidate(cat, x, y);
    }
  }

  lemma BarrelTouchingSymmetric(a: DetInfo, b: DetInfo)
    ensures BarrelTouching(a, b) == BarrelTouching(b, a)
  {
  }

  /** The test inside `badAdjecentDetsEndcap`: another module on the same disk, on the same
      side of z = 0 (the z starts have a positive product), with overlapping phi ranges. */
  predicate EndcapTouching(cat: Catalog, x: nat, y: nat) {
    && x != y
    && cat.det(x).disk == cat.det(y).disk
    && cat.det(x).z.first * cat.det(y).z.first > 0.0
    && PhiSpansOverlap(cat.det(x).phi, cat.det(y).phi)
  }

  lemma EndcapTouchingSymmetric(cat: Catalog, x: nat, y: nat)
    ensures EndcapTouching(cat, x, y) == EndcapTouching(cat, y, x)
  {
    PhiOverlapSymmetric(cat.det(x).phi, cat.det(y).phi);
  }

  /** The entries of `cands` that touch `x`, in order. */
  function EndcapNeighbours(cat: Catalog, cands: seq<nat>, x: nat): (r: seq<nat>)
    ensures forall y :: y in r <==> y in cands && EndcapTouching(cat, x, y)
  {
    if cands == [] then []
    else
      var last := cands[|cands| - 1];
      assert cands == cands[..|cands| - 1] + [last];
      EndcapNeighbours(cat, cands[..|cands| - 1], x) + (if EndcapTouching(cat, x, last) then [last] else [])
  }

  /** `badAdjecentDetsEndcap`: scans the whole endcap bad list. */
  method BadAdjacentDetsEndcap(cat: Catalog, end: seq<nat>, det: nat) returns (adj: seq<nat>)
    ensures adj == EndcapNeighbours(cat, end, det)
    ensures forall y :: y in adj <==> y in end && EndcapTouching(cat, det, y)
  {
    adj := [];
    var i := 0;
    while i < |end|
      invariant 0 <= i <= |end|
      invariant adj == EndcapNeighbours(cat, end[..i], det)
    {
      var comp := end[i];
      assert end[..i + 1][..i] == end[..i];
      if det != comp && cat.det(det).disk == cat.det(comp).disk
         && cat.det(det).z.first * cat.det(comp).z.first > 0.0
         && PhiSpansOverlap(cat.det(det).phi, cat.det(comp).phi)
      {
        adj := adj + [comp];
      }
      i := i + 1;
    }
    assert end[..i] == end;
  }

  /** The flagged modules `reachableCluster` visits from `x`: dispatched on the
      sub-detector of `x`; none for other sub-detectors. */
  function Neighbours(cat: Catalog, bar: seq<nat>, end: seq<nat>, x: nat): seq<nat>
    requires WellFormed(cat)
  {
    if cat.det(x).subdet == PixelBarrel then BadAdjacentDetsBarrel(cat, bar, end, x)
    else if cat.det(x).subdet == PixelEndcap then EndcapNeighbours(cat, end, x)
    else []
  }

  /** The neighbours of a flagged module are flagged modules of the same list. */
  lemma NeighboursStayInList(cat: Catalog, bar: seq<nat>, end: seq<nat>, list: seq<nat>, x: nat, y: nat)
    requires WellFormed(cat) && BadListsValid(cat, bar, end)
    requires list == bar || list == end
    requires x in list && y in Neighbours(cat, bar, end, x)
    ensures y in list
  {
    if cat.det(x).subdet == PixelBarrel {
      BarrelAdjacencyIff(cat, bar, end, x, y);
      assert y !in end;
    }
  }

  /** Adjacency between flagged modules of one list is symmetric. */
  lemma NeighboursSymmetric(cat: Catalog, bar: seq<nat>, end: seq<nat>, list: seq<nat>, x: nat, y: nat)
    requires WellFormed(cat) && BadListsValid(cat, bar, end)
    requires list == bar || list == end
    requires x in list && y in Neighbours(cat, bar, end, x)
    ensures x in Neighbours(cat, bar, end, y)
  {
    NeighboursStayInList(cat, bar, end, list, x, y);
    if cat.det(x).subdet == PixelBarrel {
      BarrelAdjacencyIff(cat, bar, end, x, y);
      BarrelAdjacencyIff(cat, bar, end, y, x);
      BarrelTouchingSymmetric(cat.det(x), cat.det(y));
    } else {
      EndcapTouchingSymmetric(cat, x, y);
    }
  }
}
