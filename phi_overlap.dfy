/** The circular phi-range overlap test. A phi range [a1, a2] with a1 > a2 is
    "inverted": it runs from a1 up through the +pi/-pi seam to a2. */
module PhiOverlap {
  import opened Geometry

  /** `phiRangesOverlap(x1, x2, y1, y2)`. */
  predicate PhiRangesOverlap(x1: real, x2: real, y1: real, y2: real) {
    if x1 <= x2 && y1 <= y2 then
      x1 <= y2 && y1 <= x2
    else if (x1 > x2 && y1 <= y2) || (y1 > y2 && x1 <= x2) then
      y1 <= x2 || x1 <= y2
    else if x1 > x2 && y1 > y2 then
      true
    else
      // the three guards above cover every pair of reals
      assert false; false
  }

  /** `phiRangesOverlap(phiSpanA, phiSpanB)`, the overload on spans, written out again as
      the source does; it agrees with the four-float test. */
  function PhiSpansOverlap(a: Span, b: Span): (r: bool)
    ensures r == PhiRangesOverlap(a.first, a.second, b.first, b.second)
  {
    var x1, x2, y1, y2 := a.first, a.second, b.first, b.second;
    if x1 <= x2 && y1 <= y2 then
      x1 <= y2 && y1 <= x2
    else if (x1 > x2 && y1 <= y2) || (y1 > y2 && x1 <= x2) then
      y1 <= x2 || x1 <= y2
    else if x1 > x2 && y1 > y2 then
      true
    else
      assert false; false
  }

  /** The angles an arc covers: [a1, a2] when ordered, everything from a1 upwards and
      everything up to a2 when inverted. */
  predicate InArc(p: real, a1: real, a2: real) {
    if a1 <= a2 then a1 <= p <= a2 else a1 <= p || p <= a2
  }

  /** Two phi ranges overlap exactly when some angle lies on both arcs. */
  lemma {:induction false} OverlapIffSharedAngle(x1: real, x2: real, y1: real, y2: real)
    ensures PhiRangesOverlap(x1, x2, y1, y2) <==> exists p :: InArc(p, x1, x2) && InArc(p, y1, y2)
  {
    if PhiRangesOverlap(x1, x2, y1, y2) {
      var p: real;
      if x1 <= x2 && y1 <= y2 {
        p := if x1 <= y1 then y1 else x1;
      } else if x1 > x2 && y1 <= y2 {
        p := if y1 <= x2 then y1 else y2;
      } else if y1 > y2 && x1 <= x2 {
        p := if x1 <= y2 then x1 else x2;
      } else {
        p := if x1 <= y1 then y1 else x1;
      }
      assert InArc(p, x1, x2) && InArc(p, y1, y2);
    }
  }

  lemma PhiOverlapSymmetric(a: Span, b: Span)
    ensures PhiSpansOverlap(a, b) == PhiSpansOverlap(b, a)
  {
    OverlapIffSharedAngle(a.first, a.second, b.first, b.second);
    OverlapIffSharedAngle(b.first, b.second, a.first, a.second);
  }

  lemma PhiOverlapReflexive(a: Span)
    ensures PhiSpansOverlap(a, a)
  {
    OverlapIffSharedAngle(a.first, a.second, a.first, a.second);
    assert InArc(a.first, a.first, a.second);
  }

  /** Two inverted ranges always overlap: both contain every angle above the larger start. */
  lemma InvertedRangesOverlap(a: Span, b: Span)
    requires a.first > a.second && b.first > b.second
    ensures PhiSpansOverlap(a, b)
  {
    var p := if a.first <= b.first then b.first else a.first;
    assert InArc(p, a.first, a.second) && InArc(p, b.first, b.second);
    OverlapIffSharedAngle(a.first, a.second, b.first, b.second);
  }

  /** The sentinel `(eps, -eps)` is an inverted range covering every angle outside
      (-eps, eps), so the test does not exclude it: it overlaps every range that reaches
      outside that gap, itself included. */
  lemma SentinelOverlaps(b: Span)
    requires b.first > b.second || b.first <= -Eps || Eps <= b.second
    ensures PhiSpansOverlap(SentinelSpan, b)
  {
    var p := if b.first > b.second then (if b.first <= Eps then Eps else b.first)
             else if b.first <= -Eps then b.first else b.second;
    assert InArc(p, SentinelSpan.first, SentinelSpan.second) && InArc(p, b.first, b.second);
    OverlapIffSharedAngle(SentinelSpan.first, SentinelSpan.second, b.first, b.second);
  }
}
