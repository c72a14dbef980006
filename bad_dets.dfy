/** The lists of flagged (bad) barrel and endcap modules, read from the quality
    record's bad-component list. */
module BadDets {
  import opened Geometry
  import opened SortedSets

  /** The ids of `components` whose sub-detector is `subdet`, in order. */
  function OfSubdet(cat: Catalog, components: seq<nat>, subdet: int): (r: seq<nat>)
    ensures forall d :: d in r <==> d in components && cat.det(d).subdet == subdet
  {
    if components == [] then []
    else
      var last := components[|components| - 1];
      assert components == components[..|components| - 1] + [last];
      OfSubdet(cat, components[..|components| - 1], subdet) + (if cat.det(last).subdet == subdet then [last] else [])
  }

  /** What `getBadPixelDets` leaves behind: each list sorted, duplicate-free and holding
      only ids of its own sub-detector. */
  ghost predicate BadListsValid(cat: Catalog, bar: seq<nat>, end: seq<nat>) {
    && StrictlySorted(bar) && StrictlySorted(end)
    && (forall d :: d in bar ==> cat.det(d).subdet == PixelBarrel)
    && (forall d :: d in end ==> cat.det(d).subdet == PixelEndcap)
  }

  /** `getBadPixelDets`: splits the bad components by sub-detector (other sub-detectors are
      dropped), then sorts each list and removes repeated ids. */
  method GetBadPixelDets(cat: Catalog, components: seq<nat>) returns (bar: seq<nat>, end: seq<nat>)
    ensures bar == SortedUnique(OfSubdet(cat, components, PixelBarrel))
    ensures end == SortedUnique(OfSubdet(cat, components, PixelEndcap))
    ensures BadListsValid(cat, bar, end)
    ensures forall d :: d in bar <==> d in components && cat.det(d).subdet == PixelBarrel
    ensures forall d :: d in end <==> d in components && cat.det(d).subdet == PixelEndcap
  {
    bar, end := [], [];
    var i := 0;
    while i < |components|
      invariant 0 <= i <= |components|
      invariant bar == OfSubdet(cat, components[..i], PixelBarrel)
      invariant end == OfSubdet(cat, components[..i], PixelEndcap)
    {
      var d := components[i];
      assert components[..i + 1][..i] == components[..i];
      if cat.det(d).subdet == PixelBarrel {
        bar := bar + [d];
      } else if cat.det(d).subdet == PixelEndcap {
        end := end + [d];
      }
      i := i + 1;
    }
    assert components[..i] == components;
    bar := SortedUnique(bar);
    end := SortedUnique(end);
  }

  /** `detWorks`: the id is on neither bad list. */
  predicate DetWorks(det: nat, bar: seq<nat>, end: seq<nat>) {
    det !in bar && det !in end
  }

  /** With the lists `getBadPixelDets` builds, a module "works" exactly when the quality
      record does not list it as a bad barrel or endcap component. */
  lemma DetWorksIffNotListed(cat: Catalog, components: seq<nat>, det: nat)
    ensures DetWorks(det, SortedUnique(OfSubdet(cat, components, PixelBarrel)),
                          SortedUnique(OfSubdet(cat, components, PixelEndcap)))
        <==> !(det in components && (cat.det(det).subdet == PixelBarrel || cat.det(det).subdet == PixelEndcap))
  {
  }
}
