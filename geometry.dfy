/** The detector catalog the analysis reads, and the value types it produces.

    Detector ids are naturals. The geometry/topology catalog is modelled as two total
    functions: `det` gives the topology coordinates and the surface intervals of an id,
    `pxbDetId` builds the id of a barrel module from (layer, ladder, module). */
module Geometry {

  datatype Option<T> = None | Some(value: T)

  /** `unsigned int` / `uint32_t` values and the wrap-around of their arithmetic. */
  const TwoTo32: int := 0x1_0000_0000
  type U32 = x: int | 0 <= x < 0x1_0000_0000

  function Add32(a: U32, b: U32): U32 { (a + b) % TwoTo32 }
  function Sub32(a: U32, b: U32): U32 { (a - b) % TwoTo32 }

  /** `a % n` on unsigned values, computed by repeated subtraction. */
  function UMod(a: U32, n: U32): U32
    requires n > 0
    decreases a
  {
    if a < n then a else UMod(a - n, n)
  }

  /** The repeated subtraction leaves the remainder of division by `n`: a value below `n`
      that differs from `a` by a multiple of `n`. */
  lemma {:induction false} UModIsRemainder(a: U32, n: U32) returns (q: nat)
    requires n > 0
    ensures a == q * n + UMod(a, n) && UMod(a, n) < n
    decreases a
  {
    if a < n {
      q := 0;
    } else {
      var q' := UModIsRemainder(a - n, n);
      q := q' + 1;
      assert q * n == q' * n + n;
    }
  }

  /** Sub-detector tags as `DetId::subdetId()` reports them. */
  const PixelBarrel: int := 1
  const PixelEndcap: int := 2

  const NLayer1Ladders: U32 := 12
  const NLayer2Ladders: U32 := 28
  const NLayer3Ladders: U32 := 44
  const NLayer4Ladders: U32 := 64
  const NModulesPerLadder: U32 := 8

  /** Ladders in a barrel layer; 0 for a layer outside 1..4 (the `default` of the switch). */
  function NLadders(layer: U32): U32 {
    if layer == 1 then NLayer1Ladders
    else if layer == 2 then NLayer2Ladders
    else if layer == 3 then NLayer3Ladders
    else if layer == 4 then NLayer4Ladders
    else 0
  }

  /** A pair of floats (`std::pair<float,float>`), modelled as reals. */
  datatype Span = Span(first: real, second: real)

  /** What the topology and the geometry report about one detector id. */
  datatype DetInfo = DetInfo(
    subdet: int,
    layer: U32, ladder: U32, moduleNum: U32,  // barrel topology
    disk: U32,                              // endcap topology
    phi: Span, z: Span, r: Span)            // surface intervals

  datatype Catalog = Catalog(det: nat -> DetInfo, pxbDetId: (nat, nat, nat) -> nat)

  /** cos and sin of an angle; their values are left abstract. */
  datatype Trig = Trig(cos: real -> real, sin: real -> real)

  predicate ValidBarrelCoords(layer: nat, ladder: nat, moduleNum: nat) {
    1 <= layer <= 4 && 1 <= ladder <= NLadders(layer) && 1 <= moduleNum <= NModulesPerLadder
  }

  /** The catalog of a real pixel detector: barrel coordinates are in range and
      `pxbDetId` is the inverse of the barrel topology; every surface has positive
      extent in z and r. */
  ghost predicate WellFormed(cat: Catalog) {
    && (forall d: nat {:trigger cat.det(d)} :: cat.det(d).subdet == PixelBarrel ==>
          ValidBarrelCoords(cat.det(d).layer, cat.det(d).ladder, cat.det(d).moduleNum) &&
          cat.pxbDetId(cat.det(d).layer, cat.det(d).ladder, cat.det(d).moduleNum) == d)
    && (forall layer: nat, ladder: nat, moduleNum: nat {:trigger cat.pxbDetId(layer, ladder, moduleNum)} ::
          ValidBarrelCoords(layer, ladder, moduleNum) ==>
            cat.det(cat.pxbDetId(layer, ladder, moduleNum)).subdet == PixelBarrel &&
            cat.det(cat.pxbDetId(layer, ladder, moduleNum)).layer == layer &&
            cat.det(cat.pxbDetId(layer, ladder, moduleNum)).ladder == ladder &&
            cat.det(cat.pxbDetId(layer, ladder, moduleNum)).moduleNum == moduleNum)
    && (forall d: nat {:trigger cat.det(d)} ::
          cat.det(d).z.first < cat.det(d).z.second && cat.det(d).r.first < cat.det(d).r.second)
  }

  /** The analysis result for one cluster. */
  datatype ClusterSpan = ClusterSpan(
    subdetId: int, phiSpan: Span, zSpan: Span, rSpan: Span, layer: U32, disk: U32)

  /** `ClusterSpan()`: every field zero. */
  const DefaultClusterSpan: ClusterSpan :=
    ClusterSpan(0, Span(0.0, 0.0), Span(0.0, 0.0), Span(0.0, 0.0), 0, 0)

  /** `std::numeric_limits<float>::epsilon()`, 2^-23. */
  const Eps: real := 0.00000011920928955078125

  /** The phi span written when no boundary can be found: `(eps, -eps)`. */
  const SentinelSpan: Span := Span(Eps, -Eps)

  /** A float that may be plus or minus infinity. */
  datatype Ext = NegInf | Fin(v: real) | PosInf

  predicate Le(a: Ext, b: Ext) {
    match (a, b)
    case (NegInf, _) => true
    case (_, PosInf) => true
    case (Fin(x), Fin(y)) => x <= y
    case _ => false
  }

  function Neg(a: Ext): Ext {
    match a
    case NegInf => PosInf
    case PosInf => NegInf
    case Fin(x) => Fin(-x)
  }
}
