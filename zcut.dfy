/** Z ranges of the primitive solids, the leaf classification against a cut plane, and
    the re-parameterisation that moves a primitive's lower Z bound onto the cut. */
module ZCut {
  import opened Csg

  /** Classification bit flags. Their numeric values live in a header that is not part
      of this model; the engine needs only UNDEFINED to be zero and the other three to
      be distinct single bits. */
  type Mask = bv8

  const UNDEFINED: Mask := 0
  const INCLUDE: Mask := 1
  const STRADDLE: Mask := 2
  const EXCLUDE: Mask := 4

  /** The primitives whose Z range the engine knows. */
  predicate CanZ(shape: Shape) {
    shape.Ellipsoid? || shape.Tubs? || shape.Polycone?
  }

  predicate Increasing(zs: seq<real>) {
    forall i :: 0 < i < |zs| ==> zs[i - 1] < zs[i]
  }

  /** An ellipsoid spans its bottom cut to its top cut; nothing is checked here. */
  function EllipsoidZRange(e: Shape): (real, real)
    requires e.Ellipsoid?
  {
    (e.zBottomCut, e.zTopCut)
  }

  /** A tube spans minus to plus its half length, which must be positive. */
  function TubsZRange(t: Shape): (r: Result<(real, real)>)
    requires t.Tubs?
    ensures r.Ok? <==> t.zHalfLength > 0.0
    ensures r.Ok? ==> r.value.0 < 0.0 < r.value.1 && r.value.0 == -r.value.1 && r.value.1 - r.value.0 == 2.0 * t.zHalfLength
  {
    var z1 := t.zHalfLength;
    var z0 := -z1;
    if z1 > 0.0 then Ok((z0, z1)) else Fatal(DegenerateZRange)
  }

  /** A polycone spans its first to its last Z plane; the planes must increase. With no
      plane at all the unsigned plane count minus one wraps round and the source reads
      far past the end of its array, which this model treats as fatal. */
  function PolyconeZRange(p: Shape): (r: Result<(real, real)>)
    requires p.Polycone?
    ensures r.Ok? <==> Increasing(p.zPlanes) && |p.zPlanes| > 0
    ensures r.Ok? ==> r.value.0 in p.zPlanes && r.value.1 in p.zPlanes
    ensures r.Ok? ==> forall z :: z in p.zPlanes ==> r.value.0 <= z <= r.value.1
    ensures r.Ok? && |p.zPlanes| >= 2 ==> r.value.0 < r.value.1
  {
    var zs := p.zPlanes;
    if !Increasing(zs) then Fatal(DegenerateZRange)
    else if |zs| == 0 then Fatal(NoZPlanes)
    else
      IncreasingBounds(zs);
      Ok((zs[0], zs[|zs| - 1]))
  }

  lemma {:induction false} IncreasingBounds(zs: seq<real>)
    requires Increasing(zs) && |zs| > 0
    ensures forall z :: z in zs ==> zs[0] <= z <= zs[|zs| - 1]
    ensures |zs| >= 2 ==> zs[0] < zs[|zs| - 1]
  {
    if |zs| > 1 {
      var init := zs[..|zs| - 1];
      IncreasingBounds(init);
      assert forall z :: z in zs ==> z in init || z == zs[|zs| - 1];
      assert init[|init| - 1] < zs[|zs| - 1];
    }
  }

  /** The loop GetZRange and ApplyZCut_G4Polycone run over a polycone's planes, each
      plane asserted to lie above the one before it: it passes exactly on increasing
      planes. */
  method CheckZPlanes(zs: seq<real>) returns (ok: bool)
    ensures ok <==> Increasing(zs)
  {
    var i := 1;
    while i < |zs|
      invariant 1 <= i
      invariant forall j :: 0 < j < i && j < |zs| ==> zs[j - 1] < zs[j]
    {
      if !(zs[i] > zs[i - 1]) {
        return false;
      }
      i := i + 1;
    }
    return true;
  }

  /** GetZRange for a polycone, with its loop: the first and the last plane once the
      planes are checked. */
  method GetPolyconeZRange(p: Shape) returns (r: Result<(real, real)>)
    requires p.Polycone?
    ensures r == PolyconeZRange(p)
  {
    var ok := CheckZPlanes(p.zPlanes);
    if !ok {
      return Fatal(DegenerateZRange);
    }
    if |p.zPlanes| == 0 {
      return Fatal(NoZPlanes);
    }
    return Ok((p.zPlanes[0], p.zPlanes[|p.zPlanes| - 1]));
  }

  /** The local Z range of a primitive, dispatching on its kind. */
  function ZRange(shape: Shape): (r: Result<(real, real)>)
    ensures !CanZ(shape) ==> r == Fatal(UnsupportedPrimitive)
    ensures shape.Ellipsoid? ==> r == Ok((shape.zBottomCut, shape.zTopCut))
    ensures r.Ok? && (shape.Tubs? || (shape.Polycone? && |shape.zPlanes| >= 2)) ==> r.value.0 < r.value.1
  {
    match shape
    case Ellipsoid(_, _, _, _, _) => Ok(EllipsoidZRange(shape))
    case Tubs(_, _, _, _, _) => TubsZRange(shape)
    case Polycone(_, _, _, _, _) => PolyconeZRange(shape)
    case OtherShape(_) => Fatal(UnsupportedPrimitive)
  }

  /** Where a solid spanning [az0, az1] in the tree frame lies relative to the cut:
      wholly above it (INCLUDE), through it (STRADDLE) or wholly below it (EXCLUDE). */
  function ClassifyZCut(az0: real, az1: real, zcut: real): (r: Result<Mask>)
    ensures r.Ok? <==> az1 > az0
    ensures r.Ok? ==> r.value != UNDEFINED
    ensures r.Ok? ==> (r.value == INCLUDE <==> zcut <= az0)
    ensures r.Ok? ==> (r.value == STRADDLE <==> az0 < zcut < az1)
    ensures r.Ok? ==> (r.value == EXCLUDE <==> zcut >= az1)
    ensures r.Ok? ==> r.value == INCLUDE || r.value == STRADDLE || r.value == EXCLUDE
  {
    if !(az1 > az0) then Fatal(DegenerateZRange)
    else if zcut <= az0 then Ok(INCLUDE)
    else if zcut < az1 && zcut > az0 then Ok(STRADDLE)
    else if zcut >= az1 then Ok(EXCLUDE)
    else Ok(UNDEFINED)
  }

  /** Cutting an ellipsoid moves its bottom cut onto the local cut, which must lie in
      [bottom, top); the top cut and the semi-axes stay. */
  function ApplyZCutEllipsoid(e: Shape, localZcut: real): (r: Result<Shape>)
    requires e.Ellipsoid?
    ensures r.Ok? <==> e.zBottomCut <= localZcut < e.zTopCut
    ensures r.Ok? ==> ZRange(r.value) == Ok((localZcut, e.zTopCut))
    ensures r.Ok? ==> r.value.Ellipsoid? && r.value.(zBottomCut := e.zBottomCut) == e
  {
    var z0 := e.zBottomCut;
    var z1 := e.zTopCut;
    var newZ0 := localZcut;
    if !(newZ0 >= z0 && newZ0 < z1) then Fatal(CutOutOfRange)
    else Ok(e.(zBottomCut := newZ0, zTopCut := z1))
  }

  /** Cutting a two-plane polycone moves its first Z plane onto the local cut and keeps
      the second; the planes must increase and there must be exactly two of them. */
  function ApplyZCutPolycone(p: Shape, localZcut: real): (r: Result<Shape>)
    requires p.Polycone?
    ensures r.Ok? <==> Increasing(p.zPlanes) && |p.zPlanes| == 2
    ensures r.Ok? ==> r.value.Polycone? && r.value.(zPlanes := p.zPlanes) == p
    ensures r.Ok? ==> |r.value.zPlanes| == 2 && r.value.zPlanes[0] == localZcut && r.value.zPlanes[1] == p.zPlanes[1]
    ensures r.Ok? && localZcut < p.zPlanes[1] ==> ZRange(r.value) == Ok((localZcut, p.zPlanes[1]))
  {
    var zs := p.zPlanes;
    if !Increasing(zs) then Fatal(DegenerateZRange)
    else if |zs| != 2 then Fatal(NotTwoZPlanes)
    else Ok(p.(zPlanes := zs[0 := localZcut]))
  }

  /** The new half length of a cut tube and the shift of its centre: the cut tube spans
      [localZcut, hz] in the old frame, so the upper end stays and the lower end moves
      to the cut. */
  function TubsCut(hz: real, localZcut: real): (r: (real, real))
    ensures r.1 - r.0 == localZcut && r.1 + r.0 == hz
    ensures localZcut == -hz ==> r == (hz, 0.0)
    ensures localZcut == hz ==> r.0 == 0.0 && r.1 == hz
    ensures localZcut < hz ==> r.0 > 0.0
  {
    var newHz := (hz - localZcut) / 2.0;
    var zoffset := (localZcut + hz) / 2.0;
    (newHz, zoffset)
  }
}
