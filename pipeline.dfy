/**
  The measurement run of `main.py`: cut the segmentation with the oblique
  plane, give up when there is no cross-section, otherwise flatten the
  section into one contour and compute every metric from it. The
  cross-section and the triangle mesh come from geometry libraries and
  are inputs here.
 */
module Pipeline {
  import opened Results
  import opened Geometry
  import opened Ordering
  import opened Sequences
  import opened CostalMetrics
  import ObliquePlane

  /** The tolerance the run uses for the costal points: the default of `compute_extreme_costal_points`. */
  const TOLERANCE: real := 0.001

  /** The plane the run cuts with is well formed: its normal (1, 1, 0) is not zero. */
  lemma DriverPlaneIsValid(sqrt: real -> real)
    requires IsSqrt(sqrt)
    ensures var plane := ObliquePlane.New([1.0, 1.0, 0.0], [32.0, 32.0, 32.0], sqrt);
      plane.Success? && ObliquePlane.Valid(plane.value)
  {
    ObliquePlane.NewSucceeds([1.0, 1.0, 0.0], [32.0, 32.0, 32.0], sqrt);
    ObliquePlane.NewIsValid([1.0, 1.0, 0.0], [32.0, 32.0, 32.0], sqrt);
  }

  /** Joins the points of all section entities into one contour, entity by entity. */
  method FlattenContour(entities: seq<seq<Vec3>>) returns (pts: seq<Vec3>)
    ensures pts == Concat(entities)
  {
    pts := [];
    var i := 0;
    while i < |entities|
      invariant 0 <= i <= |entities|
      invariant pts == Concat(entities[..i])
    {
      assert entities[..i + 1][..i] == entities[..i];
      pts := pts + entities[i];
      i := i + 1;
    }
    assert entities[..|entities|] == entities;
  }

  /** The horizontal distance of each contour point from the contour's mean centre. */
  function ContourRadii(pts: seq<Vec3>, sqrt: real -> real): (r: seq<real>)
    requires |pts| > 0
    ensures |r| == |pts|
  {
    Radii(pts, Center(pts, None), sqrt)
  }

  /** Positions of the points whose radius is strictly below the median radius. */
  function InnerBandIndices(pts: seq<Vec3>, sqrt: real -> real): (ix: seq<nat>)
    requires |pts| > 0
    ensures InRange(ix, |pts|)
  {
    var r := ContourRadii(pts, sqrt);
    IndicesWhere(r, Below(Median(r)))
  }

  /**
    The inner costal contour: the points strictly inside the median radius,
    in contour order. Its ensures is the bridge to `InnerBandMembers`.
   */
  function InnerBand(pts: seq<Vec3>, sqrt: real -> real): (band: seq<Vec3>)
    requires |pts| > 0
    ensures |band| == |InnerBandIndices(pts, sqrt)|
    ensures forall j :: 0 <= j < |band| ==> band[j] == pts[InnerBandIndices(pts, sqrt)[j]]
  {
    var ix := InnerBandIndices(pts, sqrt);
    seq(|ix|, j requires 0 <= j < |ix| => pts[ix[j]])
  }

  /**
    The inner band is an order-preserving selection of contour points:
    every selected point has radius strictly below the median radius,
    every such point is selected, and at most half the points are.
   */
  lemma InnerBandProperties(pts: seq<Vec3>, sqrt: real -> real)
    requires |pts| > 0
    ensures var r, ix := ContourRadii(pts, sqrt), InnerBandIndices(pts, sqrt);
      (forall j :: 0 <= j < |ix| ==> r[ix[j]] < Median(r)) &&
      (forall j, k :: 0 <= j < k < |ix| ==> ix[j] < ix[k]) &&
      (forall i :: 0 <= i < |pts| && r[i] < Median(r) ==> i in ix) &&
      2 * |InnerBand(pts, sqrt)| <= |pts|
  {
    var r := ContourRadii(pts, sqrt);
    IndicesWhereCount(r, Below(Median(r)));
  }

  /**
    The inner band holds contour points only, each strictly nearer to the
    mean centre than the median radius, and every contour point that near
    is in it.
   */
  lemma InnerBandMembers(pts: seq<Vec3>, sqrt: real -> real)
    requires |pts| > 0
    ensures var band, c, med := InnerBand(pts, sqrt), Center(pts, None), Median(ContourRadii(pts, sqrt));
      (forall j :: 0 <= j < |band| ==> band[j] in pts && Radius(band[j], c, sqrt) < med) &&
      (forall i :: 0 <= i < |pts| && Radius(pts[i], c, sqrt) < med ==> pts[i] in band)
  {
    var band, c, r := InnerBand(pts, sqrt), Center(pts, None), ContourRadii(pts, sqrt);
    var ix := InnerBandIndices(pts, sqrt);
    forall i | 0 <= i < |pts| && Radius(pts[i], c, sqrt) < Median(r)
      ensures pts[i] in band
    {
      assert Below(Median(r))(r[i]);
      var j :| 0 <= j < |ix| && ix[j] == i;
      assert band[j] == pts[i];
    }
  }

  /** The inner band is empty exactly when the smallest radius is not below the median, i.e. all radii are at least the median. */
  lemma InnerBandEmpty(pts: seq<Vec3>, sqrt: real -> real)
    requires |pts| > 0
    ensures |InnerBand(pts, sqrt)| == 0 <==> Median(ContourRadii(pts, sqrt)) <= Min(ContourRadii(pts, sqrt))
  {
    var r := ContourRadii(pts, sqrt);
    var ix := InnerBandIndices(pts, sqrt);
    var i :| 0 <= i < |r| && r[i] == Min(r);
    if Min(r) < Median(r) {
      assert Below(Median(r))(r[i]);
      assert i in ix;
    }
    if |ix| > 0 {
      assert Below(Median(r))(r[ix[0]]);
    }
  }

  /** What the run reports once it has a contour. */
  datatype Metrics = Metrics(
    costal: CostalPoints,
    ribWidth: real,
    baseDiameter: Option<real>,   // None when the inner band is empty
    volume: int,
    surfaceArea: real)

  datatype Outcome =
    | NoCrossSection               // the plane misses the segmentation
    | Failed(error: CostalError)   // the costal point search raised
    | Measured(metrics: Metrics)

  /**
    The run, given the cross-section the plane produced (if any), the
    segmentation and the triangle mesh of its surface.
   */
  method Run(section: Option<seq<seq<Vec3>>>, segmentation: seq<seq<seq<int>>>,
             verts: seq<Vec3>, faces: seq<Face>, sqrt: real -> real) returns (out: Outcome)
    requires ValidFaces(verts, faces)
    ensures section.None? <==> out == NoCrossSection
    ensures section.Some? ==> (out.Measured? <==> |Concat(section.value)| > 0)
    ensures section.Some? && !out.Measured? ==> out == Failed(EmptyContour)
    ensures out.Measured? ==>
      var pts := Concat(section.value);
      var m := out.metrics;
      |pts| > 0 &&
      m.costal == ExtremeCostalPoints(pts, None, TOLERANCE, sqrt).value &&
      m.ribWidth == RibWidth(m.costal.inner, m.costal.outer, sqrt) &&
      (m.baseDiameter.Some? <==> |InnerBand(pts, sqrt)| > 0) &&
      (m.baseDiameter.Some? ==> m.baseDiameter.value == BaseDiameter(InnerBand(pts, sqrt), sqrt)) &&
      m.volume == Volume(segmentation) &&
      m.surfaceArea == SurfaceArea(verts, faces, sqrt)
  {
    if section.None? {
      return NoCrossSection;
    }
    var pts := FlattenContour(section.value);
    var extremes := ExtremeCostalPoints(pts, None, TOLERANCE, sqrt);
    if extremes.Failure? {
      return Failed(extremes.error);
    }
    var costal := extremes.value;
    var width := RibWidth(costal.inner, costal.outer, sqrt);
    var band := InnerBand(pts, sqrt);
    var diameter := None;
    if |band| > 0 {
      diameter := Some(BaseDiameter(band, sqrt));
    }
    var volume := Volume(segmentation);
    var area := SurfaceArea(verts, faces, sqrt);
    out := Measured(Metrics(costal, width, diameter, volume, area));
  }
}
