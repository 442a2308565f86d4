/**
  The rib metrics of `costalMetrics.py`: the inner and outer costal points
  of a cross-sectional contour (the contour points nearest to and farthest
  from the vertical axis through a centre, with a tolerance and a
  median-height tie-break), the rib width between them, the voxel volume,
  the surface area of a triangle mesh and the base diameter of a point set.
 */
module CostalMetrics {
  import opened Results
  import opened Geometry
  import opened Ordering
  import opened Sequences

  /* ---------------------------------------------------------------- centre */

  function Xs(pts: seq<Vec3>): (xs: seq<real>)
    ensures |xs| == |pts|
  {
    seq(|pts|, i requires 0 <= i < |pts| => pts[i].x)
  }

  function Ys(pts: seq<Vec3>): (ys: seq<real>)
    ensures |ys| == |pts|
  {
    seq(|pts|, i requires 0 <= i < |pts| => pts[i].y)
  }

  /**
    The centre in the horizontal plane: the supplied one, or else the mean
    of x and the mean of y (the number of points times each coordinate of
    the centre is that coordinate's sum).
   */
  function Center(pts: seq<Vec3>, centerXY: Option<(real, real)>): (c: (real, real))
    requires |pts| > 0
    ensures centerXY.Some? ==> c == centerXY.value
    ensures centerXY.None? ==>
      Mul(|pts| as real, c.0) == SumReals(Xs(pts)) && Mul(|pts| as real, c.1) == SumReals(Ys(pts))
  {
    match centerXY
    case Some(c) => c
    case None =>
      var n := |pts| as real;
      DivFacts(SumReals(Xs(pts)), 0.0, n);
      DivFacts(SumReals(Ys(pts)), 0.0, n);
      (Div(SumReals(Xs(pts)), n), Div(SumReals(Ys(pts)), n))
  }

  /** Each value of `s` less `c`. */
  function Shifted(s: seq<real>, c: real): (d: seq<real>)
    ensures |d| == |s|
  {
    seq(|s|, i requires 0 <= i < |s| => s[i] - c)
  }

  lemma {:induction false} ShiftedSum(s: seq<real>, c: real)
    ensures SumReals(Shifted(s, c)) == SumReals(s) - Mul(c, |s| as real)
  {
    if |s| == 0 {
      MulSigns(c, 0.0);
    } else {
      var front := s[..|s| - 1];
      assert Shifted(s, c)[..|s| - 1] == Shifted(front, c);
      ShiftedSum(front, c);
      MulRing(c, |front| as real, 1.0);
      MulSigns(c, 1.0);
    }
  }

  /**
    With no centre supplied, the centre is the centroid of the x and y
    coordinates: the offsets from it sum to zero along each axis.
   */
  lemma CenterIsCentroid(pts: seq<Vec3>)
    requires |pts| > 0
    ensures SumReals(Shifted(Xs(pts), Center(pts, None).0)) == 0.0
    ensures SumReals(Shifted(Ys(pts), Center(pts, None).1)) == 0.0
  {
    var n := |pts| as real;
    var (cx, cy) := Center(pts, None);
    ShiftedSum(Xs(pts), cx);
    ShiftedSum(Ys(pts), cy);
    DivFacts(SumReals(Xs(pts)), 0.0, n);
    DivFacts(SumReals(Ys(pts)), 0.0, n);
    MulRing(n, cx, 0.0);
    MulRing(n, cy, 0.0);
  }

  /* ----------------------------------------------------------------- radii */

  /** Horizontal distance of `p` from the vertical axis through `c`. */
  function Radius(p: Vec3, c: (real, real), sqrt: real -> real): real {
    var dx, dy := p.x - c.0, p.y - c.1;
    sqrt(Mul(dx, dx) + Mul(dy, dy))
  }

  /**
    The radius is the distance from `p` to the point of the axis at `p`'s
    own height; it is non-negative, and 0 exactly for a point on the axis.
   */
  lemma RadiusProperties(p: Vec3, c: (real, real), sqrt: real -> real)
    requires IsSqrt(sqrt)
    ensures Radius(p, c, sqrt) == Distance(Vec3(c.0, c.1, p.z), p, sqrt)
    ensures 0.0 <= Radius(p, c, sqrt)
    ensures Radius(p, c, sqrt) == 0.0 <==> p.x == c.0 && p.y == c.1
  {
    var a := Vec3(c.0, c.1, p.z);
    MulSigns(0.0, 0.0);
    assert Sub(p, a) == Vec3(p.x - c.0, p.y - c.1, 0.0);
    DistanceProperties(a, p, sqrt);
  }

  /** Each point's radius; the ensures ties every entry to `Radius`, so `RadiusProperties` applies to it. */
  function Radii(pts: seq<Vec3>, c: (real, real), sqrt: real -> real): (r: seq<real>)
    ensures |r| == |pts|
    ensures forall i :: 0 <= i < |pts| ==> r[i] == Radius(pts[i], c, sqrt)
  {
    seq(|pts|, i requires 0 <= i < |pts| => Radius(pts[i], c, sqrt))
  }

  /** A candidate set is non-empty exactly when the tolerance is positive, as the extreme itself qualifies. */
  lemma CandidatesNonEmpty(r: seq<real>, m: real, tol: real)
    requires exists i :: 0 <= i < |r| && r[i] == m
    ensures |IndicesWhere(r, Near(m, tol))| > 0 <==> 0.0 < tol
  {
    var ix := IndicesWhere(r, Near(m, tol));
    var i :| 0 <= i < |r| && r[i] == m;
    if 0.0 < tol {
      assert Near(m, tol)(r[i]);
      assert i in ix;
    } else {
      assert forall x :: !Near(m, tol)(x);
      IndicesWhereCount(r, Near(m, tol));
      CountExtremes(Range(|r|), r, Near(m, tol));
    }
  }

  /** Positions within `tol` of the largest radius. */
  function OuterCandidates(pts: seq<Vec3>, c: (real, real), tol: real, sqrt: real -> real): (ix: seq<nat>)
    requires |pts| > 0
    ensures InRange(ix, |pts|)
    ensures |ix| > 0 <==> 0.0 < tol
  {
    var r := Radii(pts, c, sqrt);
    CandidatesNonEmpty(r, Max(r), tol);
    IndicesWhere(r, Near(Max(r), tol))
  }

  /** Positions within `tol` of the smallest radius. */
  function InnerCandidates(pts: seq<Vec3>, c: (real, real), tol: real, sqrt: real -> real): (ix: seq<nat>)
    requires |pts| > 0
    ensures InRange(ix, |pts|)
    ensures |ix| > 0 <==> 0.0 < tol
  {
    var r := Radii(pts, c, sqrt);
    CandidatesNonEmpty(r, Min(r), tol);
    IndicesWhere(r, Near(Min(r), tol))
  }

  /* -------------------------------------------------------------- tie-break */

  /** The heights of the candidates, in candidate order. */
  function Zs(pts: seq<Vec3>, ix: seq<nat>): (zs: seq<real>)
    requires InRange(ix, |pts|)
    ensures |zs| == |ix|
  {
    seq(|ix|, j requires 0 <= j < |ix| => pts[ix[j]].z)
  }

  /**
    One candidate out of several: the one at position `k / 2` when the `k`
    candidates are ordered by ascending height; the only one otherwise.
   */
  function TieBreak(pts: seq<Vec3>, ix: seq<nat>): (k: nat)
    requires |ix| > 0 && InRange(ix, |pts|)
    ensures k in ix
  {
    if |ix| > 1 then ix[Argsort(Zs(pts, ix))[|ix| / 2]] else ix[0]
  }

  /**
    The chosen candidate's height is the lower median of the candidates'
    heights: at most `k / 2` of them are lower and more than `k / 2` are at
    most as high.
   */
  lemma TieBreakIsMedianHeight(pts: seq<Vec3>, ix: seq<nat>)
    requires |ix| > 0 && InRange(ix, |pts|)
    ensures CountWhere(Zs(pts, ix), Below(pts[TieBreak(pts, ix)].z)) <= |ix| / 2
    ensures |ix| / 2 < CountWhere(Zs(pts, ix), AtMost(pts[TieBreak(pts, ix)].z))
  {
    var zs := Zs(pts, ix);
    var p := Argsort(zs);
    var h := |ix| / 2;
    if |ix| == 1 {
      assert p[0] in multiset(Range(1));
      assert p[0] == 0;
    }
    assert zs[p[h]] == pts[TieBreak(pts, ix)].z;
    ArgsortRank(zs, h);
  }

  /* ---------------------------------------------------------- extreme search */

  /** `compute_extreme_costal_points` raises on an empty contour and when a candidate set is empty. */
  datatype CostalError =
    | EmptyContour   // `np.max` of an empty array
    | NoCandidate    // `outer_indices[0]` of an empty array, which happens when `tol <= 0`

  datatype CostalPoints = CostalPoints(inner: Vec3, outer: Vec3, innerDistance: real, outerDistance: real)

  /** The positions of the inner and the outer costal point, in that order. */
  function SelectExtremes(pts: seq<Vec3>, c: (real, real), tol: real, sqrt: real -> real): (r: Result<(nat, nat), CostalError>)
    requires |pts| > 0
    ensures r.Success? <==> 0.0 < tol
    ensures r.Success? ==>
      r.value.0 in InnerCandidates(pts, c, tol, sqrt) && r.value.0 < |pts| &&
      r.value.1 in OuterCandidates(pts, c, tol, sqrt) && r.value.1 < |pts|
  {
    var outer := OuterCandidates(pts, c, tol, sqrt);
    var inner := InnerCandidates(pts, c, tol, sqrt);
    if |outer| == 0 || |inner| == 0 then Failure(NoCandidate)
    else Success((TieBreak(pts, inner), TieBreak(pts, outer)))
  }

  /**
    The inner and outer costal points of a contour with their horizontal
    distances from the centre. The distances are those of the returned
    points, not the extreme radii themselves.
   */
  function ExtremeCostalPoints(pts: seq<Vec3>, centerXY: Option<(real, real)>, tol: real, sqrt: real -> real)
    : (res: Result<CostalPoints, CostalError>)
    ensures res == Failure(EmptyContour) <==> |pts| == 0
    ensures res.Success? <==> |pts| > 0 && 0.0 < tol
  {
    if |pts| == 0 then Failure(EmptyContour)
    else
      var c := Center(pts, centerXY);
      match SelectExtremes(pts, c, tol, sqrt)
      case Failure(e) => Failure(e)
      case Success((i, o)) =>
        Success(CostalPoints(pts[i], pts[o], Radius(pts[i], c, sqrt), Radius(pts[o], c, sqrt)))
  }

  /**
    The returned points belong to the contour; the outer distance lies
    within `tol` below the largest radius and the inner one within `tol`
    above the smallest; so every point of the contour lies less than
    `tol` outside the band between the two returned distances.
   */
  lemma ExtremePointsBounds(pts: seq<Vec3>, centerXY: Option<(real, real)>, tol: real, sqrt: real -> real)
    requires |pts| > 0 && 0.0 < tol
    ensures var res := ExtremeCostalPoints(pts, centerXY, tol, sqrt).value;
      var r := Radii(pts, Center(pts, centerXY), sqrt);
      (exists o :: 0 <= o < |pts| && pts[o] == res.outer && r[o] == res.outerDistance) &&
      (exists i :: 0 <= i < |pts| && pts[i] == res.inner && r[i] == res.innerDistance) &&
      Max(r) - tol < res.outerDistance <= Max(r) &&
      Min(r) <= res.innerDistance < Min(r) + tol &&
      (forall j :: 0 <= j < |pts| ==> res.innerDistance - tol < r[j] < res.outerDistance + tol)
  {
    var c := Center(pts, centerXY);
    var r := Radii(pts, c, sqrt);
    var (i, o) := SelectExtremes(pts, c, tol, sqrt).value;
    var res := ExtremeCostalPoints(pts, centerXY, tol, sqrt).value;
    assert res == CostalPoints(pts[i], pts[o], r[i], r[o]);
    assert Near(Max(r), tol)(r[o]) by {
      var ix := OuterCandidates(pts, c, tol, sqrt);
      var k :| 0 <= k < |ix| && ix[k] == o;
    }
    assert Near(Min(r), tol)(r[i]) by {
      var ix := InnerCandidates(pts, c, tol, sqrt);
      var k :| 0 <= k < |ix| && ix[k] == i;
    }
  }

  /**
    Among the outer candidates, the outer point has the lower-median
    height; likewise the inner point among the inner candidates.
   */
  lemma ExtremePointsTieBreak(pts: seq<Vec3>, centerXY: Option<(real, real)>, tol: real, sqrt: real -> real)
    requires |pts| > 0 && 0.0 < tol
    ensures var res := ExtremeCostalPoints(pts, centerXY, tol, sqrt).value;
      var outer := OuterCandidates(pts, Center(pts, centerXY), tol, sqrt);
      var inner := InnerCandidates(pts, Center(pts, centerXY), tol, sqrt);
      CountWhere(Zs(pts, outer), Below(res.outer.z)) <= |outer| / 2 < CountWhere(Zs(pts, outer), AtMost(res.outer.z)) &&
      CountWhere(Zs(pts, inner), Below(res.inner.z)) <= |inner| / 2 < CountWhere(Zs(pts, inner), AtMost(res.inner.z))
  {
    var c := Center(pts, centerXY);
    TieBreakIsMedianHeight(pts, OuterCandidates(pts, c, tol, sqrt));
    TieBreakIsMedianHeight(pts, InnerCandidates(pts, c, tol, sqrt));
  }

  /** On a one-point contour the inner and the outer point coincide. */
  lemma SinglePointContour(p: Vec3, centerXY: Option<(real, real)>, tol: real, sqrt: real -> real)
    requires 0.0 < tol
    ensures var res := ExtremeCostalPoints([p], centerXY, tol, sqrt).value;
      res.inner == res.outer == p && res.innerDistance == res.outerDistance
  {
    var c := Center([p], centerXY);
    IncreasingIndicesBound(OuterCandidates([p], c, tol, sqrt), 1);
    IncreasingIndicesBound(InnerCandidates([p], c, tol, sqrt), 1);
  }

  /* ------------------------------------------------------------- rib width */

  /** `compute_average_rib_width`: the Euclidean distance between the two costal points. */
  function RibWidth(inner: Vec3, outer: Vec3, sqrt: real -> real): real {
    Norm(Sub(outer, inner), sqrt)
  }

  lemma RibWidthProperties(inner: Vec3, outer: Vec3, sqrt: real -> real)
    requires IsSqrt(sqrt)
    ensures 0.0 <= RibWidth(inner, outer, sqrt)
    ensures RibWidth(inner, outer, sqrt) == RibWidth(outer, inner, sqrt)
    ensures RibWidth(inner, outer, sqrt) == 0.0 <==> inner == outer
  {
    DistanceProperties(inner, outer, sqrt);
  }

  /* ---------------------------------------------------------------- volume */

  /** The voxels of a three-dimensional array in row-major order. */
  function Voxels(seg: seq<seq<seq<int>>>): seq<int> {
    Concat(Slabs(seg))
  }

  function Slabs(seg: seq<seq<seq<int>>>): (s: seq<seq<int>>)
    ensures |s| == |seg|
  {
    seq(|seg|, i requires 0 <= i < |seg| => Concat(seg[i]))
  }

  /** `compute_rib_volume`: the sum of all voxel values. */
  function Volume(seg: seq<seq<seq<int>>>): int {
    SumInts(Voxels(seg))
  }

  /** The volume of two stacked blocks is the sum of their volumes. */
  lemma VolumeAdditive(a: seq<seq<seq<int>>>, b: seq<seq<seq<int>>>)
    ensures Volume(a + b) == Volume(a) + Volume(b)
  {
    assert Slabs(a + b) == Slabs(a) + Slabs(b);
    ConcatAppend(Slabs(a), Slabs(b));
    SumIntsAppend(Voxels(a), Voxels(b));
  }

  /** Every voxel is 0 or 1. */
  predicate BinarySegmentation(seg: seq<seq<seq<int>>>) {
    forall i, j, k :: 0 <= i < |seg| && 0 <= j < |seg[i]| && 0 <= k < |seg[i][j]| ==>
      seg[i][j][k] == 0 || seg[i][j][k] == 1
  }

  lemma BinaryVoxels(seg: seq<seq<seq<int>>>)
    requires BinarySegmentation(seg)
    ensures Binary(Voxels(seg))
  {
    var vs := Voxels(seg);
    forall n | 0 <= n < |vs|
      ensures vs[n] == 0 || vs[n] == 1
    {
      ConcatMembership(Slabs(seg), vs[n]);
      var i :| 0 <= i < |seg| && vs[n] in Slabs(seg)[i];
      ConcatMembership(seg[i], vs[n]);
      var j :| 0 <= j < |seg[i]| && vs[n] in seg[i][j];
      var k :| 0 <= k < |seg[i][j]| && seg[i][j][k] == vs[n];
    }
  }

  /**
    For a binary segmentation the volume counts the foreground voxels: it
    is the number of 1 voxels, so it lies between 0 and the number of
    voxels, is the number of voxels exactly when all are foreground, and 0
    exactly when none is.
   */
  lemma BinaryVolume(seg: seq<seq<seq<int>>>)
    requires BinarySegmentation(seg)
    ensures Volume(seg) == multiset(Voxels(seg))[1]
    ensures 0 <= Volume(seg) <= |Voxels(seg)|
    ensures Volume(seg) == |Voxels(seg)| <==> forall n :: 0 <= n < |Voxels(seg)| ==> Voxels(seg)[n] == 1
    ensures Volume(seg) == 0 <==> forall n :: 0 <= n < |Voxels(seg)| ==> Voxels(seg)[n] == 0
  {
    BinaryVoxels(seg);
    BinarySum(Voxels(seg));
  }

  /* ---------------------------------------------------------- surface area */

  /** A mesh triangle, as three indices into the vertex list. */
  datatype Face = Face(a: nat, b: nat, c: nat)

  predicate ValidFaces(verts: seq<Vec3>, faces: seq<Face>) {
    forall f :: 0 <= f < |faces| ==>
      faces[f].a < |verts| && faces[f].b < |verts| && faces[f].c < |verts|
  }

  /** Half the length of the cross product of two edge vectors. */
  function TriangleArea(v0: Vec3, v1: Vec3, v2: Vec3, sqrt: real -> real): real {
    Mul(0.5, Norm(Cross(Sub(v1, v0), Sub(v2, v0)), sqrt))
  }

  function FaceAreas(verts: seq<Vec3>, faces: seq<Face>, sqrt: real -> real): (areas: seq<real>)
    requires ValidFaces(verts, faces)
    ensures |areas| == |faces|
  {
    seq(|faces|, f requires 0 <= f < |faces| =>
      TriangleArea(verts[faces[f].a], verts[faces[f].b], verts[faces[f].c], sqrt))
  }

  /** The triangle-area sum of `compute_rib_surface_area`, over a given mesh. */
  function SurfaceArea(verts: seq<Vec3>, faces: seq<Face>, sqrt: real -> real): real
    requires ValidFaces(verts, faces)
  {
    SumReals(FaceAreas(verts, faces, sqrt))
  }

  lemma TriangleAreaNonNegative(v0: Vec3, v1: Vec3, v2: Vec3, sqrt: real -> real)
    requires IsSqrt(sqrt)
    ensures 0.0 <= TriangleArea(v0, v1, v2, sqrt)
  {
    SqNormFacts(Cross(Sub(v1, v0), Sub(v2, v0)));
    SqrtFacts(sqrt, SqNorm(Cross(Sub(v1, v0), Sub(v2, v0))));
    MulSigns(0.5, Norm(Cross(Sub(v1, v0), Sub(v2, v0)), sqrt));
  }

  /** A triangle with a repeated corner, whichever two corners coincide, has no area. */
  lemma DegenerateTriangle(a: Vec3, b: Vec3, sqrt: real -> real)
    requires IsSqrt(sqrt)
    ensures TriangleArea(a, a, b, sqrt) == 0.0
    ensures TriangleArea(a, b, a, sqrt) == 0.0
    ensures TriangleArea(a, b, b, sqrt) == 0.0
  {
    CollapsedTriangle(a, Sub(b, a), sqrt);
    SqrtZeroIff(sqrt, 0.0);
    MulSigns(0.5, 0.0);
    SwapLastCorners(a, a, b, sqrt);
    RepeatedLastCorner(a, b, sqrt);
  }

  lemma RepeatedLastCorner(a: Vec3, b: Vec3, sqrt: real -> real)
    requires IsSqrt(sqrt)
    ensures TriangleArea(a, b, b, sqrt) == 0.0
  {
    var e := Sub(b, a);
    CrossSelf(e);
    SqNormFacts(ORIGIN);
    SqrtZeroIff(sqrt, 0.0);
    MulSigns(0.5, 0.0);
  }

  lemma CrossSelf(e: Vec3)
    ensures Cross(e, e) == ORIGIN
  {
    MulRing(e.y, e.z, 0.0);
    MulRing(e.z, e.x, 0.0);
    MulRing(e.x, e.y, 0.0);
  }

  lemma CollapsedTriangle(v0: Vec3, e: Vec3, sqrt: real -> real)
    ensures Norm(Cross(Sub(v0, v0), e), sqrt) == sqrt(0.0)
  {
    assert Sub(v0, v0) == ORIGIN;
    CrossWithZero(e);
    SqNormFacts(ORIGIN);
  }

  lemma CrossWithZero(e: Vec3)
    ensures Cross(ORIGIN, e) == ORIGIN
  {
    MulSigns(0.0, e.x);
    MulSigns(0.0, e.y);
    MulSigns(0.0, e.z);
  }

  /**
    A triangle's area does not depend on the order of its corners:
    swapping the last two or the first two leaves it unchanged, and these
    two swaps generate every reordering.
   */
  lemma TriangleAreaOrientation(v0: Vec3, v1: Vec3, v2: Vec3, sqrt: real -> real)
    ensures TriangleArea(v0, v2, v1, sqrt) == TriangleArea(v0, v1, v2, sqrt)
    ensures TriangleArea(v1, v0, v2, sqrt) == TriangleArea(v0, v1, v2, sqrt)
  {
    SwapLastCorners(v0, v1, v2, sqrt);
    SwapFirstCorners(v0, v1, v2, sqrt);
  }

  lemma SwapLastCorners(v0: Vec3, v1: Vec3, v2: Vec3, sqrt: real -> real)
    ensures TriangleArea(v0, v2, v1, sqrt) == TriangleArea(v0, v1, v2, sqrt)
  {
    var a, b := Sub(v1, v0), Sub(v2, v0);
    var n := Cross(a, b);
    MulRing(a.y, b.z, 0.0);
    MulRing(a.z, b.y, 0.0);
    MulRing(a.z, b.x, 0.0);
    MulRing(a.x, b.z, 0.0);
    MulRing(a.x, b.y, 0.0);
    MulRing(a.y, b.x, 0.0);
    assert Cross(b, a) == Vec3(-n.x, -n.y, -n.z);
    OppositeSquare(n.x);
    OppositeSquare(n.y);
    OppositeSquare(n.z);
  }

  /** Measured from `v1`, the edges are `-a` and `b - a`, whose cross product is `-(a × b)`. */
  lemma SwapFirstCorners(v0: Vec3, v1: Vec3, v2: Vec3, sqrt: real -> real)
    ensures TriangleArea(v1, v0, v2, sqrt) == TriangleArea(v0, v1, v2, sqrt)
  {
    var a, b := Sub(v1, v0), Sub(v2, v0);
    var n := Cross(a, b);
    assert Sub(v0, v1) == Vec3(-a.x, -a.y, -a.z);
    assert Sub(v2, v1) == Sub(b, a);
    MulRing(a.y, b.z, a.z);
    MulRing(a.z, b.y, a.y);
    MulRing(a.z, b.x, a.x);
    MulRing(a.x, b.z, a.z);
    MulRing(a.x, b.y, a.y);
    MulRing(a.y, b.x, a.x);
    MulRing(-a.y, b.z - a.z, 0.0);
    MulRing(-a.z, b.y - a.y, 0.0);
    MulRing(-a.z, b.x - a.x, 0.0);
    MulRing(-a.x, b.z - a.z, 0.0);
    MulRing(-a.x, b.y - a.y, 0.0);
    MulRing(-a.y, b.x - a.x, 0.0);
    assert Cross(Sub(v0, v1), Sub(v2, v1)) == Vec3(-n.x, -n.y, -n.z);
    OppositeSquare(n.x);
    OppositeSquare(n.y);
    OppositeSquare(n.z);
  }

  /** The area of a mesh is non-negative, and the sum over two face lists is the sum of their areas. */
  lemma SurfaceAreaProperties(verts: seq<Vec3>, f1: seq<Face>, f2: seq<Face>, sqrt: real -> real)
    requires IsSqrt(sqrt) && ValidFaces(verts, f1) && ValidFaces(verts, f2)
    ensures ValidFaces(verts, f1 + f2)
    ensures 0.0 <= SurfaceArea(verts, f1, sqrt)
    ensures SurfaceArea(verts, f1 + f2, sqrt) == SurfaceArea(verts, f1, sqrt) + SurfaceArea(verts, f2, sqrt)
  {
    assert ValidFaces(verts, f1 + f2);
    var areas := FaceAreas(verts, f1, sqrt);
    forall f | 0 <= f < |f1|
      ensures 0.0 <= areas[f]
    {
      TriangleAreaNonNegative(verts[f1[f].a], verts[f1[f].b], verts[f1[f].c], sqrt);
    }
    NonNegativeSum(areas);
    assert FaceAreas(verts, f1 + f2, sqrt) == areas + FaceAreas(verts, f2, sqrt);
    SumRealsAppend(areas, FaceAreas(verts, f2, sqrt));
  }

  /* --------------------------------------------------------- base diameter */

  /** Entry `(i, j)` of the pairwise distance matrix: the length of `pts[i] - pts[j]`. */
  function PairDistance(pts: seq<Vec3>, i: nat, j: nat, sqrt: real -> real): real
    requires i < |pts| && j < |pts|
  {
    Norm(Sub(pts[i], pts[j]), sqrt)
  }

  /** The pairwise distance matrix; its ensures is the bridge to `DistanceMatrixProperties` and `BaseDiameter`. */
  function DistanceMatrix(pts: seq<Vec3>, sqrt: real -> real): (m: seq<seq<real>>)
    ensures |m| == |pts| && NonEmptyRows(m)
    ensures forall i, j :: 0 <= i < |pts| && 0 <= j < |pts| ==> |m[i]| == |pts| && m[i][j] == PairDistance(pts, i, j, sqrt)
  {
    seq(|pts|, i requires 0 <= i < |pts| =>
      seq(|pts|, j requires 0 <= j < |pts| => PairDistance(pts, i, j, sqrt)))
  }

  /**
    The distance matrix of a point set is symmetric with a zero diagonal,
    its entries are non-negative, and an entry is 0 exactly when its two
    points coincide.
   */
  lemma DistanceMatrixProperties(pts: seq<Vec3>, sqrt: real -> real)
    requires IsSqrt(sqrt)
    ensures var m := DistanceMatrix(pts, sqrt);
      forall i, j :: 0 <= i < |pts| && 0 <= j < |pts| ==>
        0.0 <= m[i][j] && m[i][j] == m[j][i] && (m[i][j] == 0.0 <==> pts[i] == pts[j])
    ensures forall i :: 0 <= i < |pts| ==> DistanceMatrix(pts, sqrt)[i][i] == 0.0
  {
    forall i, j | 0 <= i < |pts| && 0 <= j < |pts|
      ensures 0.0 <= PairDistance(pts, i, j, sqrt) && PairDistance(pts, i, j, sqrt) == PairDistance(pts, j, i, sqrt)
      ensures PairDistance(pts, i, j, sqrt) == 0.0 <==> pts[i] == pts[j]
    {
      DistanceProperties(pts[j], pts[i], sqrt);
    }
  }

  /**
    `compute_rib_base_diameter`: the largest entry of the pairwise distance
    matrix, which is at least the distance of every pair of points and is
    the distance of some pair.
   */
  function BaseDiameter(pts: seq<Vec3>, sqrt: real -> real): (d: real)
    requires |pts| > 0
    ensures forall i, j :: 0 <= i < |pts| && 0 <= j < |pts| ==> PairDistance(pts, i, j, sqrt) <= d
    ensures exists i, j :: 0 <= i < |pts| && 0 <= j < |pts| && PairDistance(pts, i, j, sqrt) == d
  {
    var m := DistanceMatrix(pts, sqrt);
    MatrixMaxIsLargestEntry(m);
    MatrixMax(m)
  }

  /** The base diameter is non-negative, and 0 for a single point. */
  lemma BaseDiameterOfPoint(pts: seq<Vec3>, sqrt: real -> real)
    requires |pts| > 0 && IsSqrt(sqrt)
    ensures 0.0 <= BaseDiameter(pts, sqrt)
    ensures |pts| == 1 ==> BaseDiameter(pts, sqrt) == 0.0
  {
    DistanceProperties(pts[0], pts[0], sqrt);
    assert PairDistance(pts, 0, 0, sqrt) == 0.0;
  }
}
