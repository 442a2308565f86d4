/**
  The oblique cutting plane: a unit normal and a point the plane passes
  through, with the signed distance of a point to the plane and the
  orthogonal projection onto it. A plane value never changes once built.
 */
module ObliquePlane {
  import opened Results
  import opened Geometry

  /** Both failures are a `ValueError` in the source; the message tells them apart. */
  datatype PlaneError =
    | WrongShape   // the normal or the point is not a 3-element vector
    | ZeroNormal   // the normal has length zero

  datatype Plane = Plane(normal: Vec3, point: Vec3)

  /** What construction establishes: the stored normal has unit length. */
  predicate Valid(p: Plane) {
    SqNorm(p.normal) == 1.0
  }

  function ToVec3(s: seq<real>): Vec3
    requires |s| == 3
  {
    Vec3(s[0], s[1], s[2])
  }

  /** Component-wise division by the norm, as `normal / norm`. */
  function Normalize(n: Vec3, norm: real): (u: Vec3)
    requires norm != 0.0
    ensures Scale(norm, u) == n
  {
    DivFacts(n.x, 0.0, norm);
    DivFacts(n.y, 0.0, norm);
    DivFacts(n.z, 0.0, norm);
    Vec3(Div(n.x, norm), Div(n.y, norm), Div(n.z, norm))
  }

  /**
    The validating constructor: rejects a normal or point of the wrong
    shape, then a zero normal; otherwise stores the normal divided by its
    length and the point as given.
   */
  function New(normal: seq<real>, point: seq<real>, sqrt: real -> real): (r: Result<Plane, PlaneError>)
    ensures r == Failure(WrongShape) <==> |normal| != 3 || |point| != 3
    ensures r == Failure(ZeroNormal) <==>
      |normal| == 3 && |point| == 3 && Norm(ToVec3(normal), sqrt) == 0.0
    ensures r.Success? ==>
      r.value.point == ToVec3(point) &&
      Scale(Norm(ToVec3(normal), sqrt), r.value.normal) == ToVec3(normal)
  {
    if |normal| != 3 || |point| != 3 then
      Failure(WrongShape)
    else
      var n := ToVec3(normal);
      var norm := Norm(n, sqrt);
      if norm == 0.0 then Failure(ZeroNormal)
      else Success(Plane(Normalize(n, norm), ToVec3(point)))
  }

  /** Signed distance of `pt` from the plane; the sign tells the side. */
  function PointDistance(p: Plane, pt: Vec3): (d: real)
    ensures pt == p.point ==> d == 0.0
  {
    MulSigns(p.normal.x, 0.0);
    MulSigns(p.normal.y, 0.0);
    MulSigns(p.normal.z, 0.0);
    Dot(p.normal, Sub(pt, p.point))
  }

  /**
    The orthogonal projection of `pt` onto the plane: `pt` moved against
    the normal by its signed distance. With a unit normal the result lies
    on the plane.
   */
  function ProjectPoint(p: Plane, pt: Vec3): (q: Vec3)
    ensures Valid(p) ==> PointDistance(p, q) == 0.0
  {
    var n, d := p.normal, PointDistance(p, pt);
    var s := Scale(d, n);
    assert Sub(Sub(pt, s), p.point) == Sub(Sub(pt, p.point), s);
    DotLinear(n, Sub(pt, p.point), s, d);
    DotLinear(n, n, n, d);
    MulSigns(d, 1.0);
    Sub(pt, s)
  }

  /**
    The constant term `d` of the plane equation `a x + b y + c z + d = 0`:
    for every point, `normal·x + d` is its signed distance, so exactly the
    points of the plane satisfy the equation.
   */
  function Offset(p: Plane): (d: real)
    ensures forall x :: Dot(p.normal, x) + d == PointDistance(p, x)
  {
    DistanceIsAffine(p);
    -Dot(p.normal, p.point)
  }

  /** The signed distance is the dot product with the normal, less that of the reference point. */
  lemma DistanceIsAffine(p: Plane)
    ensures forall x :: PointDistance(p, x) == Dot(p.normal, x) - Dot(p.normal, p.point)
  {
    forall x {
      DotLinear(p.normal, x, p.point, 0.0);
    }
  }

  /** Construction succeeds exactly on well-shaped input with a non-zero normal. */
  lemma NewSucceeds(normal: seq<real>, point: seq<real>, sqrt: real -> real)
    requires IsSqrt(sqrt)
    ensures New(normal, point, sqrt).Success? <==>
      |normal| == 3 && |point| == 3 && ToVec3(normal) != ORIGIN
  {
    if |normal| == 3 && |point| == 3 {
      SqNormFacts(ToVec3(normal));
      SqrtZeroIff(sqrt, SqNorm(ToVec3(normal)));
    }
  }

  /** A constructed plane has a unit normal. */
  lemma NewIsValid(normal: seq<real>, point: seq<real>, sqrt: real -> real)
    requires IsSqrt(sqrt)
    ensures New(normal, point, sqrt).Success? ==> Valid(New(normal, point, sqrt).value)
  {
    var r := New(normal, point, sqrt);
    if r.Success? {
      var n := ToVec3(normal);
      var s := sqrt(SqNorm(n));
      assert r.value.normal == Normalize(n, s);
      SqNormFacts(n);
      SqrtFacts(sqrt, SqNorm(n));
      NormalizedIsUnit(n, s);
    }
  }

  /** Dividing a vector by a root of its squared length gives a unit vector. */
  lemma NormalizedIsUnit(n: Vec3, s: real)
    requires s != 0.0 && Mul(s, s) == SqNorm(n)
    ensures SqNorm(Normalize(n, s)) == 1.0
  {
    var q := SqNorm(n);
    var ss := Mul(s, s);
    DivFacts(n.x, n.x, s);
    DivFacts(n.y, n.y, s);
    DivFacts(n.z, n.z, s);
    DivFacts(Mul(n.x, n.x), Mul(n.y, n.y), ss);
    DivFacts(Mul(n.x, n.x) + Mul(n.y, n.y), Mul(n.z, n.z), ss);
    assert SqNorm(Normalize(n, s)) == Div(q, ss);
    DivSelf(q);
  }

  /** Points already on the plane are left where they are. */
  lemma ProjectionFixesPlanePoints(p: Plane, x: Vec3)
    requires PointDistance(p, x) == 0.0
    ensures ProjectPoint(p, x) == x
  {
    MulSigns(0.0, p.normal.x);
    MulSigns(0.0, p.normal.y);
    MulSigns(0.0, p.normal.z);
  }

  /** Projection is idempotent. */
  lemma ProjectionIdempotent(p: Plane, pt: Vec3)
    requires Valid(p)
    ensures ProjectPoint(p, ProjectPoint(p, pt)) == ProjectPoint(p, pt)
  {
    ProjectionFixesPlanePoints(p, ProjectPoint(p, pt));
  }

  /** With a unit normal, moving `k` along the normal from the reference point gives signed distance `k`. */
  lemma DistanceAlongNormal(p: Plane, k: real)
    requires Valid(p)
    ensures PointDistance(p, Add(p.point, Scale(k, p.normal))) == k
  {
    var s := Scale(k, p.normal);
    assert Sub(Add(p.point, s), p.point) == s;
    DotLinear(p.normal, p.normal, p.normal, k);
    MulRing(p.normal.x, p.normal.x, 0.0);
    MulSigns(k, 1.0);
  }
}
