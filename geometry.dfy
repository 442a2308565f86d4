/** Option and Result values for the operations that can fail. */
module Results {

  datatype Option<+T> = None | Some(value: T)

  datatype Result<+T, +E> = Success(value: T) | Failure(error: E)
}

/**
  Three-dimensional vector algebra over exact reals, and the square root
  that Euclidean norms need.

  Floating-point numbers are modelled by `real`. Products and quotients of
  two variable quantities are written with `Mul` and `Div`, whose algebra is
  stated once in the lemmas below, so that every later proof reasons about
  them linearly. A square root cannot be defined here, so every norm takes
  the root function as a parameter; the lemmas that depend on its meaning
  require `IsSqrt` of it.
 */
module Geometry {

  function Mul(a: real, b: real): real {
    a * b
  }

  function Div(a: real, b: real): real
    requires b != 0.0
  {
    a / b
  }

  lemma MulSigns(a: real, b: real)
    ensures 0.0 < a && 0.0 < b ==> 0.0 < Mul(a, b)
    ensures a < 0.0 && b < 0.0 ==> 0.0 < Mul(a, b)
    ensures 0.0 <= a && 0.0 <= b ==> 0.0 <= Mul(a, b)
    ensures a == 0.0 || b == 0.0 ==> Mul(a, b) == 0.0
    ensures Mul(a, 1.0) == a
  {
  }

  lemma MulRing(a: real, b: real, c: real)
    ensures Mul(a, b) == Mul(b, a)
    ensures Mul(a, b + c) == Mul(a, b) + Mul(a, c)
    ensures Mul(a, b - c) == Mul(a, b) - Mul(a, c)
    ensures Mul(a, Mul(b, c)) == Mul(b, Mul(a, c))
  {
  }

  lemma DivFacts(a: real, b: real, s: real)
    requires s != 0.0
    ensures Mul(s, Div(a, s)) == a
    ensures Div(a, s) + Div(b, s) == Div(a + b, s)
    ensures Mul(s, s) != 0.0 && Mul(Div(a, s), Div(b, s)) == Div(Mul(a, b), Mul(s, s))
  {
    SquareFacts(s);
    var p, q := Div(a, s), Div(b, s);
    assert Mul(s, p) == a && Mul(s, q) == b;
    MulRing(s, p, 0.0);
    assert Mul(Mul(s, s), Mul(p, q)) == Mul(Mul(s, p), Mul(s, q)) by {
      ProductRearrange(s, s, p, q);
    }
  }

  lemma ProductRearrange(a: real, b: real, c: real, d: real)
    ensures Mul(Mul(a, b), Mul(c, d)) == Mul(Mul(a, c), Mul(b, d))
  {
  }

  lemma DivSelf(q: real)
    requires q != 0.0
    ensures Div(q, q) == 1.0
  {
  }

  /** A square is non-negative, and positive away from zero. */
  lemma SquareFacts(t: real)
    ensures 0.0 <= Mul(t, t)
    ensures t != 0.0 ==> 0.0 < Mul(t, t)
  {
    MulSigns(t, t);
  }

  /** Squaring is strictly increasing on the non-negative reals. */
  lemma SquareStrictlyMonotone(a: real, b: real)
    requires 0.0 <= a < b
    ensures Mul(a, a) < Mul(b, b)
  {
    MulSigns(a, b - a);
    MulSigns(b, b - a);
    MulRing(a, b, a);
    MulRing(b, b, a);
  }

  datatype Vec3 = Vec3(x: real, y: real, z: real)

  const ORIGIN := Vec3(0.0, 0.0, 0.0)

  function Add(a: Vec3, b: Vec3): Vec3 {
    Vec3(a.x + b.x, a.y + b.y, a.z + b.z)
  }

  function Sub(a: Vec3, b: Vec3): Vec3 {
    Vec3(a.x - b.x, a.y - b.y, a.z - b.z)
  }

  function Scale(k: real, a: Vec3): Vec3 {
    Vec3(Mul(k, a.x), Mul(k, a.y), Mul(k, a.z))
  }

  function Dot(a: Vec3, b: Vec3): real {
    Mul(a.x, b.x) + Mul(a.y, b.y) + Mul(a.z, b.z)
  }

  function Cross(a: Vec3, b: Vec3): Vec3 {
    Vec3(Mul(a.y, b.z) - Mul(a.z, b.y),
         Mul(a.z, b.x) - Mul(a.x, b.z),
         Mul(a.x, b.y) - Mul(a.y, b.x))
  }

  /** The squared Euclidean length. */
  function SqNorm(a: Vec3): real {
    Dot(a, a)
  }

  /** The squared length is non-negative, and zero only for the zero vector. */
  lemma SqNormFacts(a: Vec3)
    ensures 0.0 <= SqNorm(a)
    ensures SqNorm(a) == 0.0 <==> a == ORIGIN
  {
    SquareFacts(a.x);
    SquareFacts(a.y);
    SquareFacts(a.z);
  }

  /** The dot product is linear in its second argument. */
  lemma DotLinear(a: Vec3, b: Vec3, c: Vec3, k: real)
    ensures Dot(a, Sub(b, c)) == Dot(a, b) - Dot(a, c)
    ensures Dot(a, Scale(k, b)) == Mul(k, Dot(a, b))
  {
    MulRing(a.x, b.x, c.x);
    MulRing(a.y, b.y, c.y);
    MulRing(a.z, b.z, c.z);
    MulRing(a.x, k, b.x);
    MulRing(a.y, k, b.y);
    MulRing(a.z, k, b.z);
    MulRing(k, Mul(a.x, b.x), Mul(a.y, b.y));
    MulRing(k, Mul(a.x, b.x) + Mul(a.y, b.y), Mul(a.z, b.z));
  }

  /** `sqrt` is a square root at `x`: non-negative, and squaring back to `x`. */
  ghost predicate IsSqrtAt(sqrt: real -> real, x: real) {
    0.0 <= x ==> 0.0 <= sqrt(x) && Mul(sqrt(x), sqrt(x)) == x
  }

  /**
    `sqrt` is a square root on the non-negative reals. Its instances are
    taken one at a time, through `SqrtFacts`.
   */
  ghost predicate IsSqrt(sqrt: real -> real) {
    forall x :: IsSqrtAt(sqrt, x)
  }

  lemma SqrtFacts(sqrt: real -> real, x: real)
    requires IsSqrt(sqrt) && 0.0 <= x
    ensures 0.0 <= sqrt(x) && Mul(sqrt(x), sqrt(x)) == x
  {
    assert IsSqrtAt(sqrt, x);
  }

  /** Euclidean length, as `np.linalg.norm` of a vector. */
  function Norm(a: Vec3, sqrt: real -> real): real {
    sqrt(SqNorm(a))
  }

  /** Euclidean distance, as `np.linalg.norm(b - a)`. */
  function Distance(a: Vec3, b: Vec3, sqrt: real -> real): real {
    Norm(Sub(b, a), sqrt)
  }

  /** The root of a square is the non-negative base. */
  lemma SqrtOfSquare(sqrt: real -> real, y: real)
    requires IsSqrt(sqrt) && 0.0 <= y
    ensures sqrt(Mul(y, y)) == y
  {
    SquareFacts(y);
    SqrtFacts(sqrt, Mul(y, y));
    var s := sqrt(Mul(y, y));
    if s < y {
      SquareStrictlyMonotone(s, y);
    } else if y < s {
      SquareStrictlyMonotone(y, s);
    }
  }

  /** A square root is zero exactly at zero. */
  lemma SqrtZeroIff(sqrt: real -> real, x: real)
    requires IsSqrt(sqrt) && 0.0 <= x
    ensures sqrt(x) == 0.0 <==> x == 0.0
  {
    SqrtFacts(sqrt, x);
    MulSigns(sqrt(x), sqrt(x));
    if x == 0.0 {
      SqrtOfSquare(sqrt, 0.0);
    }
  }

  /** Distance is a semi-metric: non-negative, symmetric, zero exactly between equal points. */
  lemma DistanceProperties(a: Vec3, b: Vec3, sqrt: real -> real)
    requires IsSqrt(sqrt)
    ensures 0.0 <= Distance(a, b, sqrt)
    ensures Distance(a, b, sqrt) == Distance(b, a, sqrt)
    ensures Distance(a, b, sqrt) == 0.0 <==> a == b
  {
    var q := SqNorm(Sub(b, a));
    SqNormFacts(Sub(b, a));
    SqrtFacts(sqrt, q);
    SqrtZeroIff(sqrt, q);
    SubZeroIff(a, b);
    DistanceSymmetric(a, b, sqrt);
  }

  lemma SubZeroIff(a: Vec3, b: Vec3)
    ensures Sub(b, a) == ORIGIN <==> a == b
  {
    if Sub(b, a) == ORIGIN {
      assert b.x - a.x == 0.0 && b.y - a.y == 0.0 && b.z - a.z == 0.0;
    }
  }

  lemma DistanceSymmetric(a: Vec3, b: Vec3, sqrt: real -> real)
    ensures Distance(a, b, sqrt) == Distance(b, a, sqrt)
  {
    var d := Sub(b, a);
    OppositeSquare(d.x);
    OppositeSquare(d.y);
    OppositeSquare(d.z);
    assert Sub(a, b) == Vec3(-d.x, -d.y, -d.z);
  }

  lemma OppositeSquare(t: real)
    ensures Mul(-t, -t) == Mul(t, t)
  {
  }
}
