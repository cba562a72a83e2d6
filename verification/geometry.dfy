/**
  Points, squared Euclidean distance and the "distance or infinity" value
  the closest-pair solvers pass around.

  Every distance in this model is SQUARED. The source takes a square root,
  but the root is monotone, so each `<`, `<=` and `min` between distances
  gives the same answer on squares, and the strip test `|dx| <= d` is the
  same as `dx * dx <= d * d`.

  Coordinates are integers. The source accepts any numbers, but scaling
  every coordinate by one positive factor scales every squared distance by
  the square of that factor and changes no comparison, so inputs with
  rational coordinates behave like their scaled integer versions.
 */
module Geometry {

  /** A planar point; the source uses a pair `(x, y)`. */
  datatype Point = Point(x: int, y: int)

  /** The x-coordinate, as a key for sorting. */
  function X(p: Point): int { p.x }

  /** The y-coordinate, as a key for sorting. */
  function Y(p: Point): int { p.y }

  function Sq(a: int): int { a * a }

  /** Squared Euclidean distance: `distance(p, q)` squared. */
  function SqDist(p: Point, q: Point): int
  {
    Sq(p.x - q.x) + Sq(p.y - q.y)
  }

  /** A (squared) distance, or Python's `float('inf')` sentinel. */
  datatype Dist = Inf | Fin(sq: int)

  /** `a <= b` on distances, with `Inf` above every finite value. */
  predicate Le(a: Dist, b: Dist)
  {
    match (a, b)
    case (_, Inf) => true
    case (Inf, Fin(_)) => false
    case (Fin(u), Fin(v)) => u <= v
  }

  /** `a < b` on distances. */
  predicate Lt(a: Dist, b: Dist)
  {
    !Le(b, a)
  }

  /** Python's `min(a, b)`: the first argument unless the second is strictly smaller. */
  function Min(a: Dist, b: Dist): (r: Dist)
    ensures Le(r, a) && Le(r, b)
    ensures r == a || r == b
  {
    if Lt(b, a) then b else a
  }

  lemma LeTrans(a: Dist, b: Dist, c: Dist)
    requires Le(a, b) && Le(b, c)
    ensures Le(a, c)
  {
  }

  lemma LeAntisym(a: Dist, b: Dist)
    requires Le(a, b) && Le(b, a)
    ensures a == b
  {
  }

  /** `distance` is non-negative, symmetric, and zero exactly on coinciding points. */
  lemma DistanceProperties(p: Point, q: Point)
    ensures SqDist(p, q) >= 0
    ensures SqDist(p, q) == SqDist(q, p)
    ensures SqDist(p, q) == 0 <==> p == q
  {
    SquareNonNeg(p.x - q.x);
    SquareNonNeg(p.y - q.y);
    if SqDist(p, q) == 0 {
      SquareZero(p.x - q.x);
      SquareZero(p.y - q.y);
    }
  }

  lemma SquareNonNeg(a: int)
    ensures Sq(a) >= 0
  {
    if a < 0 {
      MulPos(-a, -a);
      assert Sq(a) == (-a) * (-a);
    }
  }

  /** Negating an int does not change its square. */
  lemma SqNeg(a: int)
    ensures Sq(-a) == Sq(a)
  {
  }

  lemma MulPos(a: int, b: int)
    requires a > 0 && b > 0
    ensures a * b > 0
  {
  }

  /** A product of a factor of at least 2 and a positive factor is at least 2. */
  lemma MulMono(a: int, b: int)
    requires a >= 2 && b >= 1
    ensures a * b >= 2
  {
  }

  lemma MulNonNeg(a: int, b: int)
    requires a >= 0 && b >= 0
    ensures a * b >= 0
  {
  }

  lemma SquareZero(a: int)
    requires Sq(a) <= 0
    ensures a == 0
  {
    if a > 0 {
      MulPos(a, a);
    } else if a < 0 {
      MulPos(-a, -a);
    }
  }

  /** Squaring is monotone on non-negative ints. */
  lemma SquareMono(a: int, b: int)
    requires 0 <= a <= b
    ensures Sq(a) <= Sq(b)
  {
    MulNonNeg(a, b - a);
    MulNonNeg(b, b - a);
    assert a * b - a * a == a * (b - a);
    assert b * b - a * b == b * (b - a);
  }

  /** Squaring is strictly monotone on non-negative ints. */
  lemma SquareStrictMono(a: int, b: int)
    requires 0 <= a < b
    ensures Sq(a) < Sq(b)
  {
    MulNonNeg(a, b - a);
    MulPos(b, b - a);
    assert a * b - a * a == a * (b - a);
    assert b * b - a * b == b * (b - a);
  }

  lemma RealMulPos(a: real, b: real)
    requires a > 0.0 && b > 0.0
    ensures a * b > 0.0
  {
  }

  /** Squaring is monotone on non-negative reals. */
  lemma RealSquareMono(a: real, b: real)
    requires 0.0 <= a <= b
    ensures a * a <= b * b
  {
    if a < b {
      RealSquareStrictMono(a, b);
    }
  }

  /** Squaring is strictly monotone on non-negative reals. */
  lemma RealSquareStrictMono(a: real, b: real)
    requires 0.0 <= a < b
    ensures a * a < b * b
  {
    RealMulPos(b - a, b + a);
    assert b * b - a * a == (b - a) * (b + a);
  }

  /** An integer square, read as a real, is the square of the real. */
  lemma SqAsReal(a: int)
    ensures Sq(a) as real == (a as real) * (a as real)
  {
  }

  /** Squares of non-negative ints compare as the ints do. */
  lemma SquareLtInv(a: int, b: int)
    requires 0 <= a && 0 <= b
    requires Sq(a) < Sq(b)
    ensures a < b
  {
    if b <= a {
      SquareMono(b, a);
    }
  }

  /** A point is at least as far from another as their vertical offset. */
  lemma SqDistAtLeastDy(p: Point, q: Point)
    ensures SqDist(p, q) >= Sq(q.y - p.y)
  {
    SquareNonNeg(p.x - q.x);
    assert Sq(p.y - q.y) == Sq(q.y - p.y);
  }

  /** A point is at least as far from another as their horizontal offset. */
  lemma SqDistAtLeastDx(p: Point, q: Point)
    ensures SqDist(p, q) >= Sq(q.x - p.x)
  {
    SquareNonNeg(p.y - q.y);
    assert Sq(p.x - q.x) == Sq(q.x - p.x);
  }
}
