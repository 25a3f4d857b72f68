/**
 * An immutable 2D point (core/Point2.kt). Coordinates are exact integers in
 * place of the library's floats, and so is the factor of `times`; the Euclidean
 * distance is represented by its square, which orders pairs of points exactly as
 * the distance does.
 */
module Points {
  import opened Errors

  datatype Point2 = Point2(x: int, y: int)

  /** The default constructor `Point2()`. */
  const Origin: Point2 := Point2(0, 0)

  /** The copy constructor `Point2(point)`. */
  function Copy(p: Point2): (q: Point2)
    ensures q.x == p.x && q.y == p.y
    ensures Equals(q, p)
  {
    Point2(p.x, p.y)
  }

  /** `get(index)`: x for 0, y for 1, an out-of-bounds error otherwise. */
  function Get(p: Point2, index: int): Result<int>
  {
    if index == 0 then Success(p.x)
    else if index == 1 then Success(p.y)
    else Failure(IndexOutOfBounds(index))
  }

  /** `times(scalar)`: both coordinates multiplied by the scalar. */
  function Times(p: Point2, k: int): Point2
  {
    Point2(p.x * k, p.y * k)
  }

  /** The square of `distance`: (ax - bx)^2 + (ay - by)^2. */
  function SqDistance(a: Point2, b: Point2): int
  {
    (a.x - b.x) * (a.x - b.x) + (a.y - b.y) * (a.y - b.y)
  }

  /** `equals`: exact componentwise comparison. */
  predicate Equals(a: Point2, b: Point2)
  {
    a.x == b.x && a.y == b.y
  }

  /** The angles `rotate` recognises exactly: 0, pi/2, pi, 3*pi/2 and 2*pi radians. */
  datatype QuarterTurn = Zero | HalfPi | Pi | ThreeHalvesPi | TwoPi

  /** The exact branches of `rotate` about the origin. */
  function Rotate(p: Point2, angle: QuarterTurn): Point2
  {
    match angle
    case Zero | TwoPi => Point2(p.x, p.y)
    case HalfPi => Point2(-p.y, p.x)
    case Pi => Point2(-p.x, -p.y)
    case ThreeHalvesPi => Point2(p.y, -p.x)
  }

  /** The default point is what scaling by 0 gives, lies at squared distance x^2 + y^2 from p, and stays put under every rotation. */
  lemma OriginProperties(p: Point2, angle: QuarterTurn)
    ensures Times(p, 0) == Origin
    ensures SqDistance(Origin, p) == p.x * p.x + p.y * p.y
    ensures Rotate(Origin, angle) == Origin
  {
  }

  /** `get` accepts exactly the indices 0 and 1, and the two coordinates it returns rebuild the point. */
  lemma GetRoundTrip(p: Point2, index: int)
    ensures Get(p, index).Success? <==> index == 0 || index == 1
    ensures Get(p, index).Failure? ==> Get(p, index).error == IndexOutOfBounds(index)
    ensures Point2(Get(p, 0).value, Get(p, 1).value) == p
  {
  }

  /** Equality is componentwise: `equals` coincides with value equality. */
  lemma EqualsIsIdentity(a: Point2, b: Point2)
    ensures Equals(a, b) <==> a == b
    ensures Equals(a, b) ==> Equals(b, a)
  {
  }

  /** The squared distance is non-negative and symmetric, and zero exactly between equal points. */
  lemma SqDistanceIsMetric(a: Point2, b: Point2)
    ensures SqDistance(a, b) >= 0
    ensures SqDistance(a, b) == SqDistance(b, a)
    ensures SqDistance(a, b) == 0 <==> a == b
  {
    SquareNonNegative(a.x - b.x);
    SquareNonNegative(a.y - b.y);
    assert a != b ==> a.x != b.x || a.y != b.y;
  }

  /** A square is non-negative, and positive when the number is not zero. */
  lemma SquareNonNegative(v: int)
    ensures v * v >= 0
    ensures v != 0 ==> v * v > 0
  {
    if v < 0 {
      assert v * v == (-v) * (-v);
    }
  }

  /** Multiplying by a positive number preserves strict and non-strict order. */
  lemma MulPreservesOrder(c: int, a: int, b: int)
    requires c > 0
    ensures a <= b <==> c * a <= c * b
    ensures a < b <==> c * a < c * b
  {
    if a <= b {
      assert c * b - c * a == c * (b - a);
    } else {
      assert c * a - c * b == c * (a - b);
    }
  }

  /** `times(k)` applied to every point of a list. */
  function ScaleAll(points: seq<Point2>, k: int): (r: seq<Point2>)
    ensures |r| == |points|
    ensures forall i :: 0 <= i < |points| ==> r[i] == Times(points[i], k)
  {
    seq(|points|, i requires 0 <= i < |points| => Times(points[i], k))
  }

  /** Scaling a list with one more point in front scales that point and the rest. */
  lemma ScaleAllCons(p: Point2, s: seq<Point2>, k: int)
    ensures ScaleAll([p] + s, k) == [Times(p, k)] + ScaleAll(s, k)
  {
  }

  /** The distance from (1,2) to (4,6) is 5. */
  lemma SqDistanceExample()
    ensures SqDistance(Point2(1, 2), Point2(4, 6)) == 25
  {
  }

  /** Scaling both points by k scales their squared distance by k^2. */
  lemma TimesScalesSqDistance(a: Point2, b: Point2, k: int)
    ensures SqDistance(Times(a, k), Times(b, k)) == k * k * SqDistance(a, b)
  {
    var dx, dy := a.x - b.x, a.y - b.y;
    assert a.x * k - b.x * k == dx * k;
    assert a.y * k - b.y * k == dy * k;
    assert (dx * k) * (dx * k) == k * k * (dx * dx);
    assert (dy * k) * (dy * k) == k * k * (dy * dy);
  }

  /** Scaling by 1 is the identity and scalings compose by multiplying the factors. */
  lemma TimesComposes(p: Point2, j: int, k: int)
    ensures Times(p, 1) == p
    ensures Times(Times(p, j), k) == Times(p, j * k)
  {
  }

  /** Quarter turns compose as expected and undo each other. */
  lemma RotateComposes(p: Point2)
    ensures Rotate(Rotate(p, HalfPi), HalfPi) == Rotate(p, Pi)
    ensures Rotate(Rotate(p, HalfPi), ThreeHalvesPi) == p
    ensures Rotate(Rotate(p, Pi), Pi) == p
    ensures Rotate(p, Zero) == p && Rotate(p, TwoPi) == p
  {
  }

  /** A quarter-turn rotation about the origin preserves the distance between two points. */
  lemma RotatePreservesSqDistance(a: Point2, b: Point2, angle: QuarterTurn)
    ensures SqDistance(Rotate(a, angle), Rotate(b, angle)) == SqDistance(a, b)
  {
  }

  /** Rotating (1,0) by 90, 180, 270 and 360 degrees. */
  lemma RotateExamples()
    ensures Rotate(Point2(1, 0), HalfPi) == Point2(0, 1)
    ensures Rotate(Point2(1, 0), Pi) == Point2(-1, 0)
    ensures Rotate(Point2(1, 0), ThreeHalvesPi) == Point2(0, -1)
    ensures Rotate(Point2(1, 0), TwoPi) == Point2(1, 0)
  {
  }
}
