/**
 * An immutable 2D vector (core/Vec2.kt) with exact real components and the
 * componentwise algebra the library defines on it.
 */
module Vectors {
  import opened Errors
  import Points

  datatype Vec2 = Vec2(x: real, y: real)

  /** DEFAULT_EPSILON, the tolerance `approxEqual` uses when none is given. */
  const DefaultEpsilon: real := 0.0001

  /** The companion constants `zero()`, `one()`, `unitX()` and `unitY()`. */
  const Zero: Vec2 := Vec2(0.0, 0.0)
  const One: Vec2 := Vec2(1.0, 1.0)
  const UnitX: Vec2 := Vec2(1.0, 0.0)
  const UnitY: Vec2 := Vec2(0.0, 1.0)

  /** The copy constructor `Vec2(vector)`. */
  function Copy(v: Vec2): (w: Vec2)
    ensures w.x == v.x && w.y == v.y
    ensures Equals(w, v)
  {
    Vec2(v.x, v.y)
  }

  /** The constructor `Vec2(a, b)`: the displacement from point a to point b. */
  function FromPoints(a: Points.Point2, b: Points.Point2): Vec2
  {
    Vec2((b.x - a.x) as real, (b.y - a.y) as real)
  }

  /** `get(index)`: x for 0, y for 1, an out-of-bounds error otherwise. */
  function Get(v: Vec2, index: int): Result<real>
  {
    if index == 0 then Success(v.x)
    else if index == 1 then Success(v.y)
    else Failure(IndexOutOfBounds(index))
  }

  function Plus(v: Vec2, w: Vec2): Vec2
  {
    Vec2(v.x + w.x, v.y + w.y)
  }

  function Minus(v: Vec2, w: Vec2): Vec2
  {
    Vec2(v.x - w.x, v.y - w.y)
  }

  /** `v * scalar`. */
  function Times(v: Vec2, k: real): Vec2
  {
    Vec2(v.x * k, v.y * k)
  }

  /** `scalar * v`, the companion's `Float.times`. */
  function ScalarTimes(k: real, v: Vec2): Vec2
  {
    Vec2(k * v.x, k * v.y)
  }

  /** `v / scalar`: an arithmetic error for a zero scalar. */
  function Div(v: Vec2, k: real): Result<Vec2>
  {
    if k != 0.0 then Success(Vec2(v.x / k, v.y / k))
    else Failure(Arithmetic("Division by zero"))
  }

  /** `unaryMinus`. */
  function Neg(v: Vec2): Vec2
  {
    Vec2(-v.x, -v.y)
  }

  function Dot(v: Vec2, w: Vec2): real
  {
    v.x * w.x + v.y * w.y
  }

  /** The scalar (z-component) cross product. */
  function Cross(v: Vec2, w: Vec2): real
  {
    v.x * w.y - v.y * w.x
  }

  /** The vector turned a quarter turn counter-clockwise. */
  function Perpendicular(v: Vec2): Vec2
  {
    Vec2(-v.y, v.x)
  }

  function Abs(r: real): real
  {
    if r < 0.0 then -r else r
  }

  /** `approxEqual`: both components differ by strictly less than epsilon. */
  predicate ApproxEqual(v: Vec2, w: Vec2, epsilon: real)
  {
    Abs(v.x - w.x) < epsilon && Abs(v.y - w.y) < epsilon
  }

  /** `equals`: exact componentwise comparison. */
  predicate Equals(v: Vec2, w: Vec2)
  {
    v.x == w.x && v.y == w.y
  }

  /** `get` accepts exactly the indices 0 and 1, and the two components it returns rebuild the vector. */
  lemma GetRoundTrip(v: Vec2, index: int)
    ensures Get(v, index).Success? <==> index == 0 || index == 1
    ensures Get(v, index).Failure? ==> Get(v, index).error == IndexOutOfBounds(index)
    ensures Vec2(Get(v, 0).value, Get(v, 1).value) == v
  {
  }

  /** Equality is componentwise: `equals` coincides with value equality. */
  lemma EqualsIsIdentity(v: Vec2, w: Vec2)
    ensures Equals(v, w) <==> v == w
  {
  }

  /** The vector from a to b is the negation of the one from b to a; (5,6) to (7,8) is (2,2). */
  lemma FromPointsProperties(a: Points.Point2, b: Points.Point2)
    ensures FromPoints(a, b) == Neg(FromPoints(b, a))
    ensures FromPoints(a, a) == Zero
    ensures FromPoints(Points.Point2(5, 6), Points.Point2(7, 8)) == Vec2(2.0, 2.0)
  {
  }

  /** The squared length of the vector from a to b is the squared distance between them. */
  lemma FromPointsLength(a: Points.Point2, b: Points.Point2)
    ensures Dot(FromPoints(a, b), FromPoints(a, b)) == Points.SqDistance(a, b) as real
  {
    var dx, dy := b.x - a.x, b.y - a.y;
    assert (dx as real) * (dx as real) == (dx * dx) as real;
    assert (dy as real) * (dy as real) == (dy * dy) as real;
    assert (a.x - b.x) * (a.x - b.x) == dx * dx;
    assert (a.y - b.y) * (a.y - b.y) == dy * dy;
  }

  /** Addition and subtraction are componentwise and undo each other; addition commutes. */
  lemma PlusMinusInverse(v: Vec2, w: Vec2)
    ensures Minus(Plus(v, w), w) == v
    ensures Plus(Minus(v, w), w) == v
    ensures Plus(v, w) == Plus(w, v)
    ensures Minus(v, w) == Plus(v, Neg(w))
    ensures Plus(v, Zero) == v
  {
  }

  /**
   * The companion constants: zero is what scaling by 0 gives and is neutral for
   * addition, one is the sum of the two unit vectors, the unit vectors are
   * orthonormal with unitY the perpendicular of unitX, and every vector is
   * x * unitX + y * unitY.
   */
  lemma CompanionConstants(v: Vec2)
    ensures Times(v, 0.0) == Zero && Plus(Zero, v) == v
    ensures Plus(UnitX, UnitY) == One
    ensures Perpendicular(UnitX) == UnitY
    ensures Dot(UnitX, UnitY) == 0.0 && Dot(UnitX, UnitX) == 1.0 && Dot(UnitY, UnitY) == 1.0
    ensures Cross(UnitX, UnitY) == 1.0
    ensures v == Plus(Times(UnitX, v.x), Times(UnitY, v.y))
  {
  }

  /** Scaling from either side agrees, and negation is scaling by -1. */
  lemma TimesProperties(v: Vec2, k: real)
    ensures ScalarTimes(k, v) == Times(v, k)
    ensures Neg(v) == Times(v, -1.0)
    ensures Neg(Neg(v)) == v
    ensures Times(v, 1.0) == v
  {
  }

  /** Division fails exactly for a zero scalar and otherwise undoes scaling. */
  lemma DivInvertsTimes(v: Vec2, k: real)
    ensures Div(v, k).Failure? <==> k == 0.0
    ensures Div(v, 0.0) == Failure(Arithmetic("Division by zero"))
    ensures k != 0.0 ==> Div(Times(v, k), k) == Success(v)
  {
    if k != 0.0 {
      var w := Times(v, k);
      assert Div(w, k) == Success(Vec2(w.x / k, w.y / k));
      assert w.x / k == v.x by { assert w.x == v.x * k; }
      assert w.y / k == v.y by { assert w.y == v.y * k; }
    }
  }

  /** The dot product commutes; (1,2).(3,4) = 11. */
  lemma DotProperties(v: Vec2, w: Vec2)
    ensures Dot(v, w) == Dot(w, v)
    ensures Dot(Vec2(1.0, 2.0), Vec2(3.0, 4.0)) == 11.0
  {
  }

  /** The cross product is antisymmetric, vanishes on a vector with itself; (1,2)x(3,4) = -2. */
  lemma CrossProperties(v: Vec2, w: Vec2)
    ensures Cross(v, w) == -Cross(w, v)
    ensures Cross(v, v) == 0.0
    ensures Cross(Vec2(1.0, 2.0), Vec2(3.0, 4.0)) == -2.0
  {
  }

  /** The perpendicular is orthogonal to the vector, and applying it twice negates the vector. */
  lemma PerpendicularProperties(v: Vec2)
    ensures Dot(v, Perpendicular(v)) == 0.0
    ensures Perpendicular(Perpendicular(v)) == Neg(v)
    ensures Cross(v, Perpendicular(v)) == Dot(v, v)
  {
  }

  /** `approxEqual` is symmetric, and a vector is approximately equal to itself exactly when epsilon > 0. */
  lemma ApproxEqualProperties(v: Vec2, w: Vec2, epsilon: real)
    ensures ApproxEqual(v, w, epsilon) <==> ApproxEqual(w, v, epsilon)
    ensures ApproxEqual(v, v, epsilon) <==> epsilon > 0.0
    ensures ApproxEqual(v, w, epsilon) ==> epsilon > 0.0
    ensures v == w ==> ApproxEqual(v, w, DefaultEpsilon)
  {
  }
}
