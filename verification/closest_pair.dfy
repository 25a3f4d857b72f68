/**
 * What every closest-pair solver shares (algorithms/closestpair/IClosestPair.kt):
 * the result record and the algorithm group.
 */
module ClosestPairs {
  import opened Points
  import Algorithms

  /** An ordered pair of points, Kotlin's `Pair<Point2, Point2>`. */
  type Pair = (Point2, Point2)

  /** `Result`: the closest pair and its distance, carried here as the squared distance. */
  datatype ClosestResult = ClosestResult(squaredDistance: int, pair: Pair)

  /** `getGroup()` of every closest-pair solver. */
  const Group: string := "Closest Pair"

  /** The group in normalised form: the part of every solver's id before the colon. */
  lemma GroupNorm()
    ensures Algorithms.Norm(Group) == "closest-pair"
  {
  }

  /** The squared distance between the two points of a pair. */
  function PairSqDistance(p: Pair): int
  {
    SqDistance(p.0, p.1)
  }

  /** Both points of a pair multiplied by k. */
  function ScalePair(p: Pair, k: int): Pair
  {
    (Times(p.0, k), Times(p.1, k))
  }

  /** Scaling a pair by k multiplies its squared distance by k^2. */
  lemma ScalePairSqDistance(p: Pair, k: int)
    ensures PairSqDistance(ScalePair(p, k)) == k * k * PairSqDistance(p)
  {
    TimesScalesSqDistance(p.0, p.1, k);
  }
}
