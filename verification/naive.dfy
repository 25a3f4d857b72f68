/**
 * The brute-force closest-pair solver (algorithms/closestpair/ClosestPairNaive.kt).
 * It keeps a copy of the input, refuses fewer than two points, and `Run`
 * examines every pair of positions i < j in lexicographic order, keeping the
 * first pair of smallest distance. Its specification is `BruteForcePair`, the
 * fold of `PairScan` over all pairs; `IsFirstClosest` characterises the same
 * pair independently.
 */
module NaiveSolver {
  import opened Errors
  import opened Points
  import opened ClosestPairs
  import opened PairScan
  import Algorithms

  /** `getName()`. */
  const Name: string := "Closest Pair Naive"

  /** `getId()`. */
  function Id(): string
  {
    Algorithms.Id(Group, Name)
  }

  /** An instance: the copy of the input collection. */
  datatype ClosestPairNaive = ClosestPairNaive(points: seq<Point2>)
  {
    /** What construction guarantees. */
    predicate Valid()
    {
      |points| >= 2
    }

    /** `run()`: the double loop over all pairs i < j (`ScanRow` with no window limit), starting from +infinity. */
    method Run() returns (r: ClosestResult)
      requires Valid()
      ensures r.pair == BruteForcePair(points)
      ensures r.squaredDistance == PairSqDistance(r.pair)
    {
      var n := |points|;
      ghost var init := StartBest(points);
      var best := Best((points[0], points[1]), Infinity);
      for i := 0 to n
        invariant best == Scan(points, Candidates(n, n, i), init)
      {
        best := ScanRow(points, n, i, best, init);
      }
      BruteForceBound(points);
      r := ClosestResult(best.bound.value, best.pair);
    }
  }

  /** The constructor: a copy of the input, or IllegalArgumentException for fewer than two points. */
  function New(input: seq<Point2>): (r: Result<ClosestPairNaive>)
    ensures r.Success? <==> |input| >= 2
    ensures r.Success? ==> r.value.Valid() && r.value.points == input
    ensures r.Failure? ==> r.error.IllegalArgument?
  {
    if |input| < 2 then Failure(IllegalArgument("Input must contain at least 2 elements"))
    else Success(ClosestPairNaive(input))
  }

  /** The loop variables before the first iteration: the pair (points[0], points[1]) and +infinity. */
  function StartBest(points: seq<Point2>): Best
    requires |points| >= 2
  {
    Best((points[0], points[1]), Infinity)
  }

  /** The pair `run()` returns: the loop's fold over every pair i < j. */
  function BruteForcePair(points: seq<Point2>): Pair
    requires |points| >= 2
  {
    var n := |points|;
    Scan(points, Candidates(n, n, n), StartBest(points)).pair
  }

  /**
   * (points[i], points[j]) is a closest pair of positions i < j, and every pair
   * (k, l) before it in lexicographic order is strictly farther apart: the first
   * closest pair in a window as long as the list, which holds every pair k < l.
   */
  ghost predicate IsFirstClosest(points: seq<Point2>, i: int, j: int)
  {
    FirstClosestInWindow(points, |points|, i, j)
  }

  /** The brute-force pair is the first closest pair, and the loop's final distance is its distance. */
  lemma BruteForceIsFirstClosest(points: seq<Point2>) returns (i: int, j: int)
    requires |points| >= 2
    ensures IsFirstClosest(points, i, j)
    ensures BruteForcePair(points) == (points[i], points[j])
    ensures Scan(points, Candidates(|points|, |points|, |points|), StartBest(points)) ==
            Best((points[i], points[j]), Finite(SqDistance(points[i], points[j])))
  {
    var n := |points|;
    assert InWindow(n, n, 0, 1) && Below(SqDistance(points[0], points[1]), Infinity);
    i, j := ScanWindow(points, n, StartBest(points));
  }

  /** The loop ends with a finite distance: that of the brute-force pair. */
  lemma BruteForceBound(points: seq<Point2>)
    requires |points| >= 2
    ensures Scan(points, Candidates(|points|, |points|, |points|), StartBest(points)) ==
            Best(BruteForcePair(points), Finite(PairSqDistance(BruteForcePair(points))))
  {
    var i, j := BruteForceIsFirstClosest(points);
  }

  /** At most one pair of positions is the first closest pair. */
  lemma FirstClosestUnique(points: seq<Point2>, i: int, j: int, k: int, l: int)
    requires IsFirstClosest(points, i, j) && IsFirstClosest(points, k, l)
    ensures i == k && j == l
  {
    if LexBefore(k, l, i, j) {
      assert false;
    } else if LexBefore(i, j, k, l) {
      assert false;
    }
  }

  /** Conversely, any first closest pair is the brute-force pair. */
  lemma FirstClosestIsBruteForce(points: seq<Point2>, i: int, j: int)
    requires IsFirstClosest(points, i, j)
    ensures BruteForcePair(points) == (points[i], points[j])
  {
    var k, l := BruteForceIsFirstClosest(points);
    FirstClosestUnique(points, i, j, k, l);
  }

  /** Both points of the brute-force pair come from the input, at two different positions. */
  lemma BruteForceFromInput(points: seq<Point2>)
    requires |points| >= 2
    ensures BruteForcePair(points).0 in points && BruteForcePair(points).1 in points
    ensures exists i, j :: 0 <= i < j < |points| && BruteForcePair(points) == (points[i], points[j])
  {
    var i, j := BruteForceIsFirstClosest(points);
  }

  /** No pair of input positions is closer than the brute-force pair. */
  lemma BruteForceIsMinimal(points: seq<Point2>, k: int, l: int)
    requires |points| >= 2 && 0 <= k < l < |points|
    ensures PairSqDistance(BruteForcePair(points)) <= SqDistance(points[k], points[l])
  {
    var i, j := BruteForceIsFirstClosest(points);
  }

  /** With a point repeated in the input the closest pair is a pair of equal points, at distance 0. */
  lemma BruteForceDuplicate(points: seq<Point2>, k: int, l: int)
    requires 0 <= k < l < |points| && points[k] == points[l]
    ensures PairSqDistance(BruteForcePair(points)) == 0
    ensures BruteForcePair(points).0 == BruteForcePair(points).1
  {
    BruteForceIsMinimal(points, k, l);
    SqDistanceIsMetric(points[k], points[l]);
    SqDistanceIsMetric(BruteForcePair(points).0, BruteForcePair(points).1);
  }

  /** A two-point input returns exactly that pair, in that order. */
  lemma BruteForceTwoPoints(a: Point2, b: Point2)
    ensures BruteForcePair([a, b]) == (a, b)
  {
    var i, j := BruteForceIsFirstClosest([a, b]);
  }

  /** Scaling by a non-zero factor keeps the first closest pair of positions. */
  lemma ScaledFirstClosest(points: seq<Point2>, k: int, i: int, j: int)
    requires k != 0 && IsFirstClosest(points, i, j)
    ensures IsFirstClosest(ScaleAll(points, k), i, j)
  {
    var scaled := ScaleAll(points, k);
    assert k * k > 0 by {
      if k < 0 { assert k * k == (-k) * (-k); }
    }
    TimesScalesSqDistance(points[i], points[j], k);
    forall a, b | 0 <= a < b < |points|
      ensures SqDistance(scaled[i], scaled[j]) <= SqDistance(scaled[a], scaled[b])
      ensures LexBefore(a, b, i, j) ==> SqDistance(scaled[i], scaled[j]) < SqDistance(scaled[a], scaled[b])
    {
      TimesScalesSqDistance(points[a], points[b], k);
      MulPreservesOrder(k * k, SqDistance(points[i], points[j]), SqDistance(points[a], points[b]));
    }
  }

  /** Scaling every point by a non-zero factor selects the same pair, scaled, even among ties. */
  lemma BruteForceScaleInvariant(points: seq<Point2>, k: int)
    requires |points| >= 2 && k != 0
    ensures BruteForcePair(ScaleAll(points, k)) ==
            (Times(BruteForcePair(points).0, k), Times(BruteForcePair(points).1, k))
  {
    var i, j := BruteForceIsFirstClosest(points);
    var i', j' := BruteForceIsFirstClosest(ScaleAll(points, k));
    ScaledFirstClosest(points, k, i, j);
    FirstClosestUnique(ScaleAll(points, k), i, j, i', j');
  }

  /** The id of the brute-force solver. */
  lemma IdExample()
    ensures Id() == "closest-pair:closest-pair-naive"
  {
    GroupNorm();
    Algorithms.NormConcat(Group, " Naive");
    assert Name == Group + " Naive";
    assert Algorithms.Norm(" Naive") == "-naive";
    assert "closest-pair:closest-pair-naive" == "closest-pair" + ":" + "closest-pair" + "-naive";
  }
}
