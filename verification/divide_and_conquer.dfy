/**
 * The divide-and-conquer closest-pair solver
 * (algorithms/closestpair/ClosestPairDivideAndConquer.kt).
 *
 * Construction sorts the input by x and by y (stably) and refuses fewer than two
 * points. `closestPair(px, py)` hands three points or fewer to the naive solver;
 * otherwise it splits px in the middle, splits py by the x of the last left point,
 * recurses on both halves, and looks for a closer pair straddling the split among
 * the points of py whose x is within distance d of the middle point, each compared
 * with at most the six following ones. The three candidates are combined with
 * strict comparisons, the split pair winning every tie.
 *
 * Distances are squared throughout: d = min(d1, d2) becomes D = min(D1, D2), and
 * the strip test |x - midX| <= d becomes (x - midX)^2 <= D, which is the same
 * test because d is non-negative.
 */
module DivideAndConquerSolver {
  import opened Errors
  import opened Points
  import opened ClosestPairs
  import opened PairScan
  import opened Presort
  import Algorithms
  import NaiveSolver

  /** `getName()`. */
  const Name: string := "Closest Pair Divide and Conquer"

  /** `getId()`. */
  function Id(): string
  {
    Algorithms.Id(Group, Name)
  }

  /** How many following strip points each strip point is compared with: `j in i + 1 until i + 7`. */
  const Window: nat := 6

  /** An instance: the input sorted by x and, separately, by y. */
  datatype ClosestPairDivideAndConquer = ClosestPairDivideAndConquer(sortedByX: seq<Point2>, sortedByY: seq<Point2>)
  {
    /** What construction guarantees: two sortings of the same points, at least two of them. */
    predicate Valid()
    {
      |sortedByX| >= 2 && Consistent(sortedByX, sortedByY)
    }

    /** `run()`: the recursive closest pair of the two sortings, with its distance. */
    method Run() returns (r: ClosestResult)
      requires Valid()
      ensures r.pair == DivideAndConquerPair(sortedByX, sortedByY)
      ensures r.pair.0 in sortedByX && r.pair.1 in sortedByX
      ensures r.squaredDistance == PairSqDistance(r.pair)
    {
      var pair := ClosestPair(sortedByX, sortedByY);
      ResultFromInput(sortedByX, sortedByY);
      r := ClosestResult(SqDistance(pair.0, pair.1), pair);
    }
  }

  /** px and py hold the same points, px ordered by x and py ordered by y. */
  predicate Consistent(px: seq<Point2>, py: seq<Point2>)
  {
    SortedBy(px, X) && SortedBy(py, Y) && multiset(px) == multiset(py)
  }

  /** The constructor: both sortings of the input, or IllegalArgumentException for fewer than two points. */
  function New(input: seq<Point2>): (r: Result<ClosestPairDivideAndConquer>)
    ensures r.Success? <==> |input| >= 2
    ensures r.Success? ==> r.value.Valid() && multiset(r.value.sortedByX) == multiset(input)
    ensures r.Success? ==> r.value.sortedByX == SortBy(input, X) && r.value.sortedByY == SortBy(input, Y)
    ensures r.Failure? ==> r.error.IllegalArgument?
  {
    SortByCorrect(input, X);
    SortByCorrect(input, Y);
    var c := ClosestPairDivideAndConquer(SortBy(input, X), SortBy(input, Y));
    if |input| < 2 then Failure(IllegalArgument("Input must contain at least 2 elements"))
    else Success(c)
  }

  /** `it.x in (midX - d)..(midX + d)`, squared. */
  function InStrip(midX: int, bound: int): Point2 -> bool
  {
    (p: Point2) => (p.x - midX) * (p.x - midX) <= bound
  }

  /** `sy`: the points of py near the vertical line through the middle point of px, in py's order. */
  function Strip(px: seq<Point2>, py: seq<Point2>, bound: int): seq<Point2>
    requires |px| >= 1
  {
    Filter(py, InStrip(px[|px| / 2].x, bound))
  }

  /** The loop variables before the strip loop: the pair (px[0], px[1]) and the distance d. */
  function SplitSeed(px: seq<Point2>, bound: int): Best
    requires |px| >= 2
  {
    Best((px[0], px[1]), Finite(bound))
  }

  /**
   * The strip holds exactly the points of py that pass the strip test, in py's
   * order, so it is sorted by y when py is.
   */
  lemma StripMembership(px: seq<Point2>, py: seq<Point2>, bound: int)
    requires |px| >= 1
    ensures var midX := px[|px| / 2].x;
      forall p :: p in Strip(px, py, bound) <==> p in py && (p.x - midX) * (p.x - midX) <= bound
    ensures SortedBy(py, Y) ==> SortedBy(Strip(px, py, bound), Y)
  {
    var f := InStrip(px[|px| / 2].x, bound);
    FilterMembership(py, f);
    if SortedBy(py, Y) {
      FilterSorted(py, f, Y);
    }
  }

  /**
   * The code tests `x in (midX - d)..(midX + d)` with d the square root of the
   * squared bound. For an integer x that is the interval test with r, the integer
   * part of that square root: (x - midX)^2 <= bound exactly when |x - midX| <= r.
   */
  lemma SquaredStripTest(x: int, midX: int, bound: int, r: int)
    requires 0 <= r && r * r <= bound < (r + 1) * (r + 1)
    ensures (x - midX) * (x - midX) <= bound <==> midX - r <= x <= midX + r
  {
    var a := if x >= midX then x - midX else midX - x;
    assert (x - midX) * (x - midX) == a * a;
    if a <= r {
      assert a * a <= r * r by {
        if a > 0 {
          MulPreservesOrder(a, a, r);
          MulPreservesOrder(r, a, r);
        }
      }
    } else {
      assert (r + 1) * (r + 1) <= a * a by {
        MulPreservesOrder(r + 1, r + 1, a);
        MulPreservesOrder(a, r + 1, a);
      }
    }
  }

  /** The integer part of the square root: every squared bound has the r `SquaredStripTest` asks for. */
  function FloorSqrt(n: nat): (r: nat)
    ensures r * r <= n < (r + 1) * (r + 1)
  {
    if n == 0 then 0
    else
      var s := FloorSqrt(n - 1);
      if (s + 1) * (s + 1) <= n then s + 1 else s
  }

  /** The pair `closestSplitPair` returns: the windowed fold over the strip from the seed. */
  function SplitPair(px: seq<Point2>, py: seq<Point2>, bound: int): Pair
    requires |px| >= 2
  {
    var sy := Strip(px, py, bound);
    Scan(sy, Candidates(|sy|, Window, |sy|), SplitSeed(px, bound)).pair
  }

  /**
   * `closestSplitPair(px, py, d)`: the strip, then the double loop over it, each
   * strip point compared with at most the six following ones (`ScanRow` with
   * window 6), starting from the pair (px[0], px[1]) and the distance d.
   */
  method ClosestSplitPair(px: seq<Point2>, py: seq<Point2>, bound: int) returns (r: Pair)
    requires |px| >= 2
    ensures r == SplitPair(px, py, bound)
  {
    var midX := px[|px| / 2].x;
    var sy := Filter(py, InStrip(midX, bound));
    ghost var init := SplitSeed(px, bound);
    var best := Best((px[0], px[1]), Finite(bound));
    for i := 0 to |sy|
      invariant best == Scan(sy, Candidates(|sy|, Window, i), init)
    {
      best := ScanRow(sy, Window, i, best, init);
    }
    r := best.pair;
  }

  /**
   * What the strip loop finds: either no compared strip pair is closer than d and
   * the seed (px[0], px[1]) comes back, or the first closest compared strip pair,
   * strictly closer than d.
   */
  lemma SplitPairSpec(px: seq<Point2>, py: seq<Point2>, bound: int) returns (i: int, j: int)
    requires |px| >= 2
    ensures i == -1 ==> SplitPair(px, py, bound) == (px[0], px[1])
    ensures i == -1 ==> forall k, l :: InWindow(|Strip(px, py, bound)|, Window, k, l) ==>
      SqDistance(Strip(px, py, bound)[k], Strip(px, py, bound)[l]) >= bound
    ensures i != -1 ==> FirstClosestInWindow(Strip(px, py, bound), Window, i, j)
    ensures i != -1 ==> SplitPair(px, py, bound) == (Strip(px, py, bound)[i], Strip(px, py, bound)[j])
    ensures i != -1 ==> SqDistance(Strip(px, py, bound)[i], Strip(px, py, bound)[j]) < bound
  {
    i, j := ScanWindow(Strip(px, py, bound), Window, SplitSeed(px, bound));
  }

  /** Both points of the split pair come from px or from py. */
  lemma SplitPairFrom(px: seq<Point2>, py: seq<Point2>, bound: int)
    requires |px| >= 2
    ensures SplitPair(px, py, bound).0 in px + py && SplitPair(px, py, bound).1 in px + py
  {
    var i, j := SplitPairSpec(px, py, bound);
    var sy := Strip(px, py, bound);
    FilterMembership(py, InStrip(px[|px| / 2].x, bound));
    if i != -1 {
      assert sy[i] in sy && sy[j] in sy;
    }
  }

  /** The `when` that picks among the left pair, the right pair and the split pair. */
  function Combine(left: Pair, right: Pair, split: Pair): Pair
  {
    var d1, d2, d3 := PairSqDistance(left), PairSqDistance(right), PairSqDistance(split);
    if d1 < d2 && d1 < d3 then left
    else if d2 < d1 && d2 < d3 then right
    else split
  }

  function Min(a: int, b: int): int
  {
    if a <= b then a else b
  }

  /**
   * When the halves' distances differ, the combination is a pair of the smallest
   * of the three distances, the split pair on a tie with it; when they are equal,
   * the split pair is returned whatever its distance.
   */
  lemma CombineChoice(left: Pair, right: Pair, split: Pair)
    ensures var d1, d2, d3 := PairSqDistance(left), PairSqDistance(right), PairSqDistance(split);
      var r := Combine(left, right, split);
      (d1 != d2 ==> PairSqDistance(r) == Min(Min(d1, d2), d3) && r in {left, right, split}) &&
      (d3 <= Min(d1, d2) ==> r == split) &&
      (d1 == d2 ==> r == split)
  {
  }

  /** `leftPy`: the points of py whose x is at most that of the last left point. */
  function LeftOf(t: int): Point2 -> bool
  {
    (p: Point2) => p.x <= t
  }

  /** `rightPy`: the points of py whose x is beyond that of the last left point. */
  function RightOf(t: int): Point2 -> bool
  {
    (p: Point2) => p.x > t
  }

  /**
   * `leftPy` and `rightPy` split py by the threshold t: a point goes left exactly
   * when its x is at most t, together they hold every point of py exactly once,
   * and each keeps py's order, so both stay sorted by y.
   */
  lemma PySplit(py: seq<Point2>, t: int)
    ensures forall p :: p in Filter(py, LeftOf(t)) <==> p in py && p.x <= t
    ensures forall p :: p in Filter(py, RightOf(t)) <==> p in py && p.x > t
    ensures multiset(Filter(py, LeftOf(t))) + multiset(Filter(py, RightOf(t))) == multiset(py)
    ensures SortedBy(py, Y) ==> SortedBy(Filter(py, LeftOf(t)), Y) && SortedBy(Filter(py, RightOf(t)), Y)
  {
    FilterMembership(py, LeftOf(t));
    FilterMembership(py, RightOf(t));
    FilterPartition(py, LeftOf(t), RightOf(t));
    if SortedBy(py, Y) {
      FilterSorted(py, LeftOf(t), Y);
      FilterSorted(py, RightOf(t), Y);
    }
  }

  /** `closestPair(px, py)`, as a function: the specification of the recursion. */
  function DivideAndConquerPair(px: seq<Point2>, py: seq<Point2>): Pair
    requires |px| >= 2
    decreases |px|
  {
    if |px| <= 3 then
      NaiveSolver.BruteForcePair(px)
    else
      var mid := |px| / 2;
      var t := px[mid - 1].x;
      var leftPy, rightPy := Filter(py, LeftOf(t)), Filter(py, RightOf(t));
      var left := DivideAndConquerPair(px[..mid], leftPy);
      var right := DivideAndConquerPair(px[mid..], rightPy);
      var bound := Min(PairSqDistance(left), PairSqDistance(right));
      Combine(left, right, SplitPair(px, py, bound))
  }

  /** Both points of the result come from px or from py. */
  lemma {:induction false} DivideAndConquerFrom(px: seq<Point2>, py: seq<Point2>)
    requires |px| >= 2
    ensures DivideAndConquerPair(px, py).0 in px + py && DivideAndConquerPair(px, py).1 in px + py
    decreases |px|, 1
  {
    if |px| <= 3 {
      NaiveSolver.BruteForceFromInput(px);
      DivideAndConquerBase(px, py);
    } else {
      DivideAndConquerHalvesFrom(px, py);
    }
  }

  /** The same for more than three points, from the halves' results and the split pair. */
  lemma {:induction false} DivideAndConquerHalvesFrom(px: seq<Point2>, py: seq<Point2>)
    requires |px| > 3
    ensures DivideAndConquerPair(px, py).0 in px + py && DivideAndConquerPair(px, py).1 in px + py
    decreases |px|, 0
  {
    var mid := |px| / 2;
    var t := px[mid - 1].x;
    var leftPx, rightPx := px[..mid], px[mid..];
    var leftPy, rightPy := Filter(py, LeftOf(t)), Filter(py, RightOf(t));
    DivideAndConquerFrom(leftPx, leftPy);
    DivideAndConquerFrom(rightPx, rightPy);
    var left := DivideAndConquerPair(leftPx, leftPy);
    var right := DivideAndConquerPair(rightPx, rightPy);
    var bound := Min(PairSqDistance(left), PairSqDistance(right));
    var split := SplitPair(px, py, bound);
    DivideAndConquerStep(px, py, leftPx, leftPy, rightPx, rightPy, left, right, bound, split);
    SubListsFrom(px, py, mid, LeftOf(t), RightOf(t));
    SplitPairFrom(px, py, bound);
    var r := Combine(left, right, split);
    assert r == left || r == right || r == split;
  }

  /** The base case: three points or fewer go to the brute-force solver. */
  lemma DivideAndConquerBase(px: seq<Point2>, py: seq<Point2>)
    requires 2 <= |px| <= 3
    ensures DivideAndConquerPair(px, py) == NaiveSolver.BruteForcePair(px)
  {
  }

  /** One level of the recursion, for more than three points. */
  lemma DivideAndConquerUnfold(px: seq<Point2>, py: seq<Point2>)
    requires |px| > 3
    ensures var mid := |px| / 2;
      var left := DivideAndConquerPair(px[..mid], Filter(py, LeftOf(px[mid - 1].x)));
      var right := DivideAndConquerPair(px[mid..], Filter(py, RightOf(px[mid - 1].x)));
      DivideAndConquerPair(px, py) == Combine(left, right, SplitPair(px, py, Min(PairSqDistance(left), PairSqDistance(right))))
  {
  }

  /** The same level, for the halves, their pairs and the split pair already computed. */
  lemma DivideAndConquerStep(px: seq<Point2>, py: seq<Point2>, leftPx: seq<Point2>, leftPy: seq<Point2>, rightPx: seq<Point2>, rightPy: seq<Point2>,
                             left: Pair, right: Pair, bound: int, split: Pair)
    requires |px| > 3
    requires leftPx == px[..|px| / 2] && rightPx == px[|px| / 2..]
    requires leftPy == Filter(py, LeftOf(px[|px| / 2 - 1].x)) && rightPy == Filter(py, RightOf(px[|px| / 2 - 1].x))
    requires |leftPx| >= 2 && |rightPx| >= 2
    requires left == DivideAndConquerPair(leftPx, leftPy) && right == DivideAndConquerPair(rightPx, rightPy)
    requires bound == Min(PairSqDistance(left), PairSqDistance(right)) && split == SplitPair(px, py, bound)
    ensures DivideAndConquerPair(px, py) == Combine(left, right, split)
  {
    DivideAndConquerUnfold(px, py);
  }

  /** The halves and the filtered lists hold only points of px and py. */
  lemma SubListsFrom(px: seq<Point2>, py: seq<Point2>, mid: int, f: Point2 -> bool, g: Point2 -> bool)
    requires 0 <= mid <= |px|
    ensures forall p :: p in px[..mid] + Filter(py, f) ==> p in px + py
    ensures forall p :: p in px[mid..] + Filter(py, g) ==> p in px + py
  {
    FilterMembership(py, f);
    FilterMembership(py, g);
    assert px == px[..mid] + px[mid..];
  }

  /** `closestPair(px, py)`: the naive solver for three points or fewer, otherwise the recursive branch. */
  method ClosestPair(px: seq<Point2>, py: seq<Point2>) returns (r: Pair)
    requires |px| >= 2
    ensures r == DivideAndConquerPair(px, py)
    decreases |px|, 1
  {
    if |px| <= 3 {
      var naive := NaiveSolver.ClosestPairNaive(px).Run();
      r := naive.pair;
      DivideAndConquerBase(px, py);
    } else {
      r := ClosestPairHalves(px, py);
    }
  }

  /**
   * The recursive branch of `closestPair`: split px in the middle and py by the
   * last left point's x, solve both halves, search the strip with the smaller of
   * the two distances, and pick with the `when`.
   */
  method ClosestPairHalves(px: seq<Point2>, py: seq<Point2>) returns (r: Pair)
    requires |px| > 3
    ensures r == DivideAndConquerPair(px, py)
    decreases |px|, 0
  {
    var mid := |px| / 2;
    var leftPx, rightPx := px[..mid], px[mid..];
    assert 2 <= |leftPx| < |px| && 2 <= |rightPx| < |px|;
    var t := leftPx[|leftPx| - 1].x;
    assert t == px[mid - 1].x;
    var leftPy := Filter(py, LeftOf(t));
    var rightPy := Filter(py, RightOf(t));
    var left := ClosestPair(leftPx, leftPy);
    var right := ClosestPair(rightPx, rightPy);
    var d1 := PairSqDistance(left);
    var d2 := PairSqDistance(right);
    var d := if d1 <= d2 then d1 else d2;
    var split := ClosestSplitPair(px, py, d);
    r := Combine(left, right, split);
    DivideAndConquerStep(px, py, leftPx, leftPy, rightPx, rightPy, left, right, d, split);
  }

  /** With consistent sortings every point of the result is an input point. */
  lemma ResultFromInput(px: seq<Point2>, py: seq<Point2>)
    requires |px| >= 2 && Consistent(px, py)
    ensures DivideAndConquerPair(px, py).0 in px && DivideAndConquerPair(px, py).1 in px
  {
    var r := DivideAndConquerPair(px, py);
    DivideAndConquerFrom(px, py);
    assert r.0 in multiset(py) ==> r.0 in multiset(px);
    assert r.1 in multiset(py) ==> r.1 in multiset(px);
  }

  /** Splitting px itself by the last left point's x gives back its two halves when the split x is not repeated. */
  lemma SplitByXIsHalving(px: seq<Point2>)
    requires |px| > 3 && SortedBy(px, X)
    requires px[|px| / 2 - 1].x < px[|px| / 2].x
    ensures var mid, t := |px| / 2, px[|px| / 2 - 1].x;
      Filter(px, LeftOf(t)) == px[..mid] && Filter(px, RightOf(t)) == px[mid..]
  {
    var mid, t := |px| / 2, px[|px| / 2 - 1].x;
    var left, right := px[..mid], px[mid..];
    assert px == left + right;
    SplitSides(px);
    FilterConcat(left, right, LeftOf(t));
    FilterConcat(left, right, RightOf(t));
    FilterAll(left, LeftOf(t));
    FilterNone(right, LeftOf(t));
    FilterNone(left, RightOf(t));
    FilterAll(right, RightOf(t));
  }

  /** In px sorted by x, with no repeated x at the split, the left half lies at or before t and the right half beyond it. */
  lemma SplitSides(px: seq<Point2>)
    requires |px| > 3 && SortedBy(px, X)
    requires px[|px| / 2 - 1].x < px[|px| / 2].x
    ensures var mid, t := |px| / 2, px[|px| / 2 - 1].x;
      (forall i :: 0 <= i < |px[..mid]| ==> LeftOf(t)(px[..mid][i]) && !RightOf(t)(px[..mid][i])) &&
      (forall i :: 0 <= i < |px[mid..]| ==> !LeftOf(t)(px[mid..][i]) && RightOf(t)(px[mid..][i]))
  {
    var mid, t := |px| / 2, px[|px| / 2 - 1].x;
    var left, right := px[..mid], px[mid..];
    forall i | 0 <= i < |left|
      ensures LeftOf(t)(left[i]) && !RightOf(t)(left[i])
    {
      assert Coord(px[i], X) <= Coord(px[mid - 1], X);
    }
    forall i | 0 <= i < |right|
      ensures !LeftOf(t)(right[i]) && RightOf(t)(right[i])
    {
      assert Coord(px[mid], X) <= Coord(px[mid + i], X);
    }
  }

  /**
   * When px has no repeated x at the split, the y-sorted list splits into exactly
   * the points of each half, still sorted by y: both recursive calls get
   * consistent sortings again.
   */
  lemma HalvesConsistent(px: seq<Point2>, py: seq<Point2>)
    requires |px| > 3 && Consistent(px, py)
    requires px[|px| / 2 - 1].x < px[|px| / 2].x
    ensures var mid, t := |px| / 2, px[|px| / 2 - 1].x;
      Consistent(px[..mid], Filter(py, LeftOf(t))) && Consistent(px[mid..], Filter(py, RightOf(t)))
  {
    var mid, t := |px| / 2, px[|px| / 2 - 1].x;
    SplitByXIsHalving(px);
    FilterSameMultiset(py, px, LeftOf(t));
    FilterSameMultiset(py, px, RightOf(t));
    FilterSorted(py, LeftOf(t), Y);
    FilterSorted(py, RightOf(t), Y);
    SortedBySlices(px, X, mid);
  }

  /**
   * With repeated x at the split the halves of py do not match those of px: four
   * points on one vertical line all go to the left, and the right half of px is
   * paired with no points at all.
   */
  lemma RepeatedXSplitsUnevenly()
    ensures var px := [Point2(0, 0), Point2(0, 1), Point2(0, 2), Point2(0, 3)];
      Consistent(px, px) &&
      Filter(px, LeftOf(px[1].x)) == px && Filter(px, RightOf(px[1].x)) == []
  {
    var px := [Point2(0, 0), Point2(0, 1), Point2(0, 2), Point2(0, 3)];
    assert forall i :: 0 <= i < |px| ==> px[i].x == 0 && px[i].y == i;
    FilterAll(px, LeftOf(0));
    FilterNone(px, RightOf(0));
  }

  /** For k > 0 the threshold tests read scaled points as the originals: k * x <= k * t exactly when x <= t. */
  lemma SidesScale(py: seq<Point2>, t: int, k: int)
    requires k > 0
    ensures Filter(ScaleAll(py, k), LeftOf(t * k)) == ScaleAll(Filter(py, LeftOf(t)), k)
    ensures Filter(ScaleAll(py, k), RightOf(t * k)) == ScaleAll(Filter(py, RightOf(t)), k)
  {
    forall i | 0 <= i < |py|
      ensures LeftOf(t * k)(Times(py[i], k)) == LeftOf(t)(py[i])
      ensures RightOf(t * k)(Times(py[i], k)) == RightOf(t)(py[i])
    {
      MulPreservesOrder(k, py[i].x, t);
      MulPreservesOrder(k, t, py[i].x);
    }
    FilterScale(py, LeftOf(t), LeftOf(t * k), k);
    FilterScale(py, RightOf(t), RightOf(t * k), k);
  }

  /** For k != 0 the strip of the scaled points at bound k^2 * D is the scaled strip at D: (kx - km)^2 = k^2 (x - m)^2. */
  lemma StripScale(px: seq<Point2>, py: seq<Point2>, bound: int, k: int)
    requires |px| >= 1 && k != 0
    ensures Strip(ScaleAll(px, k), ScaleAll(py, k), k * k * bound) == ScaleAll(Strip(px, py, bound), k)
  {
    var m := px[|px| / 2].x;
    SquareNonNegative(k);
    forall i | 0 <= i < |py|
      ensures InStrip(m * k, k * k * bound)(Times(py[i], k)) == InStrip(m, bound)(py[i])
    {
      var x := py[i].x;
      assert (x * k - m * k) * (x * k - m * k) == k * k * ((x - m) * (x - m));
      MulPreservesOrder(k * k, (x - m) * (x - m), bound);
    }
    FilterScale(py, InStrip(m, bound), InStrip(m * k, k * k * bound), k);
  }

  /** The strip search on the scaled points at bound k^2 * D returns the scaled split pair. */
  lemma SplitPairScale(px: seq<Point2>, py: seq<Point2>, bound: int, k: int)
    requires |px| >= 2 && k != 0
    ensures SplitPair(ScaleAll(px, k), ScaleAll(py, k), k * k * bound) == ScalePair(SplitPair(px, py, bound), k)
  {
    var sy := Strip(px, py, bound);
    StripScale(px, py, bound, k);
    assert SplitSeed(ScaleAll(px, k), k * k * bound) == ScaleBest(SplitSeed(px, bound), k);
    ScanScale(sy, Candidates(|sy|, Window, |sy|), SplitSeed(px, bound), k);
  }

  /** Scaling all three pairs by k != 0 keeps every strict comparison, so `Combine` picks the same one. */
  lemma CombineScale(left: Pair, right: Pair, split: Pair, k: int)
    requires k != 0
    ensures Combine(ScalePair(left, k), ScalePair(right, k), ScalePair(split, k)) == ScalePair(Combine(left, right, split), k)
    ensures Min(k * k * PairSqDistance(left), k * k * PairSqDistance(right)) == k * k * Min(PairSqDistance(left), PairSqDistance(right))
  {
    var d1, d2, d3 := PairSqDistance(left), PairSqDistance(right), PairSqDistance(split);
    ScalePairSqDistance(left, k);
    ScalePairSqDistance(right, k);
    ScalePairSqDistance(split, k);
    SquareNonNegative(k);
    MulPreservesOrder(k * k, d1, d2);
    MulPreservesOrder(k * k, d2, d1);
    MulPreservesOrder(k * k, d1, d3);
    MulPreservesOrder(k * k, d2, d3);
  }

  /**
   * Scale invariance: multiplying every point by k > 0 multiplies every
   * coordinate and every squared distance by a positive factor, so every
   * comparison the recursion makes comes out the same and it returns the same
   * pair, scaled, ties included.
   */
  lemma {:induction false} DivideAndConquerScaleInvariant(px: seq<Point2>, py: seq<Point2>, k: int)
    requires |px| >= 2 && k > 0
    ensures DivideAndConquerPair(ScaleAll(px, k), ScaleAll(py, k)) == ScalePair(DivideAndConquerPair(px, py), k)
    decreases |px|, 1
  {
    if |px| <= 3 {
      DivideAndConquerBase(px, py);
      DivideAndConquerBase(ScaleAll(px, k), ScaleAll(py, k));
      NaiveSolver.BruteForceScaleInvariant(px, k);
    } else {
      HalvesScaleInvariant(px, py, k);
    }
  }

  /** The same above three points: the halves, the threshold, the bound and the strip all scale together. */
  lemma {:induction false} HalvesScaleInvariant(px: seq<Point2>, py: seq<Point2>, k: int)
    requires |px| > 3 && k > 0
    ensures DivideAndConquerPair(ScaleAll(px, k), ScaleAll(py, k)) == ScalePair(DivideAndConquerPair(px, py), k)
    decreases |px|, 0
  {
    var sx, sy := ScaleAll(px, k), ScaleAll(py, k);
    var mid := |px| / 2;
    var t := px[mid - 1].x;
    assert sx[mid - 1].x == t * k;
    assert sx[..mid] == ScaleAll(px[..mid], k);
    assert sx[mid..] == ScaleAll(px[mid..], k);
    SidesScale(py, t, k);
    var leftPy, rightPy := Filter(py, LeftOf(t)), Filter(py, RightOf(t));
    DivideAndConquerScaleInvariant(px[..mid], leftPy, k);
    DivideAndConquerScaleInvariant(px[mid..], rightPy, k);
    var left := DivideAndConquerPair(px[..mid], leftPy);
    var right := DivideAndConquerPair(px[mid..], rightPy);
    var bound := Min(PairSqDistance(left), PairSqDistance(right));
    var split := SplitPair(px, py, bound);
    ScalePairSqDistance(left, k);
    ScalePairSqDistance(right, k);
    CombineScale(left, right, split, k);
    SplitPairScale(px, py, bound, k);
    DivideAndConquerStep(px, py, px[..mid], leftPy, px[mid..], rightPy, left, right, bound, split);
    DivideAndConquerStep(sx, sy, sx[..mid], Filter(sy, LeftOf(t * k)), sx[mid..], Filter(sy, RightOf(t * k)),
                         ScalePair(left, k), ScalePair(right, k), k * k * bound, ScalePair(split, k));
  }

  /**
   * The solver on the input scaled by k > 0: its two sortings are the scaled
   * sortings, and `run` selects the same pair, scaled, at k^2 times the squared
   * distance, which is k times the distance.
   */
  lemma SolverScaleInvariant(input: seq<Point2>, k: int)
    requires |input| >= 2 && k > 0
    ensures var c, c' := New(input).value, New(ScaleAll(input, k)).value;
      c'.sortedByX == ScaleAll(c.sortedByX, k) && c'.sortedByY == ScaleAll(c.sortedByY, k) &&
      DivideAndConquerPair(c'.sortedByX, c'.sortedByY) == ScalePair(DivideAndConquerPair(c.sortedByX, c.sortedByY), k) &&
      PairSqDistance(DivideAndConquerPair(c'.sortedByX, c'.sortedByY)) == k * k * PairSqDistance(DivideAndConquerPair(c.sortedByX, c.sortedByY))
  {
    SortByScale(input, X, k);
    SortByScale(input, Y, k);
    var px, py := SortBy(input, X), SortBy(input, Y);
    DivideAndConquerScaleInvariant(px, py, k);
    ScalePairSqDistance(DivideAndConquerPair(px, py), k);
  }

  /** When the halves' distances differ, the result is no farther apart than the closer half's pair. */
  lemma NoWorseWhenHalvesDiffer(px: seq<Point2>, py: seq<Point2>)
    requires |px| > 3
    ensures var mid, t := |px| / 2, px[|px| / 2 - 1].x;
      var d1 := PairSqDistance(DivideAndConquerPair(px[..mid], Filter(py, LeftOf(t))));
      var d2 := PairSqDistance(DivideAndConquerPair(px[mid..], Filter(py, RightOf(t))));
      d1 != d2 ==> PairSqDistance(DivideAndConquerPair(px, py)) <= Min(d1, d2)
  {
    var mid, t := |px| / 2, px[|px| / 2 - 1].x;
    var left := DivideAndConquerPair(px[..mid], Filter(py, LeftOf(t)));
    var right := DivideAndConquerPair(px[mid..], Filter(py, RightOf(t)));
    DivideAndConquerUnfold(px, py);
    CombineChoice(left, right, SplitPair(px, py, Min(PairSqDistance(left), PairSqDistance(right))));
  }

  /**
   * When both halves' pairs are equally far apart and no compared strip pair is
   * strictly closer, the result is (px[0], px[1]), whatever its distance.
   */
  lemma TieFallsBackToFirstPoints(px: seq<Point2>, py: seq<Point2>)
    requires |px| > 3
    ensures var mid, t := |px| / 2, px[|px| / 2 - 1].x;
      var d1 := PairSqDistance(DivideAndConquerPair(px[..mid], Filter(py, LeftOf(t))));
      var d2 := PairSqDistance(DivideAndConquerPair(px[mid..], Filter(py, RightOf(t))));
      var sy := Strip(px, py, d1);
      d1 == d2 && (forall k, l :: InWindow(|sy|, Window, k, l) ==> SqDistance(sy[k], sy[l]) >= d1) ==>
        DivideAndConquerPair(px, py) == (px[0], px[1])
  {
    var mid, t := |px| / 2, px[|px| / 2 - 1].x;
    var left := DivideAndConquerPair(px[..mid], Filter(py, LeftOf(t)));
    var right := DivideAndConquerPair(px[mid..], Filter(py, RightOf(t)));
    var d1, d2 := PairSqDistance(left), PairSqDistance(right);
    var sy := Strip(px, py, d1);
    if d1 == d2 && (forall k, l :: InWindow(|sy|, Window, k, l) ==> SqDistance(sy[k], sy[l]) >= d1) {
      DivideAndConquerUnfold(px, py);
      var i, j := SplitPairSpec(px, py, d1);
      if i != -1 {
        assert false;
      }
      CombineChoice(left, right, SplitPair(px, py, d1));
    }
  }

  /**
   * Two points already in order on both axes: construction succeeds, both
   * sortings keep the input, and the answer is the pair itself.
   */
  lemma TwoSortedPoints(a: Point2, b: Point2)
    requires a.x <= b.x && a.y <= b.y
    ensures New([a, b]).Success?
    ensures New([a, b]).value.sortedByX == [a, b] && New([a, b]).value.sortedByY == [a, b]
    ensures DivideAndConquerPair([a, b], [a, b]) == (a, b)
  {
    SortBySorted([a, b], X);
    SortBySorted([a, b], Y);
    NaiveSolver.BruteForceTwoPoints(a, b);
  }

  /** The part of the name after the group, normalised. */
  lemma SuffixNorm()
    ensures Algorithms.Norm(" Divide and Conquer") == "-divide-and-conquer"
  {
  }

  /** The id of this solver. */
  lemma IdExample()
    ensures Id() == "closest-pair:closest-pair-divide-and-conquer"
  {
    NameNorm();
    GroupNorm();
    assert "closest-pair:closest-pair-divide-and-conquer" == "closest-pair" + ":" + "closest-pair-divide-and-conquer";
  }

  /** The name is the group followed by the solver's own suffix. */
  lemma NameSplit()
    ensures Name == Group + " Divide and Conquer"
  {
  }

  /** The name, normalised. */
  lemma NameNorm()
    ensures Algorithms.Norm(Name) == "closest-pair-divide-and-conquer"
  {
    NameSplit();
    GroupNorm();
    SuffixNorm();
    Algorithms.NormConcat(Group, " Divide and Conquer");
    assert "closest-pair-divide-and-conquer" == "closest-pair" + "-divide-and-conquer";
  }
}
