/**
 * The divide-and-conquer solver with its tie case repaired
 * (algorithms/closestpair/ClosestPairDivideAndConquer.kt, lines 21-67).
 *
 * As written, `closestSplitPair` starts its search from the pair (px[0], px[1])
 * with the bound d, and when the two halves' pairs are equally far apart the
 * split pair is returned whatever its distance. If no strip pair beats d, the
 * answer is then (px[0], px[1]), which need not be a closest pair. Here the
 * strip search starts from the closer half's pair instead, so the result is
 * never farther apart than either half's pair.
 */
module CorrectedSolver {
  import opened Points
  import opened ClosestPairs
  import opened PairScan
  import opened Presort
  import NaiveSolver
  import opened DivideAndConquerSolver

  /** The closer of the two halves' pairs, the left one on a tie: the pair at distance d = min(d1, d2). */
  function BetterHalf(left: Pair, right: Pair): (r: Pair)
    ensures r == left || r == right
    ensures PairSqDistance(r) == Min(PairSqDistance(left), PairSqDistance(right))
  {
    if PairSqDistance(left) <= PairSqDistance(right) then left else right
  }

  /** The strip search seeded with the pair whose distance is the bound. */
  function SeededSplitPair(px: seq<Point2>, py: seq<Point2>, best: Pair): Pair
    requires |px| >= 1
  {
    var bound := PairSqDistance(best);
    var sy := Strip(px, py, bound);
    Scan(sy, Candidates(|sy|, Window, |sy|), Best(best, Finite(bound))).pair
  }

  /** The recursion of `closestPair` with the seeded strip search. */
  function CorrectedPair(px: seq<Point2>, py: seq<Point2>): Pair
    requires |px| >= 2
    decreases |px|
  {
    if |px| <= 3 then
      NaiveSolver.BruteForcePair(px)
    else
      var mid := |px| / 2;
      var t := px[mid - 1].x;
      var left := CorrectedPair(px[..mid], Filter(py, LeftOf(t)));
      var right := CorrectedPair(px[mid..], Filter(py, RightOf(t)));
      Combine(left, right, SeededSplitPair(px, py, BetterHalf(left, right)))
  }

  /**
   * The seeded strip search returns the seed, or the first closest compared
   * strip pair when that is strictly closer than the seed.
   */
  lemma SeededSplitPairSpec(px: seq<Point2>, py: seq<Point2>, best: Pair) returns (i: int, j: int)
    requires |px| >= 1
    ensures var sy := Strip(px, py, PairSqDistance(best));
      (i == -1 ==> SeededSplitPair(px, py, best) == best) &&
      (i != -1 ==> FirstClosestInWindow(sy, Window, i, j) &&
                   SeededSplitPair(px, py, best) == (sy[i], sy[j]) &&
                   SqDistance(sy[i], sy[j]) < PairSqDistance(best))
    ensures PairSqDistance(SeededSplitPair(px, py, best)) <= PairSqDistance(best)
  {
    var sy := Strip(px, py, PairSqDistance(best));
    i, j := ScanWindow(sy, Window, Best(best, Finite(PairSqDistance(best))));
  }

  /**
   * One level of the repaired recursion: the result is the closer half's pair or
   * a strip pair, and it is never farther apart than either half's pair.
   */
  lemma CorrectedNoWorseThanHalves(px: seq<Point2>, py: seq<Point2>)
    requires |px| > 3
    ensures var mid, t := |px| / 2, px[|px| / 2 - 1].x;
      var left := CorrectedPair(px[..mid], Filter(py, LeftOf(t)));
      var right := CorrectedPair(px[mid..], Filter(py, RightOf(t)));
      var r := CorrectedPair(px, py);
      PairSqDistance(r) <= Min(PairSqDistance(left), PairSqDistance(right)) &&
      (r in {left, right} || r == SeededSplitPair(px, py, BetterHalf(left, right)))
  {
    var mid, t := |px| / 2, px[|px| / 2 - 1].x;
    var left := CorrectedPair(px[..mid], Filter(py, LeftOf(t)));
    var right := CorrectedPair(px[mid..], Filter(py, RightOf(t)));
    var split := SeededSplitPair(px, py, BetterHalf(left, right));
    var i, j := SeededSplitPairSpec(px, py, BetterHalf(left, right));
    CombineChoice(left, right, split);
  }

  const A := Point2(0, 0)
  const B := Point2(1, 10)
  const C := Point2(2, 0)
  const D := Point2(10, 0)
  const E := Point2(11, 10)
  const F := Point2(12, 0)

  /** Six points, already in x order: two mirrored triangles ten units apart. */
  predicate IsTieInput(px: seq<Point2>)
  {
    |px| == 6 && px[0] == A && px[1] == B && px[2] == C && px[3] == D && px[4] == E && px[5] == F
  }

  /** The same six points in their stable order by y: A, C, D, F at y = 0, then B, E at y = 10. */
  predicate IsTieByY(py: seq<Point2>)
  {
    |py| == 6 && py[0] == A && py[1] == C && py[2] == D && py[3] == F && py[4] == B && py[5] == E
  }

  /** Their ordering by x is the input itself. */
  lemma TieSortedByX(px: seq<Point2>)
    requires IsTieInput(px)
    ensures SortBy(px, X) == px
  {
    SortBySorted(px, X);
  }

  /** Their stable ordering by y: the three points at y = 0, then the two at y = 10, each group in input order. */
  lemma TieSortedByY(px: seq<Point2>)
    requires IsTieInput(px)
    ensures IsTieByY(SortBy(px, Y))
  {
    var s4 := [F];
    var s3 := [E] + s4;
    var s2 := [D] + s3;
    var s1 := [C] + s2;
    var s0 := [B] + s1;
    SortByCons(F, [], Y);
    SortByCons(E, s4, Y);
    assert SortBy(s3, Y) == [F, E];
    SortByCons(D, s3, Y);
    assert SortBy(s2, Y) == [D, F, E];
    SortByCons(C, s2, Y);
    assert SortBy(s1, Y) == [C, D, F, E];
    SortByCons(B, s1, Y);
    assert Insert(B, [E], Y) == [B, E];
    assert Insert(B, [F, E], Y) == [F] + Insert(B, [E], Y);
    assert Insert(B, [D, F, E], Y) == [D] + Insert(B, [F, E], Y);
    assert Insert(B, [C, D, F, E], Y) == [C] + Insert(B, [D, F, E], Y);
    assert SortBy(s0, Y) == [C, D, F, B, E];
    SortByCons(A, s0, Y);
    assert [A] + s0 == px;
  }

  /**
   * Any two of the six points are at squared distance at least 4, that of A and
   * C; the only pair before (A, C) in the loop's order is (A, B), at 101.
   */
  lemma TieApart(px: seq<Point2>, k: int, l: int)
    requires IsTieInput(px) && 0 <= k < l < |px|
    ensures SqDistance(px[0], px[2]) <= SqDistance(px[k], px[l])
    ensures LexBefore(k, l, 0, 2) ==> SqDistance(px[0], px[2]) < SqDistance(px[k], px[l])
  {
    assert k == 0 || k == 1 || k == 2 || k == 3 || k == 4;
    assert l == 1 || l == 2 || l == 3 || l == 4 || l == 5;
  }

  /** (A, C) is at most as far apart as any pair of the six points, and strictly closer than the pairs before it. */
  lemma TieClosest(px: seq<Point2>)
    requires IsTieInput(px)
    ensures forall k, l :: 0 <= k < l < |px| ==>
      SqDistance(px[0], px[2]) <= SqDistance(px[k], px[l]) &&
      (LexBefore(k, l, 0, 2) ==> SqDistance(px[0], px[2]) < SqDistance(px[k], px[l]))
  {
    forall k, l | 0 <= k < l < |px|
      ensures SqDistance(px[0], px[2]) <= SqDistance(px[k], px[l])
      ensures LexBefore(k, l, 0, 2) ==> SqDistance(px[0], px[2]) < SqDistance(px[k], px[l])
    {
      TieApart(px, k, l);
    }
  }

  /** Those comparisons make (px[0], px[2]) the first closest pair of positions. */
  lemma TieFirstClosest(px: seq<Point2>)
    requires |px| == 6
    requires forall k, l :: 0 <= k < l < |px| ==>
      SqDistance(px[0], px[2]) <= SqDistance(px[k], px[l]) &&
      (LexBefore(k, l, 0, 2) ==> SqDistance(px[0], px[2]) < SqDistance(px[k], px[l]))
    ensures NaiveSolver.IsFirstClosest(px, 0, 2)
  {
  }

  /** The brute-force answer for the six points: (A, C), squared distance 4, where (A, B) is at 101. */
  lemma TieBruteForce(px: seq<Point2>)
    requires IsTieInput(px)
    ensures NaiveSolver.BruteForcePair(px) == (A, C)
    ensures PairSqDistance((A, C)) == 4 && PairSqDistance((A, B)) == 101
  {
    TieClosest(px);
    TieFirstClosest(px);
    NaiveSolver.FirstClosestIsBruteForce(px, 0, 2);
  }

  /** The y-sorted six points split by x <= 2 (the x of C, the last left point). */
  lemma TieFilters(py: seq<Point2>)
    requires IsTieByY(py)
    ensures Filter(py, LeftOf(2)) == [A, C, B]
    ensures Filter(py, RightOf(2)) == [D, F, E]
  {
    var left, right := LeftOf(2), RightOf(2);
    assert py[6..] == [];
    FilterSuffix(py, 5, left);
    FilterSuffix(py, 5, right);
    assert Filter(py[5..], left) == [] && Filter(py[5..], right) == [E];
    FilterSuffix(py, 4, left);
    FilterSuffix(py, 4, right);
    assert Filter(py[4..], left) == [B] && Filter(py[4..], right) == [E];
    FilterSuffix(py, 3, left);
    FilterSuffix(py, 3, right);
    assert Filter(py[3..], left) == [B] && Filter(py[3..], right) == [F, E];
    FilterSuffix(py, 2, left);
    FilterSuffix(py, 2, right);
    assert Filter(py[2..], left) == [B] && Filter(py[2..], right) == [D, F, E];
    FilterSuffix(py, 1, left);
    FilterSuffix(py, 1, right);
    assert Filter(py[1..], left) == [C, B] && Filter(py[1..], right) == [D, F, E];
    FilterSuffix(py, 0, left);
    FilterSuffix(py, 0, right);
    assert py[0..] == py;
  }

  /** The strip around x = 10 for squared distance 4: D, F, E, no two of them closer than 4. */
  lemma TieStrip(px: seq<Point2>, py: seq<Point2>)
    requires IsTieInput(px) && IsTieByY(py)
    ensures Strip(px, py, 4) == [D, F, E]
    ensures var sy := Strip(px, py, 4);
      forall k, l :: InWindow(|sy|, Window, k, l) ==> SqDistance(sy[k], sy[l]) >= 4
  {
    assert px[|px| / 2].x == 10;
    var strip := InStrip(10, 4);
    assert py[6..] == [];
    FilterSuffix(py, 5, strip);
    assert Filter(py[5..], strip) == [E];
    FilterSuffix(py, 4, strip);
    FilterSuffix(py, 3, strip);
    assert Filter(py[3..], strip) == [F, E];
    FilterSuffix(py, 2, strip);
    FilterSuffix(py, 1, strip);
    FilterSuffix(py, 0, strip);
    assert py[0..] == py;
    var sy := [D, F, E];
    forall k, l | InWindow(|sy|, Window, k, l)
      ensures SqDistance(sy[k], sy[l]) >= 4
    {
      assert k == 0 || k == 1;
      assert l == 1 || l == 2;
    }
  }

  /** Each half's brute-force pair is at squared distance 4. */
  lemma TieHalfPairs(px: seq<Point2>)
    requires IsTieInput(px)
    ensures NaiveSolver.BruteForcePair(px[..3]) == (A, C)
    ensures NaiveSolver.BruteForcePair(px[3..]) == (D, F)
  {
    var left, right := px[..3], px[3..];
    forall k, l | 0 <= k < l < 3
      ensures SqDistance(left[0], left[2]) <= SqDistance(left[k], left[l])
      ensures SqDistance(right[0], right[2]) <= SqDistance(right[k], right[l])
      ensures LexBefore(k, l, 0, 2) ==> SqDistance(left[0], left[2]) < SqDistance(left[k], left[l])
      ensures LexBefore(k, l, 0, 2) ==> SqDistance(right[0], right[2]) < SqDistance(right[k], right[l])
    {
      assert k == 0 || k == 1;
      assert l == 1 || l == 2;
    }
    NaiveSolver.FirstClosestIsBruteForce(left, 0, 2);
    NaiveSolver.FirstClosestIsBruteForce(right, 0, 2);
  }

  /** Both halves of the recursion answer a pair at squared distance 4: (A, C) on the left, (D, F) on the right. */
  lemma TieHalves(px: seq<Point2>, py: seq<Point2>)
    requires IsTieInput(px) && IsTieByY(py)
    ensures var mid, t := |px| / 2, px[|px| / 2 - 1].x;
      DivideAndConquerPair(px[..mid], Filter(py, LeftOf(t))) == (A, C) &&
      DivideAndConquerPair(px[mid..], Filter(py, RightOf(t))) == (D, F) &&
      CorrectedPair(px[..mid], Filter(py, LeftOf(t))) == (A, C) &&
      CorrectedPair(px[mid..], Filter(py, RightOf(t))) == (D, F)
  {
    assert |px| / 2 == 3 && px[2].x == 2;
    TieHalfPairs(px);
    DivideAndConquerBase(px[..3], Filter(py, LeftOf(2)));
    DivideAndConquerBase(px[3..], Filter(py, RightOf(2)));
  }

  /**
   * The solver as written answers (A, B), squared distance 101, on the two
   * sortings of the six points (`TieSortedByX`, `TieSortedByY`), where the closest pair (A, C) is
   * at squared distance 4 (`TieBruteForce`): both halves tie at 4, no strip pair
   * is strictly closer than 4, and the fallback (px[0], px[1]) is returned.
   */
  lemma TieAsWritten(px: seq<Point2>, py: seq<Point2>)
    requires IsTieInput(px) && IsTieByY(py)
    ensures DivideAndConquerPair(px, py) == (A, B)
  {
    TieHalves(px, py);
    TieStrip(px, py);
    TieFallsBackToFirstPoints(px, py);
  }

  /** The repaired recursion answers (A, C), the brute-force pair, on the same six points. */
  lemma TieCorrected(px: seq<Point2>, py: seq<Point2>)
    requires IsTieInput(px) && IsTieByY(py)
    ensures CorrectedPair(px, py) == (A, C)
  {
    TieHalves(px, py);
    TieStrip(px, py);
    var i, j := SeededSplitPairSpec(px, py, (A, C));
    if i != -1 {
      assert false;
    }
    CombineChoice((A, C), (D, F), (A, C));
  }
}
