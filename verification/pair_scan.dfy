/**
 * The loop both solvers run (algorithms/closestpair/ClosestPairNaive.kt and
 * ClosestPairDivideAndConquer.kt): visit index pairs (i, j), i < j, in
 * lexicographic order, comparing each point only with the next `w` points after
 * it, and keep the pair whose distance is strictly below the best one so far.
 *
 * `Scan` is the specification of that loop as a left fold over the list of
 * visited index pairs; `Candidates` is that list. The lemmas at the end say
 * what the fold computes: the first pair, in visiting order, of minimal
 * distance, when some pair beats the starting bound, and the starting value
 * otherwise.
 */
module PairScan {
  import opened Points
  import opened ClosestPairs

  /** The running best distance: +infinity or a finite squared distance. */
  datatype Bound = Infinity | Finite(value: int)

  predicate Below(d: int, b: Bound)
  {
    b.Infinity? || d < b.value
  }

  /** The loop's two variables: the best pair and the best distance. */
  datatype Best = Best(pair: Pair, bound: Bound)

  type IndexPair = (nat, nat)

  /** Exclusive upper end of the inner loop for row i: `minOf(i + 1 + w, n)`. */
  function Hi(n: nat, w: nat, i: nat): nat
  {
    if i + 1 + w < n then i + 1 + w else n
  }

  /** (k, l) is visited: k < l, and l is at most w positions after k and inside the sequence. */
  predicate InWindow(n: nat, w: nat, k: int, l: int)
  {
    0 <= k < l < Hi(n, w, k)
  }

  /** (k, l) is visited before (i, j): lexicographic order on index pairs. */
  predicate LexBefore(k: int, l: int, i: int, j: int)
  {
    k < i || (k == i && l < j)
  }

  /** The pairs the inner loop visits for outer index i. */
  function Row(n: nat, w: nat, i: nat): seq<IndexPair>
  {
    seq(if Hi(n, w, i) > i + 1 then Hi(n, w, i) - i - 1 else 0, m => (i, i + 1 + m))
  }

  /** The pairs visited by the first i iterations of the outer loop, in visiting order. */
  function Candidates(n: nat, w: nat, i: nat): (r: seq<IndexPair>)
    ensures forall m :: 0 <= m < |r| ==> r[m].0 < i && InWindow(n, w, r[m].0, r[m].1)
  {
    if i == 0 then [] else Candidates(n, w, i - 1) + Row(n, w, i - 1)
  }

  /** Every index of every candidate lies below n. */
  predicate Indexes(n: nat, cands: seq<IndexPair>)
  {
    forall m :: 0 <= m < |cands| ==> cands[m].0 < n && cands[m].1 < n
  }

  function CandDist(pts: seq<Point2>, c: IndexPair): int
    requires c.0 < |pts| && c.1 < |pts|
  {
    SqDistance(pts[c.0], pts[c.1])
  }

  /** One iteration of the inner loop body: replace the best pair on a strictly smaller distance. */
  function Step(pts: seq<Point2>, b: Best, c: IndexPair): Best
    requires c.0 < |pts| && c.1 < |pts|
  {
    var d := CandDist(pts, c);
    if Below(d, b.bound) then Best((pts[c.0], pts[c.1]), Finite(d)) else b
  }

  /** The loop's variables after visiting `cands` in order, starting from `init`. */
  function Scan(pts: seq<Point2>, cands: seq<IndexPair>, init: Best): Best
    requires Indexes(|pts|, cands)
    decreases |cands|
  {
    if cands == [] then init
    else Step(pts, Scan(pts, cands[..|cands| - 1], init), cands[|cands| - 1])
  }

  /** Visiting one more candidate is one more loop iteration. */
  lemma ScanAppend(pts: seq<Point2>, visited: seq<IndexPair>, c: IndexPair, init: Best)
    requires Indexes(|pts|, visited) && c.0 < |pts| && c.1 < |pts|
    ensures Indexes(|pts|, visited + [c])
    ensures Scan(pts, visited + [c], init) == Step(pts, Scan(pts, visited, init), c)
  {
    assert (visited + [c])[..|visited|] == visited;
  }

  /**
   * The pairs visited once the inner loop for row i has reached j: all earlier
   * rows, then (i, i + 1) up to (i, j - 1). Reaching j + 1 appends (i, j).
   */
  function Visited(n: nat, w: nat, i: nat, j: nat): (r: seq<IndexPair>)
    requires i < j <= Hi(n, w, i)
    ensures Indexes(n, r)
  {
    Candidates(n, w, i) + Row(n, w, i)[..j - i - 1]
  }

  lemma VisitedNext(n: nat, w: nat, i: nat, j: nat)
    requires i < j < Hi(n, w, i)
    ensures Visited(n, w, i, j + 1) == Visited(n, w, i, j) + [(i, j)]
  {
    assert Row(n, w, i)[..j - i] == Row(n, w, i)[..j - i - 1] + [(i, j)];
  }

  lemma VisitedRowDone(n: nat, w: nat, i: nat)
    requires i < n
    ensures Visited(n, w, i, i + 1) == Candidates(n, w, i)
    ensures Visited(n, w, i, Hi(n, w, i)) == Candidates(n, w, i + 1)
  {
    assert Row(n, w, i)[..0] == [];
    assert Row(n, w, i)[..Hi(n, w, i) - i - 1] == Row(n, w, i);
  }

  /** Visiting (i, j) after the pairs visited so far is one more step of the loop body. */
  lemma ScanNext(pts: seq<Point2>, w: nat, i: nat, j: nat, init: Best)
    requires i < j < Hi(|pts|, w, i)
    ensures Scan(pts, Visited(|pts|, w, i, j + 1), init) == Step(pts, Scan(pts, Visited(|pts|, w, i, j), init), (i, j))
  {
    VisitedNext(|pts|, w, i, j);
    ScanAppend(pts, Visited(|pts|, w, i, j), (i, j), init);
  }

  /**
   * The inner loop for outer index i: compare pts[i] with pts[j] for j from
   * i + 1 up to `Hi(|pts|, w, i)`, replacing the best pair on a strictly
   * smaller distance. Started from the loop variables after rows 0 .. i - 1,
   * it ends with those after rows 0 .. i.
   */
  method ScanRow(pts: seq<Point2>, w: nat, i: nat, start: Best, ghost init: Best) returns (b: Best)
    requires i < |pts|
    requires start == Scan(pts, Candidates(|pts|, w, i), init)
    ensures b == Scan(pts, Candidates(|pts|, w, i + 1), init)
  {
    var n := |pts|;
    VisitedRowDone(n, w, i);
    b := start;
    var hi := if i + 1 + w < n then i + 1 + w else n;
    for j := i + 1 to hi
      invariant b == Scan(pts, Visited(n, w, i, j), init)
    {
      ScanNext(pts, w, i, j, init);
      var distance := SqDistance(pts[i], pts[j]);
      if Below(distance, b.bound) {
        b := Best((pts[i], pts[j]), Finite(distance));
      }
    }
  }

  /** Every pair (k, l) the loop should visit for outer indices below i is a candidate. */
  lemma {:induction false} CandidatesComplete(n: nat, w: nat, i: nat)
    ensures forall k, l :: k < i && InWindow(n, w, k, l) ==> (k, l) in Candidates(n, w, i)
  {
    if i > 0 {
      CandidatesComplete(n, w, i - 1);
      var row := Row(n, w, i - 1);
      forall k, l | k < i && InWindow(n, w, k, l)
        ensures (k, l) in Candidates(n, w, i)
      {
        if k < i - 1 {
          assert (k, l) in Candidates(n, w, i - 1);
        } else {
          assert row[l - k - 1] == (k, l);
        }
      }
    }
  }

  /** The candidates are strictly increasing in lexicographic order, so each pair is visited once. */
  lemma {:induction false} CandidatesOrdered(n: nat, w: nat, i: nat)
    ensures forall a, b :: 0 <= a < b < |Candidates(n, w, i)| ==>
      LexBefore(Candidates(n, w, i)[a].0, Candidates(n, w, i)[a].1, Candidates(n, w, i)[b].0, Candidates(n, w, i)[b].1)
  {
    if i > 0 {
      CandidatesOrdered(n, w, i - 1);
      var front, row := Candidates(n, w, i - 1), Row(n, w, i - 1);
      var c := Candidates(n, w, i);
      forall a, b | 0 <= a < b < |c|
        ensures LexBefore(c[a].0, c[a].1, c[b].0, c[b].1)
      {
        if b < |front| {
          assert c[a] == front[a] && c[b] == front[b];
        } else if a < |front| {
          assert c[a] == front[a] && c[b] == row[b - |front|];
        } else {
          assert c[a] == row[a - |front|] && c[b] == row[b - |front|];
        }
      }
    }
  }

  /**
   * The fold keeps the starting value when no candidate is strictly below its
   * bound; otherwise it returns the candidate at position k, the first one of
   * minimal distance, with that distance as the bound.
   */
  lemma {:induction false} ScanChoice(pts: seq<Point2>, cands: seq<IndexPair>, init: Best) returns (k: int)
    requires Indexes(|pts|, cands)
    ensures -1 <= k < |cands|
    ensures k == -1 ==> Scan(pts, cands, init) == init
    ensures k == -1 ==> forall m :: 0 <= m < |cands| ==> !Below(CandDist(pts, cands[m]), init.bound)
    ensures k >= 0 ==> Below(CandDist(pts, cands[k]), init.bound)
    ensures k >= 0 ==>
      Scan(pts, cands, init) == Best((pts[cands[k].0], pts[cands[k].1]), Finite(CandDist(pts, cands[k])))
    ensures k >= 0 ==> forall m :: 0 <= m < |cands| ==>
      CandDist(pts, cands[k]) <= CandDist(pts, cands[m]) &&
      (m < k ==> CandDist(pts, cands[k]) < CandDist(pts, cands[m]))
    decreases |cands|
  {
    if cands == [] {
      k := -1;
    } else {
      var last := |cands| - 1;
      var front, c := cands[..last], cands[last];
      var k0 := ScanChoice(pts, front, init);
      var b := Scan(pts, front, init);
      assert forall m :: 0 <= m < last ==> front[m] == cands[m];
      if Below(CandDist(pts, c), b.bound) {
        k := last;
      } else {
        k := k0;
      }
    }
  }

  /** A pair (i, j) in the window whose distance is minimal, and strictly below that of every pair visited before it. */
  ghost predicate FirstClosestInWindow(s: seq<Point2>, w: nat, i: int, j: int)
  {
    InWindow(|s|, w, i, j) &&
    forall k, l :: InWindow(|s|, w, k, l) ==>
      SqDistance(s[i], s[j]) <= SqDistance(s[k], s[l]) &&
      (LexBefore(k, l, i, j) ==> SqDistance(s[i], s[j]) < SqDistance(s[k], s[l]))
  }

  /**
   * What the double loop over s with window w computes, in terms of index pairs:
   * either no visited pair is strictly below the starting bound and the starting
   * value is kept, or the result is the first closest visited pair (i, j).
   */
  lemma ScanWindow(s: seq<Point2>, w: nat, init: Best) returns (i: int, j: int)
    ensures i == -1 || FirstClosestInWindow(s, w, i, j)
    ensures i == -1 ==> Scan(s, Candidates(|s|, w, |s|), init) == init
    ensures i == -1 ==> forall k, l :: InWindow(|s|, w, k, l) ==> !Below(SqDistance(s[k], s[l]), init.bound)
    ensures i != -1 ==> Below(SqDistance(s[i], s[j]), init.bound)
    ensures i != -1 ==> Scan(s, Candidates(|s|, w, |s|), init) == Best((s[i], s[j]), Finite(SqDistance(s[i], s[j])))
  {
    var cands := Candidates(|s|, w, |s|);
    CandidatesComplete(|s|, w, |s|);
    CandidatesOrdered(|s|, w, |s|);
    var p := ScanChoice(s, cands, init);
    if p == -1 {
      i, j := -1, -1;
      forall k, l | InWindow(|s|, w, k, l)
        ensures !Below(SqDistance(s[k], s[l]), init.bound)
      {
        assert (k, l) in cands;
        var m :| 0 <= m < |cands| && cands[m] == (k, l);
      }
    } else {
      i, j := cands[p].0, cands[p].1;
      forall k, l | InWindow(|s|, w, k, l)
        ensures SqDistance(s[i], s[j]) <= SqDistance(s[k], s[l])
        ensures LexBefore(k, l, i, j) ==> SqDistance(s[i], s[j]) < SqDistance(s[k], s[l])
      {
        assert (k, l) in cands;
        var m :| 0 <= m < |cands| && cands[m] == (k, l);
        if LexBefore(k, l, i, j) {
          assert m < p;
        }
      }
    }
  }

  /** The running best distance once every point is scaled by k: finite squared distances scale by k^2. */
  function ScaleBound(b: Bound, k: int): Bound
  {
    match b
    case Infinity => Infinity
    case Finite(v) => Finite(k * k * v)
  }

  /** The loop variables once every point is scaled by k. */
  function ScaleBest(b: Best, k: int): Best
  {
    Best(ScalePair(b.pair, k), ScaleBound(b.bound, k))
  }

  /** One loop iteration on the scaled points is the scaled iteration: scaling by k != 0 keeps every strict comparison. */
  lemma StepScale(pts: seq<Point2>, b: Best, c: IndexPair, k: int)
    requires k != 0 && c.0 < |pts| && c.1 < |pts|
    ensures Step(ScaleAll(pts, k), ScaleBest(b, k), c) == ScaleBest(Step(pts, b, c), k)
  {
    var d := CandDist(pts, c);
    TimesScalesSqDistance(pts[c.0], pts[c.1], k);
    SquareNonNegative(k);
    if b.bound.Finite? {
      MulPreservesOrder(k * k, d, b.bound.value);
    }
  }

  /** The whole loop on the scaled points ends at the scaled loop variables. */
  lemma {:induction false} ScanScale(pts: seq<Point2>, cands: seq<IndexPair>, init: Best, k: int)
    requires k != 0 && Indexes(|pts|, cands)
    ensures Scan(ScaleAll(pts, k), cands, ScaleBest(init, k)) == ScaleBest(Scan(pts, cands, init), k)
    decreases |cands|
  {
    if cands != [] {
      var prefix := cands[..|cands| - 1];
      ScanScale(pts, prefix, init, k);
      StepScale(pts, Scan(pts, prefix, init), cands[|cands| - 1], k);
    }
  }
}
