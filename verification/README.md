# komp-geom closest pair, modelled in Dafny

komp-geom is a small Kotlin toolkit for 2D geometry. This project models its
closest-pair-of-points solvers and the value types they use:

- **`ClosestPairNaive`**: the brute-force solver. It copies the input and refuses fewer than
  two points. `run()` examines every pair of positions i < j in lexicographic order and keeps
  the first pair of smallest distance.
- **`ClosestPairDivideAndConquer`**: the divide-and-conquer solver.
  - Construction sorts the input by x and by y, and refuses fewer than two points.
  - `closestPair` hands three points or fewer to the brute-force solver.
  - Otherwise it splits the x-sorted list in the middle and filters the y-sorted list by the x
    of the last left point.
  - It recurses on both halves, then scans the strip around the middle point.
  - The strip scan compares each strip point with at most its six successors in y order.
  - It combines the three candidate pairs with strict comparisons.
- **`Point2` and `Vec2`**: immutable points and vectors with componentwise operations.
- **`IAlgorithm.getId`**: the id "group:name", with both parts lowercased and spaces turned into
  hyphens. Every closest-pair solver uses the group "Closest Pair".

Modules, one per file:

| file | module | models |
|---|---|---|
| `errors.dfy` | `Errors` | the exceptions thrown (`IllegalArgumentException`, `IndexOutOfBoundsException`, `ArithmeticException`) as a `Result` value |
| `point2.dfy` | `Points` | `Point2` |
| `vec2.dfy` | `Vectors` | `Vec2` and its companion object |
| `algorithm.dfy` | `Algorithms` | `IAlgorithm.getId` |
| `closest_pair.dfy` | `ClosestPairs` | `IClosestPair`: the `Result` record and the group |
| `pair_scan.dfy` | `PairScan` | the pair loop both solvers run, as a fold over the list of visited index pairs |
| `naive.dfy` | `NaiveSolver` | `ClosestPairNaive` |
| `sorting.dfy` | `Presort` | the `filter` and stable `sortedBy` the divide-and-conquer solver relies on |
| `divide_and_conquer.dfy` | `DivideAndConquerSolver` | `ClosestPairDivideAndConquer` |
| `corrected.dfy` | `CorrectedSolver` | the tie case of the divide-and-conquer solver, as written and repaired (see Findings) |

How the model is built:

- **Squared distances.** Coordinates are exact integers for points and exact reals for vectors.
  Every Euclidean distance is carried as its square. The square root is monotone, so every
  strict comparison between distances has the same outcome. `min(d1, d2)` becomes the min of
  the squares. The strip test `x in (midX - d)..(midX + d)`, with d the square root of the squared
  bound D, becomes `(x - midX)^2 <= D`. For integer x both accept the same points, whether or not
  D is a perfect square (`SquaredStripTest`, with `FloorSqrt` giving the integer part of the root).
- **Loops.** The two double loops that update local variables are Dafny methods with loops:
  `ClosestPairNaive.run` and `closestSplitPair`. Their inner loop is shared as
  `PairScan.ScanRow`, with no window limit for the naive solver and a window of six for the
  strip. Each loop invariant ties the loop variables to `PairScan.Scan`, a fold over the index
  pairs visited so far. Lemmas then prove what that fold computes: the first closest visited
  pair.
- **Recursion.** The recursion `closestPair` is a recursive method proved equal to the function
  `DivideAndConquerPair`. Its branch for more than three points is the method
  `ClosestPairHalves`, called from `ClosestPair`.
- **Solver instances.** They are immutable datatype values holding the copied or sorted input.
  `run()` is a method on them.

On these points the model follows the divide-and-conquer code as written:

- The strip scan starts from the pair `(px[0], px[1])` with bound `d`, not from the better half
  result.
- Every tie in the combine step goes to the strip pair, not to the left and then the right
  result.
- `sortedBy` is stable, so the model sorts stably.
- The doc comment on `ClosestPairNaive` calls it divide-and-conquer. The code is brute force,
  and so is the model.

## Model

| member | source | states |
|---|---|---|
| Points.Copy | src/commonMain/kotlin/io/github/cponfick/kompgeom/core/Point2.kt:21 | the copy constructor gives a point with the same coordinates, equal under `equals` |
| Points.Get | src/commonMain/kotlin/io/github/cponfick/kompgeom/core/Point2.kt:28-34 | `get`: x for index 0, y for index 1, an out-of-bounds error carrying the index for any other; its meaning is stated by `GetRoundTrip` |
| Points.Times | src/commonMain/kotlin/io/github/cponfick/kompgeom/core/Point2.kt:42 | `times`: both coordinates multiplied by an integer scalar; what it does to distances and how scalings compose are stated by `TimesScalesSqDistance` and `TimesComposes` |
| Points.SqDistance | src/commonMain/kotlin/io/github/cponfick/kompgeom/core/Point2.kt:50-54 | the square of `distance`, (ax - bx)^2 + (ay - by)^2; `SqDistanceIsMetric` states that it is non-negative, symmetric and zero exactly between equal points |
| Points.Equals | src/commonMain/kotlin/io/github/cponfick/kompgeom/core/Point2.kt:91-96 | `equals` on two points: both coordinates equal; `EqualsIsIdentity` states that it is value equality |
| Points.Rotate | src/commonMain/kotlin/io/github/cponfick/kompgeom/core/Point2.kt:70-75 | `rotate` at the exact quarter-turn angles 0, pi/2, pi, 3*pi/2 and 2*pi; `RotateComposes` and `RotatePreservesSqDistance` state that these compose as rotations and keep distances |
| Points.OriginProperties | src/commonMain/kotlin/io/github/cponfick/kompgeom/core/Point2.kt:15 | the default point `Point2()`, (0, 0) (`Origin`), is what scaling any point by 0 gives, lies at squared distance x^2 + y^2 from every point (x, y), and is fixed by every quarter turn |
| Points.GetRoundTrip | src/commonMain/kotlin/io/github/cponfick/kompgeom/core/Point2.kt:28-34 | `get` succeeds exactly for indices 0 and 1, fails with an out-of-bounds error carrying the index otherwise, and get(0), get(1) rebuild the point |
| Points.EqualsIsIdentity | src/commonMain/kotlin/io/github/cponfick/kompgeom/core/Point2.kt:91-96 | componentwise `equals` holds exactly for equal points, and is symmetric |
| Points.SqDistanceIsMetric | src/commonMain/kotlin/io/github/cponfick/kompgeom/core/Point2.kt:50-54 | the squared distance is non-negative and symmetric, and zero exactly between equal points |
| Points.SqDistanceExample | src/commonMain/kotlin/io/github/cponfick/kompgeom/core/Point2.kt:50-54 | from (1,2) to (4,6) the squared distance is 25 (distance 5) |
| Points.TimesScalesSqDistance | src/commonMain/kotlin/io/github/cponfick/kompgeom/core/Point2.kt:42 | scaling both points by k multiplies their squared distance by k^2 |
| Points.TimesComposes | src/commonMain/kotlin/io/github/cponfick/kompgeom/core/Point2.kt:42 | scaling by 1 is the identity; scaling by j then k is scaling by j*k |
| ClosestPairs.ScalePairSqDistance | src/commonMain/kotlin/io/github/cponfick/kompgeom/core/Point2.kt:42 | `times(k)` on both points of a pair multiplies their squared distance by k^2 |
| Points.RotateComposes | src/commonMain/kotlin/io/github/cponfick/kompgeom/core/Point2.kt:70-75 | the quarter-turn branches compose: two quarter turns make a half turn, a quarter and a three-quarter turn undo each other, 0 and 2*pi are the identity |
| Points.RotatePreservesSqDistance | src/commonMain/kotlin/io/github/cponfick/kompgeom/core/Point2.kt:70-75 | every quarter-turn rotation about the origin preserves the distance between two points |
| Points.RotateExamples | src/commonMain/kotlin/io/github/cponfick/kompgeom/core/Point2.kt:70-75 | (1,0) rotated by 90, 180, 270 and 360 degrees gives (0,1), (-1,0), (0,-1), (1,0) |
| Vectors.Copy | src/commonMain/kotlin/io/github/cponfick/kompgeom/core/Vec2.kt:21 | the copy constructor gives a vector with the same components, equal under `equals` |
| Vectors.FromPoints | src/commonMain/kotlin/io/github/cponfick/kompgeom/core/Vec2.kt:30 | the constructor `Vec2(a, b)`, the displacement b - a; `FromPointsProperties` and `FromPointsLength` state its antisymmetry and its length |
| Vectors.Get | src/commonMain/kotlin/io/github/cponfick/kompgeom/core/Vec2.kt:44-50 | `get`: x for index 0, y for index 1, an out-of-bounds error for any other; its meaning is stated by `GetRoundTrip` |
| Vectors.Plus | src/commonMain/kotlin/io/github/cponfick/kompgeom/core/Vec2.kt:58 | `plus`, componentwise; `PlusMinusInverse` states that `minus` undoes it, that it commutes and that zero is neutral |
| Vectors.Minus | src/commonMain/kotlin/io/github/cponfick/kompgeom/core/Vec2.kt:66 | `minus`, componentwise; `PlusMinusInverse` states that it undoes `plus` and adds the negation |
| Vectors.Times | src/commonMain/kotlin/io/github/cponfick/kompgeom/core/Vec2.kt:74 | `v * scalar`, componentwise; `TimesProperties` and `DivInvertsTimes` relate it to the companion product, to negation and to division |
| Vectors.ScalarTimes | src/commonMain/kotlin/io/github/cponfick/kompgeom/core/Vec2.kt:194 | the companion `Float.times(vector)`; `TimesProperties` states that it equals `v * scalar` |
| Vectors.Div | src/commonMain/kotlin/io/github/cponfick/kompgeom/core/Vec2.kt:83-85 | `div`: the arithmetic error "Division by zero" for a zero scalar, otherwise componentwise division; `DivInvertsTimes` states that it undoes `times` |
| Vectors.Neg | src/commonMain/kotlin/io/github/cponfick/kompgeom/core/Vec2.kt:92 | `unaryMinus`; `TimesProperties` states that it is scaling by -1 and an involution |
| Vectors.Dot | src/commonMain/kotlin/io/github/cponfick/kompgeom/core/Vec2.kt:100 | `dot`; `DotProperties` states that it commutes, with the (1,2).(3,4) = 11 value |
| Vectors.Cross | src/commonMain/kotlin/io/github/cponfick/kompgeom/core/Vec2.kt:108 | the scalar `cross`; `CrossProperties` states that it is antisymmetric and zero on a vector with itself |
| Vectors.Perpendicular | src/commonMain/kotlin/io/github/cponfick/kompgeom/core/Vec2.kt:115 | `perpendicular`, the quarter turn (-y, x); `PerpendicularProperties` states that it is orthogonal to v and applied twice gives -v |
| Vectors.ApproxEqual | src/commonMain/kotlin/io/github/cponfick/kompgeom/core/Vec2.kt:144-145 | `approxEqual`: both components differ by strictly less than epsilon; `ApproxEqualProperties` states its symmetry and when it is reflexive |
| Vectors.Equals | src/commonMain/kotlin/io/github/cponfick/kompgeom/core/Vec2.kt:162-167 | `equals` on two vectors: both components equal; `EqualsIsIdentity` states that it is value equality |
| Vectors.CompanionConstants | src/commonMain/kotlin/io/github/cponfick/kompgeom/core/Vec2.kt:177-186 | `zero()` is what scaling by 0 gives and is neutral for `plus`; `one()` is `unitX() + unitY()`; `unitX()` and `unitY()` are orthonormal, `unitY()` is the perpendicular of `unitX()` with cross product 1, and every vector is x * unitX + y * unitY |
| Vectors.GetRoundTrip | src/commonMain/kotlin/io/github/cponfick/kompgeom/core/Vec2.kt:44-50 | `get` succeeds exactly for indices 0 and 1, fails with an out-of-bounds error otherwise, and get(0), get(1) rebuild the vector |
| Vectors.EqualsIsIdentity | src/commonMain/kotlin/io/github/cponfick/kompgeom/core/Vec2.kt:162-167 | componentwise `equals` holds exactly for equal vectors |
| Vectors.FromPointsProperties | src/commonMain/kotlin/io/github/cponfick/kompgeom/core/Vec2.kt:30 | the vector from a to b is minus the vector from b to a, the vector from a to a is zero, and (5,6) to (7,8) is (2,2) |
| Vectors.FromPointsLength | src/commonMain/kotlin/io/github/cponfick/kompgeom/core/Vec2.kt:30 | the squared length of the vector from a to b is the squared distance between the points |
| Vectors.PlusMinusInverse | src/commonMain/kotlin/io/github/cponfick/kompgeom/core/Vec2.kt:58-66 | subtracting w undoes adding w and conversely, addition commutes, v - w = v + (-w), and zero is neutral |
| Vectors.TimesProperties | src/commonMain/kotlin/io/github/cponfick/kompgeom/core/Vec2.kt:74-92 | k * v equals v * k (the companion `Float.times`), negation is scaling by -1 and an involution, scaling by 1 is the identity |
| Vectors.DivInvertsTimes | src/commonMain/kotlin/io/github/cponfick/kompgeom/core/Vec2.kt:83-85 | division fails with the arithmetic error "Division by zero" exactly for a zero scalar, and otherwise undoes scaling |
| Vectors.DotProperties | src/commonMain/kotlin/io/github/cponfick/kompgeom/core/Vec2.kt:100 | the dot product commutes; (1,2).(3,4) = 11 |
| Vectors.CrossProperties | src/commonMain/kotlin/io/github/cponfick/kompgeom/core/Vec2.kt:108 | the cross product is antisymmetric and zero on v with itself; (1,2)x(3,4) = -2 |
| Vectors.PerpendicularProperties | src/commonMain/kotlin/io/github/cponfick/kompgeom/core/Vec2.kt:115 | the perpendicular is orthogonal to v, applied twice gives -v, and v x perp(v) is the squared length of v |
| Vectors.ApproxEqualProperties | src/commonMain/kotlin/io/github/cponfick/kompgeom/core/Vec2.kt:144-145 | `approxEqual` is symmetric, holds only for a positive epsilon, holds of a vector with itself exactly when epsilon > 0, and holds of equal vectors at the default epsilon |
| Algorithms.Lowercase | src/commonMain/kotlin/io/github/cponfick/kompgeom/algorithms/IAlgorithm.kt:40 | lowercasing keeps the length |
| Algorithms.ReplaceSpaces | src/commonMain/kotlin/io/github/cponfick/kompgeom/algorithms/IAlgorithm.kt:40 | replacing spaces by hyphens keeps the length |
| Algorithms.Norm | src/commonMain/kotlin/io/github/cponfick/kompgeom/algorithms/IAlgorithm.kt:40 | `lowercase().replace(" ", "-")`; `NormProperties` and `NormConcat` state what it keeps, what it removes and that it works part by part |
| Algorithms.Id | src/commonMain/kotlin/io/github/cponfick/kompgeom/algorithms/IAlgorithm.kt:39-40 | `getId`: the normalised group, a colon and the normalised name; `IdProperties` and `IdSplits` state its alphabet, its length and how it splits back |
| Algorithms.NormConcat | src/commonMain/kotlin/io/github/cponfick/kompgeom/algorithms/IAlgorithm.kt:40 | normalising a concatenation normalises each part |
| Algorithms.NormProperties | src/commonMain/kotlin/io/github/cponfick/kompgeom/algorithms/IAlgorithm.kt:40 | normalising keeps the length, leaves no space and no upper-case letter, keeps every other character, and is idempotent |
| Algorithms.IdProperties | src/commonMain/kotlin/io/github/cponfick/kompgeom/algorithms/IAlgorithm.kt:39-40 | the id has no space and no upper-case letter, and is one character longer than group and name together |
| Algorithms.IdSplits | src/commonMain/kotlin/io/github/cponfick/kompgeom/algorithms/IAlgorithm.kt:39-40 | for a group without a colon the first colon of the id sits right after the normalised group, and what follows it is the normalised name |
| ClosestPairs.GroupNorm | src/commonMain/kotlin/io/github/cponfick/kompgeom/algorithms/closestpair/IClosestPair.kt:21 | the group `Group`, "Closest Pair", normalises to "closest-pair" |
| PairScan.Step | src/commonMain/kotlin/io/github/cponfick/kompgeom/algorithms/closestpair/ClosestPairNaive.kt:27-31 | one iteration of the inner loop body: replace the best pair and distance on a strictly smaller distance; `ScanAppend` and `ScanNext` tie it to the loop |
| PairScan.Scan | src/commonMain/kotlin/io/github/cponfick/kompgeom/algorithms/closestpair/ClosestPairNaive.kt:25-33 | the loop variables after visiting a list of index pairs in order; `ScanChoice` and `ScanWindow` state that it ends at its start or at the first closest visited pair |
| PairScan.ScanAppend | src/commonMain/kotlin/io/github/cponfick/kompgeom/algorithms/closestpair/ClosestPairNaive.kt:27-32 | visiting one more index pair is one more step of the loop body: replace the best pair on a strictly smaller distance |
| PairScan.VisitedNext | src/commonMain/kotlin/io/github/cponfick/kompgeom/algorithms/closestpair/ClosestPairNaive.kt:26 | one more inner iteration visits (i, j) after all pairs visited so far |
| PairScan.VisitedRowDone | src/commonMain/kotlin/io/github/cponfick/kompgeom/algorithms/closestpair/ClosestPairNaive.kt:25-26 | a row starts where the previous rows end, and a finished row completes the pairs of the first i + 1 rows |
| PairScan.ScanNext | src/commonMain/kotlin/io/github/cponfick/kompgeom/algorithms/closestpair/ClosestPairNaive.kt:26-31 | one inner iteration extends the fold by the step for (i, j) |
| PairScan.StepScale | src/commonMain/kotlin/io/github/cponfick/kompgeom/algorithms/closestpair/ClosestPairNaive.kt:27-31 | with every point scaled by k != 0, one loop iteration from the scaled loop variables (a finite bound scaled by k^2) ends at the scaled result of the unscaled iteration |
| PairScan.ScanScale | src/commonMain/kotlin/io/github/cponfick/kompgeom/algorithms/closestpair/ClosestPairNaive.kt:25-33 | the same for the whole loop over any list of visited pairs: scaling commutes with the fold |
| PairScan.ScanRow | src/commonMain/kotlin/io/github/cponfick/kompgeom/algorithms/closestpair/ClosestPairNaive.kt:26-32 | the inner loop over j from i + 1 (up to w positions on, or to the end) turns the fold of the first i rows into the fold of the first i + 1 rows |
| PairScan.Candidates | src/commonMain/kotlin/io/github/cponfick/kompgeom/algorithms/closestpair/ClosestPairDivideAndConquer.kt:28-29 | every visited pair (k, l) has k < l, l within w positions after k and inside the list |
| PairScan.CandidatesComplete | src/commonMain/kotlin/io/github/cponfick/kompgeom/algorithms/closestpair/ClosestPairNaive.kt:25-26 | every pair inside the window with outer index below i is visited |
| PairScan.CandidatesOrdered | src/commonMain/kotlin/io/github/cponfick/kompgeom/algorithms/closestpair/ClosestPairNaive.kt:25-26 | the pairs are visited in strictly increasing lexicographic order, so each exactly once |
| PairScan.ScanChoice | src/commonMain/kotlin/io/github/cponfick/kompgeom/algorithms/closestpair/ClosestPairNaive.kt:27-32 | the fold keeps its start when no visited pair is strictly below the start bound; otherwise it ends at the first visited pair of minimal distance, which is below the start bound |
| PairScan.ScanWindow | src/commonMain/kotlin/io/github/cponfick/kompgeom/algorithms/closestpair/ClosestPairDivideAndConquer.kt:28-38 | the double loop with window w ends at its start, when no pair in the window is strictly below the start bound, or at the first closest pair in the window |
| NaiveSolver.New | src/commonMain/kotlin/io/github/cponfick/kompgeom/algorithms/closestpair/ClosestPairNaive.kt:12-19 | construction succeeds exactly for at least two points, keeps a copy of the input, and otherwise fails with an illegal-argument error |
| NaiveSolver.StartBest | src/commonMain/kotlin/io/github/cponfick/kompgeom/algorithms/closestpair/ClosestPairNaive.kt:22-23 | the loop variables before the loop: the pair (points[0], points[1]) and +infinity |
| NaiveSolver.BruteForcePair | src/commonMain/kotlin/io/github/cponfick/kompgeom/algorithms/closestpair/ClosestPairNaive.kt:21-35 | the pair `run` returns, the fold over every pair i < j; `BruteForceIsFirstClosest` and `FirstClosestIsBruteForce` characterise it in both directions |
| NaiveSolver.ClosestPairNaive.Run | src/commonMain/kotlin/io/github/cponfick/kompgeom/algorithms/closestpair/ClosestPairNaive.kt:21-35 | the loop returns, as a `ClosestResult` (the `Result` record), the brute-force pair with its own distance, with +infinity as the start bound |
| NaiveSolver.BruteForceIsFirstClosest | src/commonMain/kotlin/io/github/cponfick/kompgeom/algorithms/closestpair/ClosestPairNaive.kt:21-35 | the brute-force pair is (points[i], points[j]) for positions i < j at minimal distance, with every lexicographically earlier pair strictly farther apart; the final bound is finite |
| NaiveSolver.BruteForceBound | src/commonMain/kotlin/io/github/cponfick/kompgeom/algorithms/closestpair/ClosestPairNaive.kt:23-34 | the loop ends with a finite distance, which is the distance of the returned pair |
| NaiveSolver.FirstClosestUnique | src/commonMain/kotlin/io/github/cponfick/kompgeom/algorithms/closestpair/ClosestPairNaive.kt:28-31 | at most one pair of positions is the first closest one |
| NaiveSolver.FirstClosestIsBruteForce | src/commonMain/kotlin/io/github/cponfick/kompgeom/algorithms/closestpair/ClosestPairNaive.kt:28-31 | any first closest pair of positions is what the loop returns |
| NaiveSolver.BruteForceFromInput | src/commonMain/kotlin/io/github/cponfick/kompgeom/algorithms/closestpair/ClosestPairNaive.kt:27-34 | both returned points are input points, at two positions i < j |
| NaiveSolver.BruteForceIsMinimal | src/commonMain/kotlin/io/github/cponfick/kompgeom/algorithms/closestpair/ClosestPairNaive.kt:25-33 | no pair of input positions is closer than the returned pair |
| NaiveSolver.BruteForceDuplicate | src/commonMain/kotlin/io/github/cponfick/kompgeom/algorithms/closestpair/ClosestPairNaive.kt:25-33 | with a repeated input point the returned pair is two equal points at distance 0 |
| NaiveSolver.BruteForceTwoPoints | src/commonMain/kotlin/io/github/cponfick/kompgeom/algorithms/closestpair/ClosestPairNaive.kt:22-34 | two points come back as that pair, in input order |
| NaiveSolver.ScaledFirstClosest | src/commonMain/kotlin/io/github/cponfick/kompgeom/algorithms/closestpair/ClosestPairNaive.kt:25-33 | scaling every point by a non-zero k (`times` on each point, the helper `ScaleAll`) keeps the first closest pair of positions |
| NaiveSolver.BruteForceScaleInvariant | src/commonMain/kotlin/io/github/cponfick/kompgeom/algorithms/closestpair/ClosestPairNaive.kt:25-33 | scaling the input by a non-zero k returns the same pair scaled, even among ties |
| NaiveSolver.Id | src/commonMain/kotlin/io/github/cponfick/kompgeom/algorithms/IAlgorithm.kt:39-40 | `getId()` of the brute-force solver: the id built from the group `Group` and the name `Name`, "Closest Pair Naive" (ClosestPairNaive.kt line 37); `IdExample` states its value |
| NaiveSolver.IdExample | src/commonMain/kotlin/io/github/cponfick/kompgeom/algorithms/closestpair/ClosestPairNaive.kt:37 | the id is "closest-pair:closest-pair-naive" |
| Presort.Filter | src/commonMain/kotlin/io/github/cponfick/kompgeom/algorithms/closestpair/ClosestPairDivideAndConquer.kt:51-52 | a filter is never longer than its input |
| Presort.FilterCons | src/commonMain/kotlin/io/github/cponfick/kompgeom/algorithms/closestpair/ClosestPairDivideAndConquer.kt:51-52 | filtering a list with one more point in front keeps that point exactly when it passes |
| Presort.FilterSuffix | src/commonMain/kotlin/io/github/cponfick/kompgeom/algorithms/closestpair/ClosestPairDivideAndConquer.kt:51-52 | filtering the suffix from position k keeps s[k] exactly when it passes, then filters the rest |
| Presort.FilterMembership | src/commonMain/kotlin/io/github/cponfick/kompgeom/algorithms/closestpair/ClosestPairDivideAndConquer.kt:51-52 | a point is kept exactly when it is in the list and passes the predicate |
| Presort.FilterConcat | src/commonMain/kotlin/io/github/cponfick/kompgeom/algorithms/closestpair/ClosestPairDivideAndConquer.kt:51-52 | filtering a concatenation filters each part |
| Presort.FilterPartition | src/commonMain/kotlin/io/github/cponfick/kompgeom/algorithms/closestpair/ClosestPairDivideAndConquer.kt:51-52 | a predicate and its negation keep every element exactly once between them |
| Presort.FilterSorted | src/commonMain/kotlin/io/github/cponfick/kompgeom/algorithms/closestpair/ClosestPairDivideAndConquer.kt:51-52 | filtering keeps a list sorted |
| Presort.FilterAll | src/commonMain/kotlin/io/github/cponfick/kompgeom/algorithms/closestpair/ClosestPairDivideAndConquer.kt:51-52 | a predicate true on every element keeps the whole list |
| Presort.FilterNone | src/commonMain/kotlin/io/github/cponfick/kompgeom/algorithms/closestpair/ClosestPairDivideAndConquer.kt:51-52 | a predicate false on every element keeps nothing |
| Presort.FilterCount | src/commonMain/kotlin/io/github/cponfick/kompgeom/algorithms/closestpair/ClosestPairDivideAndConquer.kt:51-52 | a passing point is kept as often as it occurs, a failing one never |
| Presort.FilterSameMultiset | src/commonMain/kotlin/io/github/cponfick/kompgeom/algorithms/closestpair/ClosestPairDivideAndConquer.kt:51-52 | lists holding the same points give filters holding the same points |
| Presort.FilterScale | src/commonMain/kotlin/io/github/cponfick/kompgeom/algorithms/closestpair/ClosestPairDivideAndConquer.kt:51-52 | filtering the scaled points with a test that reads a scaled point as the original test reads the point gives the scaled filtered list, in the same order |
| Presort.SortedBySlices | src/commonMain/kotlin/io/github/cponfick/kompgeom/algorithms/closestpair/ClosestPairDivideAndConquer.kt:47-49 | both parts of a sorted list cut at any position are sorted |
| Presort.Insert | src/commonMain/kotlin/io/github/cponfick/kompgeom/algorithms/closestpair/ClosestPairDivideAndConquer.kt:6-7 | inserting adds one element |
| Presort.SortBy | src/commonMain/kotlin/io/github/cponfick/kompgeom/algorithms/closestpair/ClosestPairDivideAndConquer.kt:6-7 | sorting keeps the length |
| Presort.SortByCons | src/commonMain/kotlin/io/github/cponfick/kompgeom/algorithms/closestpair/ClosestPairDivideAndConquer.kt:6-7 | sorting a list with one more point in front inserts that point into the sorted rest |
| Presort.InsertPermutes | src/commonMain/kotlin/io/github/cponfick/kompgeom/algorithms/closestpair/ClosestPairDivideAndConquer.kt:6-7 | inserting adds exactly the new point to the list's points |
| Presort.InsertSorted | src/commonMain/kotlin/io/github/cponfick/kompgeom/algorithms/closestpair/ClosestPairDivideAndConquer.kt:6-7 | inserting into a sorted list keeps it sorted |
| Presort.SortByCorrect | src/commonMain/kotlin/io/github/cponfick/kompgeom/algorithms/closestpair/ClosestPairDivideAndConquer.kt:6-7 | `sortedBy` returns a permutation of its input, non-decreasing in the key |
| Presort.SortBySorted | src/commonMain/kotlin/io/github/cponfick/kompgeom/algorithms/closestpair/ClosestPairDivideAndConquer.kt:6-7 | an already sorted list comes back unchanged |
| Presort.InsertStable | src/commonMain/kotlin/io/github/cponfick/kompgeom/algorithms/closestpair/ClosestPairDivideAndConquer.kt:6-7 | inserting puts the new point in front of the points sharing its key and changes no other key's points |
| Presort.SortByStable | src/commonMain/kotlin/io/github/cponfick/kompgeom/algorithms/closestpair/ClosestPairDivideAndConquer.kt:6-7 | `sortedBy` is stable: the points of each key keep their input order |
| Presort.InsertScale | src/commonMain/kotlin/io/github/cponfick/kompgeom/algorithms/closestpair/ClosestPairDivideAndConquer.kt:6-7 | for k > 0, inserting the scaled point into the scaled list is the scaled insertion |
| Presort.SortByScale | src/commonMain/kotlin/io/github/cponfick/kompgeom/algorithms/closestpair/ClosestPairDivideAndConquer.kt:6-7 | for k > 0, `sortedBy` on the scaled points is the scaled sorted list, equal keys in the same order |
| DivideAndConquerSolver.New | src/commonMain/kotlin/io/github/cponfick/kompgeom/algorithms/closestpair/ClosestPairDivideAndConquer.kt:5-13 | construction succeeds exactly for at least two points, storing the input sorted by x and by y (sorted, same points as the input), and otherwise fails with an illegal-argument error |
| DivideAndConquerSolver.ClosestPairDivideAndConquer.Run | src/commonMain/kotlin/io/github/cponfick/kompgeom/algorithms/closestpair/ClosestPairDivideAndConquer.kt:15-19 | `run` returns, as a `ClosestResult` (the `Result` record), the recursion's pair, both points from the input, with the distance between them |
| DivideAndConquerSolver.InStrip | src/commonMain/kotlin/io/github/cponfick/kompgeom/algorithms/closestpair/ClosestPairDivideAndConquer.kt:23 | the strip test on a point, squared: (x - midX)^2 <= D; `SquaredStripTest` states that it is the code's interval test |
| DivideAndConquerSolver.Strip | src/commonMain/kotlin/io/github/cponfick/kompgeom/algorithms/closestpair/ClosestPairDivideAndConquer.kt:22-23 | `sy`, py filtered by the strip test around the middle point's x; `StripMembership` states its contents and order |
| DivideAndConquerSolver.SplitSeed | src/commonMain/kotlin/io/github/cponfick/kompgeom/algorithms/closestpair/ClosestPairDivideAndConquer.kt:25-26 | the strip loop's variables before the loop: (px[0], px[1]) and the bound d |
| DivideAndConquerSolver.SplitPair | src/commonMain/kotlin/io/github/cponfick/kompgeom/algorithms/closestpair/ClosestPairDivideAndConquer.kt:21-40 | what `closestSplitPair` returns, the windowed fold over the strip from the seed; `SplitPairSpec` states it as the seed or the first closest compared strip pair |
| DivideAndConquerSolver.StripMembership | src/commonMain/kotlin/io/github/cponfick/kompgeom/algorithms/closestpair/ClosestPairDivideAndConquer.kt:22-23 | the strip holds exactly the points of py whose x passes the strip test around the middle point's x, and stays sorted by y |
| DivideAndConquerSolver.SquaredStripTest | src/commonMain/kotlin/io/github/cponfick/kompgeom/algorithms/closestpair/ClosestPairDivideAndConquer.kt:23 | for any squared bound D and r the integer part of sqrt(D), the squared test (x - midX)^2 <= D holds exactly when midX - r <= x <= midX + r, which for integer x is the code's test against d = sqrt(D) |
| DivideAndConquerSolver.FloorSqrt | src/commonMain/kotlin/io/github/cponfick/kompgeom/algorithms/closestpair/ClosestPairDivideAndConquer.kt:23 | every squared bound D >= 0 has an integer part r of its square root: r^2 <= D < (r + 1)^2 |
| DivideAndConquerSolver.ClosestSplitPair | src/commonMain/kotlin/io/github/cponfick/kompgeom/algorithms/closestpair/ClosestPairDivideAndConquer.kt:21-40 | the strip loop returns the windowed fold over the strip, started from (px[0], px[1]) with bound d |
| DivideAndConquerSolver.SplitPairSpec | src/commonMain/kotlin/io/github/cponfick/kompgeom/algorithms/closestpair/ClosestPairDivideAndConquer.kt:21-40 | the split pair is (px[0], px[1]) when no compared strip pair is strictly below d, and otherwise the first closest compared strip pair, strictly below d |
| DivideAndConquerSolver.SplitPairFrom | src/commonMain/kotlin/io/github/cponfick/kompgeom/algorithms/closestpair/ClosestPairDivideAndConquer.kt:21-40 | both points of the split pair come from px or py |
| DivideAndConquerSolver.Combine | src/commonMain/kotlin/io/github/cponfick/kompgeom/algorithms/closestpair/ClosestPairDivideAndConquer.kt:63-67 | the `when` choosing among the left, right and split pairs with strict comparisons; `CombineChoice` states which it picks |
| DivideAndConquerSolver.CombineChoice | src/commonMain/kotlin/io/github/cponfick/kompgeom/algorithms/closestpair/ClosestPairDivideAndConquer.kt:63-67 | when d1 != d2 the result is one of the three pairs at min(d1, d2, d3); a split pair at or below both halves wins; when d1 == d2 the split pair is returned whatever its distance |
| DivideAndConquerSolver.LeftOf | src/commonMain/kotlin/io/github/cponfick/kompgeom/algorithms/closestpair/ClosestPairDivideAndConquer.kt:51 | the `leftPy` test x <= t, t the x of the last left point; `PySplit` states what it keeps |
| DivideAndConquerSolver.RightOf | src/commonMain/kotlin/io/github/cponfick/kompgeom/algorithms/closestpair/ClosestPairDivideAndConquer.kt:52 | the `rightPy` test x > t; `PySplit` states what it keeps |
| DivideAndConquerSolver.DivideAndConquerPair | src/commonMain/kotlin/io/github/cponfick/kompgeom/algorithms/closestpair/ClosestPairDivideAndConquer.kt:42-68 | `closestPair` as a function; `ClosestPair` is proved equal to it, and `DivideAndConquerFrom`, `NoWorseWhenHalvesDiffer` and `TieFallsBackToFirstPoints` state what it returns |
| DivideAndConquerSolver.PySplit | src/commonMain/kotlin/io/github/cponfick/kompgeom/algorithms/closestpair/ClosestPairDivideAndConquer.kt:51-52 | `leftPy` holds exactly the points of py with x at most the threshold and `rightPy` the rest; together they hold every point of py once, and both stay sorted by y |
| DivideAndConquerSolver.DivideAndConquerFrom | src/commonMain/kotlin/io/github/cponfick/kompgeom/algorithms/closestpair/ClosestPairDivideAndConquer.kt:42-68 | both points of the recursion's pair come from px or py |
| DivideAndConquerSolver.DivideAndConquerHalvesFrom | src/commonMain/kotlin/io/github/cponfick/kompgeom/algorithms/closestpair/ClosestPairDivideAndConquer.kt:47-67 | the same for more than three points, from the halves' pairs and the split pair |
| DivideAndConquerSolver.DivideAndConquerBase | src/commonMain/kotlin/io/github/cponfick/kompgeom/algorithms/closestpair/ClosestPairDivideAndConquer.kt:43-45 | three points or fewer give the brute-force pair |
| DivideAndConquerSolver.DivideAndConquerUnfold | src/commonMain/kotlin/io/github/cponfick/kompgeom/algorithms/closestpair/ClosestPairDivideAndConquer.kt:47-67 | above three points the recursion combines the two halves' pairs with the split pair at d = min(d1, d2) |
| DivideAndConquerSolver.DivideAndConquerStep | src/commonMain/kotlin/io/github/cponfick/kompgeom/algorithms/closestpair/ClosestPairDivideAndConquer.kt:47-67 | given the halves, their pairs and the split pair computed as the code does, the recursion's pair is their combination |
| DivideAndConquerSolver.SubListsFrom | src/commonMain/kotlin/io/github/cponfick/kompgeom/algorithms/closestpair/ClosestPairDivideAndConquer.kt:47-52 | the halves of px and the filters of py hold only points of px and py |
| DivideAndConquerSolver.ClosestPair | src/commonMain/kotlin/io/github/cponfick/kompgeom/algorithms/closestpair/ClosestPairDivideAndConquer.kt:42-45 | the recursion returns `DivideAndConquerPair`: the naive solver's pair for three points or fewer |
| DivideAndConquerSolver.ClosestPairHalves | src/commonMain/kotlin/io/github/cponfick/kompgeom/algorithms/closestpair/ClosestPairDivideAndConquer.kt:47-67 | above three points the branch returns `DivideAndConquerPair`; each recursive call gets at least two and fewer points, so it ends and px[0], px[1], px[size/2] are in bounds |
| DivideAndConquerSolver.ResultFromInput | src/commonMain/kotlin/io/github/cponfick/kompgeom/algorithms/closestpair/ClosestPairDivideAndConquer.kt:15-19 | for two consistent sortings both points of the result are input points |
| DivideAndConquerSolver.SplitByXIsHalving | src/commonMain/kotlin/io/github/cponfick/kompgeom/algorithms/closestpair/ClosestPairDivideAndConquer.kt:47-52 | without a repeated x at the cut, filtering px by the threshold gives back exactly its two halves |
| DivideAndConquerSolver.SplitSides | src/commonMain/kotlin/io/github/cponfick/kompgeom/algorithms/closestpair/ClosestPairDivideAndConquer.kt:47-52 | in px sorted by x, without a repeated x at the cut, every left point passes the `leftPy` test and fails the `rightPy` test, and the reverse for every right point |
| DivideAndConquerSolver.HalvesConsistent | src/commonMain/kotlin/io/github/cponfick/kompgeom/algorithms/closestpair/ClosestPairDivideAndConquer.kt:47-55 | without a repeated x at the cut, each recursive call again gets the same points sorted by x and by y |
| DivideAndConquerSolver.RepeatedXSplitsUnevenly | src/commonMain/kotlin/io/github/cponfick/kompgeom/algorithms/closestpair/ClosestPairDivideAndConquer.kt:51-52 | with x repeated at the cut, four points on one vertical line all go to `leftPy` and `rightPy` is empty |
| DivideAndConquerSolver.SidesScale | src/commonMain/kotlin/io/github/cponfick/kompgeom/algorithms/closestpair/ClosestPairDivideAndConquer.kt:51-52 | for k > 0, the `leftPy` and `rightPy` filters of the scaled points at the scaled threshold are the scaled filters |
| DivideAndConquerSolver.StripScale | src/commonMain/kotlin/io/github/cponfick/kompgeom/algorithms/closestpair/ClosestPairDivideAndConquer.kt:22-23 | for k != 0, the strip of the scaled points at bound k^2 * D is the scaled strip at D |
| DivideAndConquerSolver.SplitPairScale | src/commonMain/kotlin/io/github/cponfick/kompgeom/algorithms/closestpair/ClosestPairDivideAndConquer.kt:21-40 | for k != 0, the strip search on the scaled points at bound k^2 * D returns the scaled split pair |
| DivideAndConquerSolver.CombineScale | src/commonMain/kotlin/io/github/cponfick/kompgeom/algorithms/closestpair/ClosestPairDivideAndConquer.kt:57-67 | for k != 0, `minOf(d1, d2)` scales by k^2 and the `when` picks the same one of the three pairs, scaled |
| DivideAndConquerSolver.DivideAndConquerScaleInvariant | src/commonMain/kotlin/io/github/cponfick/kompgeom/algorithms/closestpair/ClosestPairDivideAndConquer.kt:42-68 | scale invariance: for every k > 0 and all px, py with at least two points, the recursion on the scaled lists returns the same pair, scaled, ties included |
| DivideAndConquerSolver.HalvesScaleInvariant | src/commonMain/kotlin/io/github/cponfick/kompgeom/algorithms/closestpair/ClosestPairDivideAndConquer.kt:47-67 | the same above three points: halves, threshold, bound and strip all scale together |
| DivideAndConquerSolver.SolverScaleInvariant | src/commonMain/kotlin/io/github/cponfick/kompgeom/algorithms/closestpair/ClosestPairDivideAndConquer.kt:15-19 | for k > 0, the solver on the scaled input holds the scaled sortings, and `run` selects the same pair, scaled, at k^2 times the squared distance (k times the distance) |
| DivideAndConquerSolver.NoWorseWhenHalvesDiffer | src/commonMain/kotlin/io/github/cponfick/kompgeom/algorithms/closestpair/ClosestPairDivideAndConquer.kt:57-67 | when d1 != d2 the result is no farther apart than the closer half's pair |
| DivideAndConquerSolver.TieFallsBackToFirstPoints | src/commonMain/kotlin/io/github/cponfick/kompgeom/algorithms/closestpair/ClosestPairDivideAndConquer.kt:25-26 | when d1 == d2 and no compared strip pair is strictly below d, the result is (px[0], px[1]) |
| DivideAndConquerSolver.TwoSortedPoints | src/commonTest/kotlin/io/github/cponfick/kompgeom/algorithms/closestpair/ClosestPairDivideAndConquerTest.kt:11-21 | for two points a, b ordered on both axes, as (0,0), (1,1) are, construction succeeds, keeps [a, b] as both sortings, and the result is (a, b) in order |
| DivideAndConquerSolver.SuffixNorm | src/commonMain/kotlin/io/github/cponfick/kompgeom/algorithms/closestpair/ClosestPairDivideAndConquer.kt:70 | " Divide and Conquer" normalises to "-divide-and-conquer" |
| DivideAndConquerSolver.NameSplit | src/commonMain/kotlin/io/github/cponfick/kompgeom/algorithms/closestpair/ClosestPairDivideAndConquer.kt:70 | the name is the group "Closest Pair" followed by " Divide and Conquer" |
| DivideAndConquerSolver.NameNorm | src/commonMain/kotlin/io/github/cponfick/kompgeom/algorithms/closestpair/ClosestPairDivideAndConquer.kt:70 | the name normalises to "closest-pair-divide-and-conquer" |
| DivideAndConquerSolver.Id | src/commonMain/kotlin/io/github/cponfick/kompgeom/algorithms/IAlgorithm.kt:39-40 | `getId()` of the divide-and-conquer solver: the id built from `Group` and `Name`, "Closest Pair Divide and Conquer" (ClosestPairDivideAndConquer.kt line 70); `IdExample` states its value |
| DivideAndConquerSolver.IdExample | src/commonTest/kotlin/io/github/cponfick/kompgeom/algorithms/closestpair/ClosestPairDivideAndConquerTest.kt:69-73 | the id is "closest-pair:closest-pair-divide-and-conquer" |
| CorrectedSolver.BetterHalf | src/commonMain/kotlin/io/github/cponfick/kompgeom/algorithms/closestpair/ClosestPairDivideAndConquer.kt:57-59 | the closer of the halves' pairs is one of them, at distance min(d1, d2) |
| CorrectedSolver.SeededSplitPair | src/commonMain/kotlin/io/github/cponfick/kompgeom/algorithms/closestpair/ClosestPairDivideAndConquer.kt:21-40 | the strip search seeded with the closer half's pair and its distance instead of (px[0], px[1]); `SeededSplitPairSpec` states its result |
| CorrectedSolver.CorrectedPair | src/commonMain/kotlin/io/github/cponfick/kompgeom/algorithms/closestpair/ClosestPairDivideAndConquer.kt:42-68 | the recursion of `closestPair` with the seeded strip search; `CorrectedNoWorseThanHalves` and `TieCorrected` state what it returns |
| CorrectedSolver.SeededSplitPairSpec | src/commonMain/kotlin/io/github/cponfick/kompgeom/algorithms/closestpair/ClosestPairDivideAndConquer.kt:21-40 | the strip scan started from the closer half's pair returns that pair or a strictly closer first closest strip pair, never anything farther apart |
| CorrectedSolver.CorrectedNoWorseThanHalves | src/commonMain/kotlin/io/github/cponfick/kompgeom/algorithms/closestpair/ClosestPairDivideAndConquer.kt:57-67 | with the repaired seed the result is never farther apart than either half's pair, ties included |
| CorrectedSolver.TieSortedByX | src/commonMain/kotlin/io/github/cponfick/kompgeom/algorithms/closestpair/ClosestPairDivideAndConquer.kt:6 | the six example points A, B, C, D, E, F are already in x order |
| CorrectedSolver.TieSortedByY | src/commonMain/kotlin/io/github/cponfick/kompgeom/algorithms/closestpair/ClosestPairDivideAndConquer.kt:7 | their stable y order is A, C, D, F, B, E |
| CorrectedSolver.TieApart | src/commonMain/kotlin/io/github/cponfick/kompgeom/algorithms/closestpair/ClosestPairNaive.kt:25-31 | no two of the six points are closer than A and C, and the only pair the loop visits before (A, C), namely (A, B), is strictly farther apart |
| CorrectedSolver.TieClosest | src/commonMain/kotlin/io/github/cponfick/kompgeom/algorithms/closestpair/ClosestPairNaive.kt:25-31 | (A, C) is at most as far apart as every pair of positions, and strictly closer than every pair visited before it |
| CorrectedSolver.TieBruteForce | src/commonMain/kotlin/io/github/cponfick/kompgeom/algorithms/closestpair/ClosestPairNaive.kt:21-35 | the brute-force answer for the six points is (A, C) at squared distance 4, while (A, B) is at 101 |
| CorrectedSolver.TieFilters | src/commonMain/kotlin/io/github/cponfick/kompgeom/algorithms/closestpair/ClosestPairDivideAndConquer.kt:51-52 | the threshold x = 2 splits their y order into [A, C, B] and [D, F, E] |
| CorrectedSolver.TieStrip | src/commonMain/kotlin/io/github/cponfick/kompgeom/algorithms/closestpair/ClosestPairDivideAndConquer.kt:22-29 | the strip around x = 10 at squared distance 4 is [D, F, E], and no pair of it the loop compares is closer than 4 |
| CorrectedSolver.TieHalfPairs | src/commonMain/kotlin/io/github/cponfick/kompgeom/algorithms/closestpair/ClosestPairDivideAndConquer.kt:43-45 | the brute-force pairs of the halves [A, B, C] and [D, E, F] are (A, C) and (D, F), both at squared distance 4 |
| CorrectedSolver.TieHalves | src/commonMain/kotlin/io/github/cponfick/kompgeom/algorithms/closestpair/ClosestPairDivideAndConquer.kt:47-55 | both recursive calls, as written and repaired, answer (A, C) on the left and (D, F) on the right |
| CorrectedSolver.TieAsWritten | src/commonMain/kotlin/io/github/cponfick/kompgeom/algorithms/closestpair/ClosestPairDivideAndConquer.kt:25-26 | the solver as written returns (A, B), at squared distance 101, for the six points sorted by x and by y |
| CorrectedSolver.TieCorrected | src/commonMain/kotlin/io/github/cponfick/kompgeom/algorithms/closestpair/ClosestPairDivideAndConquer.kt:21-67 | the repaired solver returns (A, C), the brute-force pair, for the same points |

## Left out

- Floating point. `Float` rounding, NaN, infinities and `-0.0` are not modelled; coordinates are
  exact integers (points) or reals (vectors), and distances are squared, so `sqrt` is not
  modelled. The returned `distance` is the squared distance of the returned pair.
- Points.Times: the scalar is an integer, like the coordinates, so a fractional factor such as
  `times(0.5f)` is not expressible; `Vec2.times` takes an exact real.
- `Point2.hashCode` and `Vec2.hashCode`: Float bit patterns.
- `Point2.rotate` outside the exact quarter-turn angles, and degree conversion: they use
  `cos`, `sin` and a floating-point pi. The exact angles are the datatype `QuarterTurn`.
- `Vec2.length`, `angle` and `normalize`: they need `sqrt` and `acos`.
- The companion `Float.div(vector)`: it divides by each component with IEEE semantics
  (infinity on a zero component), which exact reals cannot express.
- `lowercase()` outside ASCII: Unicode case mapping is not modelled; only 'A'..'Z' change.
- That the six-successor window finds every strip pair closer than d (the packing argument), and
  agreement of the divide-and-conquer solver with the brute-force solver in general: the code
  does not always agree (see Findings). The comparison on the 31-point test fixture is not
  reproduced; the six-point example shows where agreement fails.
- NaiveSolver.ClosestPairNaive.Run: states the returned pair as `BruteForcePair` and its
  distance; that this pair is the first closest pair is proved separately
  (`BruteForceIsFirstClosest`), not repeated in the method's contract.
- `sortedBy` is modelled by a stable insertion sort; only its promises (sorted, same points,
  stable) are used, not the library's algorithm.
- The `Collection` input of both constructors is a sequence in iteration order.
- `AngleUnit` (enum) is not part of this model beyond the quarter-turn datatype; `DEFAULT_EPSILON`
  is `Vectors.DefaultEpsilon`.
- The older copies of `Vec2`, `IAlgorithm` and `IClosestPair` under other packages hold the same
  logic and are not modelled separately.

## Findings

| source | as written | input that shows it | evidently intended | confidence | as-written member | corrected member |
|---|---|---|---|---|---|---|
| src/commonMain/kotlin/io/github/cponfick/kompgeom/algorithms/closestpair/ClosestPairDivideAndConquer.kt:25-26 | the strip scan starts from (px[0], px[1]) with bound d, and the combine step returns the split pair whenever d1 == d2, so with no strip pair strictly below d the result is (px[0], px[1]) whatever its distance | A(0,0) B(1,10) C(2,0) D(10,0) E(11,10) F(12,0): both halves give squared distance 4, the strip [D, F, E] has no pair below 4, and the result is (A, B) at squared distance 101 where the closest pair is (A, C) at 4 | seed the strip scan with the closer half's pair, so the result is never worse than either half | not executed | CorrectedSolver.TieAsWritten | CorrectedSolver.CorrectedNoWorseThanHalves |
