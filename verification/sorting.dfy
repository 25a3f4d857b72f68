/**
 * The two Kotlin collection operations the divide-and-conquer solver relies on
 * (algorithms/closestpair/ClosestPairDivideAndConquer.kt): `filter`, which keeps
 * the elements satisfying a predicate in their order, and `sortedBy`, a STABLE
 * sort by one coordinate. `sortedBy` is modelled by a stable insertion sort;
 * what matters about it is that its result is ordered by the key, holds the same
 * points, and keeps points of equal key in their input order.
 */
module Presort {
  import opened Points

  /** The coordinate a list is sorted by: `sortedBy { it.x }` or `sortedBy { it.y }`. */
  datatype Axis = X | Y

  function Coord(p: Point2, a: Axis): int
  {
    match a
    case X => p.x
    case Y => p.y
  }

  /** Non-decreasing in the coordinate `a`. */
  predicate SortedBy(s: seq<Point2>, a: Axis)
  {
    forall i, j :: 0 <= i < j < |s| ==> Coord(s[i], a) <= Coord(s[j], a)
  }

  /** Both parts of a sorted list, cut at m, are sorted. */
  lemma SortedBySlices(s: seq<Point2>, a: Axis, m: int)
    requires SortedBy(s, a) && 0 <= m <= |s|
    ensures SortedBy(s[..m], a) && SortedBy(s[m..], a)
  {
    forall i, j | 0 <= i < j < |s[m..]|
      ensures Coord(s[m..][i], a) <= Coord(s[m..][j], a)
    {
      assert s[m..][i] == s[m + i] && s[m..][j] == s[m + j];
    }
  }

  /** `filter`: the elements satisfying `f`, in their original order. */
  function Filter(s: seq<Point2>, f: Point2 -> bool): (r: seq<Point2>)
    ensures |r| <= |s|
  {
    if s == [] then [] else (if f(s[0]) then [s[0]] else []) + Filter(s[1..], f)
  }

  /** Filtering a list with one more point in front. */
  lemma FilterCons(p: Point2, s: seq<Point2>, f: Point2 -> bool)
    ensures Filter([p] + s, f) == (if f(p) then [p] else []) + Filter(s, f)
  {
    assert ([p] + s)[1..] == s;
  }

  /** Filtering the suffix from position k: s[k] if it is kept, then the filtered suffix after it. */
  lemma FilterSuffix(s: seq<Point2>, k: int, f: Point2 -> bool)
    requires 0 <= k < |s|
    ensures Filter(s[k..], f) == (if f(s[k]) then [s[k]] else []) + Filter(s[k + 1..], f)
  {
    assert s[k..][1..] == s[k + 1..];
  }

  /** An element is kept exactly when it is in the list and satisfies the predicate. */
  lemma {:induction false} FilterMembership(s: seq<Point2>, f: Point2 -> bool)
    ensures forall p :: p in Filter(s, f) <==> p in s && f(p)
  {
    if s != [] {
      FilterMembership(s[1..], f);
      assert s == [s[0]] + s[1..];
    }
  }

  /** Filtering a concatenation filters each part. */
  lemma {:induction false} FilterConcat(a: seq<Point2>, b: seq<Point2>, f: Point2 -> bool)
    ensures Filter(a + b, f) == Filter(a, f) + Filter(b, f)
  {
    if a != [] {
      FilterConcat(a[1..], b, f);
      var head := if f(a[0]) then [a[0]] else [];
      calc {
        Filter(a + b, f);
        { assert (a + b)[0] == a[0] && (a + b)[1..] == a[1..] + b; }
        head + Filter(a[1..] + b, f);
        head + (Filter(a[1..], f) + Filter(b, f));
        (head + Filter(a[1..], f)) + Filter(b, f);
      }
    } else {
      assert a + b == b;
    }
  }

  /** A predicate and its negation split the list: together they keep every element exactly once. */
  lemma {:induction false} FilterPartition(s: seq<Point2>, f: Point2 -> bool, g: Point2 -> bool)
    requires forall p :: g(p) == !f(p)
    ensures multiset(Filter(s, f)) + multiset(Filter(s, g)) == multiset(s)
  {
    if s != [] {
      var h, t := s[0], s[1..];
      FilterPartition(t, f, g);
      FilterCons(h, t, f);
      FilterCons(h, t, g);
      assert s == [h] + t;
      assert multiset(Filter(s, f)) + multiset(Filter(s, g)) == multiset([h]) + multiset(Filter(t, f)) + multiset(Filter(t, g)) by {
        assert g(h) == !f(h);
      }
    }
  }

  /** The kept elements appear in the same relative order, so a sorted list stays sorted. */
  lemma {:induction false} FilterSorted(s: seq<Point2>, f: Point2 -> bool, a: Axis)
    requires SortedBy(s, a)
    ensures SortedBy(Filter(s, f), a)
  {
    if s != [] {
      FilterSorted(s[1..], f, a);
      FilterMembership(s[1..], f);
      var rest := Filter(s[1..], f);
      forall p | p in rest
        ensures Coord(s[0], a) <= Coord(p, a)
      {
        var k :| 0 <= k < |s[1..]| && s[1..][k] == p;
        assert s[k + 1] == p;
      }
    }
  }

  /** Filtering with a predicate that holds everywhere on the list keeps it whole. */
  lemma {:induction false} FilterAll(s: seq<Point2>, f: Point2 -> bool)
    requires forall i :: 0 <= i < |s| ==> f(s[i])
    ensures Filter(s, f) == s
  {
    if s != [] {
      FilterAll(s[1..], f);
    }
  }

  /** Filtering with a predicate that holds nowhere on the list keeps nothing. */
  lemma {:induction false} FilterNone(s: seq<Point2>, f: Point2 -> bool)
    requires forall i :: 0 <= i < |s| ==> !f(s[i])
    ensures Filter(s, f) == []
  {
    if s != [] {
      FilterNone(s[1..], f);
    }
  }

  /** Each point is kept as often as it occurs when it satisfies the predicate, and never otherwise. */
  lemma {:induction false} FilterCount(s: seq<Point2>, f: Point2 -> bool, p: Point2)
    ensures multiset(Filter(s, f))[p] == if f(p) then multiset(s)[p] else 0
  {
    if s != [] {
      FilterCount(s[1..], f, p);
      assert s == [s[0]] + s[1..];
    }
  }

  /** Filtering depends only on which points the list holds, not on their order. */
  lemma FilterSameMultiset(s: seq<Point2>, t: seq<Point2>, f: Point2 -> bool)
    requires multiset(s) == multiset(t)
    ensures multiset(Filter(s, f)) == multiset(Filter(t, f))
  {
    forall p
      ensures multiset(Filter(s, f))[p] == multiset(Filter(t, f))[p]
    {
      FilterCount(s, f, p);
      FilterCount(t, f, p);
    }
  }

  /** Scaling every point first and filtering with a test that reads scaled points as `f` reads the originals is scaling the filtered list. */
  lemma {:induction false} FilterScale(s: seq<Point2>, f: Point2 -> bool, g: Point2 -> bool, k: int)
    requires forall i :: 0 <= i < |s| ==> g(Times(s[i], k)) == f(s[i])
    ensures Filter(ScaleAll(s, k), g) == ScaleAll(Filter(s, f), k)
  {
    if s != [] {
      var t := ScaleAll(s, k);
      FilterScale(s[1..], f, g, k);
      assert t[1..] == ScaleAll(s[1..], k);
      var head := if f(s[0]) then [s[0]] else [];
      var rest := Filter(s[1..], f);
      assert ScaleAll(head + rest, k) == ScaleAll(head, k) + ScaleAll(rest, k);
    }
  }

  /** Insert p before the first element whose key is at least p's key. */
  function Insert(p: Point2, s: seq<Point2>, a: Axis): (r: seq<Point2>)
    ensures |r| == |s| + 1
  {
    if s == [] || Coord(p, a) <= Coord(s[0], a) then [p] + s
    else [s[0]] + Insert(p, s[1..], a)
  }

  /** `sortedBy`: each element inserted into the sorted rest of the list. */
  function SortBy(s: seq<Point2>, a: Axis): (r: seq<Point2>)
    ensures |r| == |s|
  {
    if s == [] then [] else Insert(s[0], SortBy(s[1..], a), a)
  }

  /** Sorting a list with one more point in front inserts that point into the sorted rest. */
  lemma SortByCons(p: Point2, s: seq<Point2>, a: Axis)
    ensures SortBy([p] + s, a) == Insert(p, SortBy(s, a), a)
  {
    assert ([p] + s)[1..] == s;
  }

  /** Inserting adds p to the points of the list and keeps them all. */
  lemma {:induction false} InsertPermutes(p: Point2, s: seq<Point2>, a: Axis)
    ensures multiset(Insert(p, s, a)) == multiset([p]) + multiset(s)
    ensures forall q :: q in Insert(p, s, a) <==> q == p || q in s
  {
    if s != [] && Coord(p, a) > Coord(s[0], a) {
      InsertPermutes(p, s[1..], a);
      assert s == [s[0]] + s[1..];
    }
  }

  /** Inserting into a sorted list keeps it sorted. */
  lemma {:induction false} InsertSorted(p: Point2, s: seq<Point2>, a: Axis)
    requires SortedBy(s, a)
    ensures SortedBy(Insert(p, s, a), a)
  {
    if s != [] && Coord(p, a) > Coord(s[0], a) {
      InsertSorted(p, s[1..], a);
      InsertPermutes(p, s[1..], a);
      var r := Insert(p, s[1..], a);
      forall i | 0 <= i < |r|
        ensures Coord(s[0], a) <= Coord(r[i], a)
      {
        assert r[i] in r;
        if r[i] != p {
          assert r[i] in s[1..];
          var m :| 0 <= m < |s[1..]| && s[1..][m] == r[i];
          assert s[m + 1] == r[i];
        }
      }
      assert Insert(p, s, a) == [s[0]] + r;
    }
  }

  /** The sorted list is ordered by the key and is a permutation of the input. */
  lemma {:induction false} SortByCorrect(s: seq<Point2>, a: Axis)
    ensures SortedBy(SortBy(s, a), a)
    ensures multiset(SortBy(s, a)) == multiset(s)
  {
    if s != [] {
      SortByCorrect(s[1..], a);
      InsertSorted(s[0], SortBy(s[1..], a), a);
      InsertPermutes(s[0], SortBy(s[1..], a), a);
      assert s == [s[0]] + s[1..];
    }
  }

  /** An already sorted list comes back unchanged; in particular sorting twice is sorting once. */
  lemma {:induction false} SortBySorted(s: seq<Point2>, a: Axis)
    requires SortedBy(s, a)
    ensures SortBy(s, a) == s
  {
    if s != [] {
      SortBySorted(s[1..], a);
      assert s == [s[0]] + s[1..];
    }
  }

  /** For k > 0 scaling keeps the order of keys, so inserting the scaled point into the scaled list gives the scaled insertion. */
  lemma {:induction false} InsertScale(p: Point2, s: seq<Point2>, a: Axis, k: int)
    requires k > 0
    ensures Insert(Times(p, k), ScaleAll(s, k), a) == ScaleAll(Insert(p, s, a), k)
  {
    if s == [] {
      ScaleAllCons(p, s, k);
    } else {
      MulPreservesOrder(k, Coord(p, a), Coord(s[0], a));
      assert Coord(Times(p, k), a) == Coord(p, a) * k && Coord(Times(s[0], k), a) == Coord(s[0], a) * k;
      ScaleAllCons(s[0], s[1..], k);
      assert [s[0]] + s[1..] == s;
      if Coord(p, a) > Coord(s[0], a) {
        InsertScale(p, s[1..], a, k);
        ScaleAllCons(s[0], Insert(p, s[1..], a), k);
      } else {
        ScaleAllCons(p, s, k);
      }
    }
  }

  /** For k > 0 sorting the scaled points gives the scaled sorted list, ties in the same order. */
  lemma {:induction false} SortByScale(s: seq<Point2>, a: Axis, k: int)
    requires k > 0
    ensures SortBy(ScaleAll(s, k), a) == ScaleAll(SortBy(s, a), k)
  {
    if s != [] {
      var t := ScaleAll(s, k);
      assert t[1..] == ScaleAll(s[1..], k);
      SortByScale(s[1..], a, k);
      InsertScale(s[0], SortBy(s[1..], a), a, k);
    }
  }

  /** The points whose key is k. */
  function KeyIs(a: Axis, k: int): Point2 -> bool
  {
    p => Coord(p, a) == k
  }

  /** Inserting p adds p, in front, to the points of p's key and changes no other key's points. */
  lemma {:induction false} InsertStable(p: Point2, s: seq<Point2>, a: Axis, k: int)
    ensures Filter(Insert(p, s, a), KeyIs(a, k)) == (if Coord(p, a) == k then [p] else []) + Filter(s, KeyIs(a, k))
  {
    var f := KeyIs(a, k);
    if s == [] || Coord(p, a) <= Coord(s[0], a) {
      FilterCons(p, s, f);
    } else {
      InsertStable(p, s[1..], a, k);
      FilterCons(s[0], Insert(p, s[1..], a), f);
      FilterCons(s[0], s[1..], f);
      assert [s[0]] + s[1..] == s;
    }
  }

  /** Stability: for every key, the points with that key keep their input order. */
  lemma {:induction false} SortByStable(s: seq<Point2>, a: Axis, k: int)
    ensures Filter(SortBy(s, a), KeyIs(a, k)) == Filter(s, KeyIs(a, k))
  {
    if s != [] {
      SortByStable(s[1..], a, k);
      InsertStable(s[0], SortBy(s[1..], a), a, k);
    }
  }
}
