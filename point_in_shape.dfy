/**
 * The even-odd point-in-polygon test of the seed-fill page (static/main.js:123-137), used to
 * decide whether a clicked point may become the seed, and its agreement with the
 * scanline spans of the fill page.
 */
module PointInShape {
  import opened Types
  import opened Scanline

  /**
   * The `intersect` test of static/main.js:130-131 for the edge from vertex pi to vertex pj:
   * the edge straddles the horizontal line through y (half-open) and meets it right of x.
   * The division is only evaluated when the straddle test holds, so the divisor is never zero.
   */
  predicate EdgeIntersects(x: real, y: real, pi: Point, pj: Point): (r: bool)
    ensures r ==> pi.1 != pj.1
  {
    ((pi.1 as real > y) != (pj.1 as real > y)) &&
    x < (pj.0 - pi.0) as real * (y - pi.1 as real) / (pj.1 - pi.1) as real + pi.0 as real
  }

  /** The vertex paired with vertex i: the previous one, and the last one for vertex 0. */
  function Prev(n: nat, i: nat): (j: nat)
    requires i < n
    ensures j < n && (i == 0 ==> j == n - 1) && (i > 0 ==> j + 1 == i)
  {
    if i == 0 then n - 1 else i - 1
  }

  /** How many of the vertices 0..k-1, each with its predecessor, give an intersecting edge. */
  function IntersectCount(x: real, y: real, shape: seq<Point>, k: nat): (c: nat)
    requires k <= |shape|
    ensures c <= k
  {
    if k == 0 then 0
    else
      var i := k - 1;
      IntersectCount(x, y, shape, i) + (if EdgeIntersects(x, y, shape[i], shape[Prev(|shape|, i)]) then 1 else 0)
  }

  /** The answer of the even-odd rule: an odd number of intersecting edges. */
  predicate Inside(x: real, y: real, shape: seq<Point>)
  {
    IntersectCount(x, y, shape, |shape|) % 2 == 1
  }

  /** The loop of static/main.js:126-134, toggling `inside` on every intersecting edge. */
  method IsPointInShape(x: real, y: real, shapeCoords: seq<Point>) returns (inside: bool)
    ensures inside == Inside(x, y, shapeCoords)
  {
    inside := false;
    var i := 0;
    var j := |shapeCoords| - 1;
    while i < |shapeCoords|
      invariant 0 <= i <= |shapeCoords|
      invariant i < |shapeCoords| ==> j == Prev(|shapeCoords|, i)
      invariant inside <==> IntersectCount(x, y, shapeCoords, i) % 2 == 1
    {
      var intersect := EdgeIntersects(x, y, shapeCoords[i], shapeCoords[j]);
      assert shapeCoords[j] == shapeCoords[Prev(|shapeCoords|, i)];
      ParityStep(IntersectCount(x, y, shapeCoords, i));
      if intersect {
        inside := !inside;
      }
      j, i := i, i + 1;
    }
  }

  /** Adding one flips the parity. */
  lemma ParityStep(c: nat)
    ensures ((c + 1) % 2 == 1) <==> (c % 2 == 0)
  {
  }

  /** A polygon with no vertices contains no point. */
  lemma EmptyShapeContainsNothing(x: real, y: real)
    ensures !Inside(x, y, [])
  {
  }

  /** A horizontal line that passes below every vertex, or at or above the highest, meets no edge. */
  lemma {:induction false} NoIntersectionOutsideRows(x: real, y: real, shape: seq<Point>, k: nat)
    requires k <= |shape|
    requires (forall i :: 0 <= i < |shape| ==> y < shape[i].1 as real) ||
             (forall i :: 0 <= i < |shape| ==> shape[i].1 as real <= y)
    ensures IntersectCount(x, y, shape, k) == 0
  {
    if k > 0 {
      NoIntersectionOutsideRows(x, y, shape, k - 1);
    }
  }

  /** So a point on such a line is outside. */
  lemma OutsideRowsAreOutside(x: real, y: real, shape: seq<Point>)
    requires (forall i :: 0 <= i < |shape| ==> y < shape[i].1 as real) ||
             (forall i :: 0 <= i < |shape| ==> shape[i].1 as real <= y)
    ensures !Inside(x, y, shape)
  {
    NoIntersectionOutsideRows(x, y, shape, |shape|);
  }

  // ---------------------------------------------------------------- agreement with the scanline spans

  /**
   * The point-in-polygon test of edge (q, p) is the scanline test of edge (p, q) that
   * counts a crossing right of x: the same straddle rule and the same intersection.
   */
  lemma EdgeAgreesWithCrossing(x: real, y: int, p: Point, q: Point)
    ensures EdgeIntersects(x, y as real, q, p) <==> (CrossesRow(y, p, q) && x < IntersectX(y, p, q))
  {
    if CrossesRow(y, p, q) {
      var d := (q.1 - p.1) as real;
      var dx := (q.0 - p.0) as real;
      var yr := y as real;
      assert d != 0.0;
      var pip := (p.0 - q.0) as real * (yr - q.1 as real) / (p.1 - q.1) as real + q.0 as real;
      assert (p.0 - q.0) as real * (yr - q.1 as real) / (p.1 - q.1) as real == dx * (yr - q.1 as real) / d;
      assert dx * (yr - q.1 as real) / d - (yr - p.1 as real) * dx / d == dx * (-d) / d;
      assert pip == IntersectX(y, p, q);
    }
  }

  /** 1 when scanline edge e crosses row y right of x. */
  function RightCrossing(shape: seq<Point>, y: int, x: real, e: nat): (c: nat)
    requires e < |shape|
    ensures c <= 1
  {
    var p, q := shape[e], shape[if e + 1 < |shape| then e + 1 else 0];
    if CrossesRow(y, p, q) && x < IntersectX(y, p, q) then 1 else 0
  }

  lemma CountGreaterStep(shape: seq<Point>, y: int, x: real, k: nat)
    requires 0 < k <= |shape|
    ensures CountGreater(CrossingsUpTo(shape, y, k), x) ==
            CountGreater(CrossingsUpTo(shape, y, k - 1), x) + RightCrossing(shape, y, x, k - 1)
  {
    var p, q := shape[k - 1], shape[if k < |shape| then k else 0];
    var tail := if CrossesRow(y, p, q) then [IntersectX(y, p, q)] else [];
    CountGreaterConcat(CrossingsUpTo(shape, y, k - 1), tail, x);
  }

  /**
   * Vertex 0 with its predecessor is the closing scanline edge n-1; vertex i > 0 with its
   * predecessor is scanline edge i-1.
   */
  lemma {:induction false} IntersectCountReindex(x: real, y: int, shape: seq<Point>, k: nat)
    requires 0 < k <= |shape|
    ensures IntersectCount(x, y as real, shape, k) ==
            RightCrossing(shape, y, x, |shape| - 1) + CountGreater(CrossingsUpTo(shape, y, k - 1), x)
  {
    var n := |shape|;
    if k == 1 {
      EdgeAgreesWithCrossing(x, y, shape[n - 1], shape[0]);
    } else {
      IntersectCountReindex(x, y, shape, k - 1);
      EdgeAgreesWithCrossing(x, y, shape[k - 2], shape[k - 1]);
      CountGreaterStep(shape, y, x, k - 1);
    }
  }

  /** The point-in-polygon count equals the number of scanline crossings right of x. */
  lemma IntersectCountIsCrossingsRight(x: real, y: int, shape: seq<Point>)
    ensures IntersectCount(x, y as real, shape, |shape|) == CountGreater(Crossings(shape, y), x)
  {
    if |shape| > 0 {
      IntersectCountReindex(x, y, shape, |shape|);
      CountGreaterStep(shape, y, x, |shape|);
    }
  }

  /**
   * The two pages agree: a pixel (x, y) that is not itself a crossing lies in a scanline span
   * of row y exactly when the even-odd test reports it inside the polygon.
   */
  lemma ScanlineAgreesWithPointInShape(shape: seq<Point>, x: int, y: int)
    requires x as real !in Crossings(shape, y)
    ensures InSpans(RowSpans(shape, y), x) <==> Inside(x as real, y as real, shape)
  {
    var xs := Crossings(shape, y);
    var sorted := SortAsc(xs);
    IntersectCountIsCrossingsRight(x as real, y, shape);
    CountGreaterSort(xs, x as real);
    CrossingCountEven(shape, y);
    assert x as real !in multiset(sorted);
    forall i | 0 <= i < |sorted| ensures sorted[i] != x as real {
      assert sorted[i] in multiset(sorted);
    }
    EvenOddPairing(sorted, x as real);
    PairSpansCover(sorted, x);
  }
}
