/**
 * The span computation of `FillApp.scanlineFill` (js/script.js): a padded bounding box, per-row
 * edge crossings under the half-open rule, an ascending sort, and even-odd pairing of the sorted
 * crossings into inclusive integer spans. Intersections are exact rationals (`real`).
 */
module Scanline {
  import opened Types

  // ---------------------------------------------------------------- vertex extremes

  function Xs(shape: seq<Point>): (r: seq<int>)
    ensures |r| == |shape| && forall i :: 0 <= i < |shape| ==> r[i] == shape[i].0
  {
    if shape == [] then [] else [shape[0].0] + Xs(shape[1..])
  }

  function Ys(shape: seq<Point>): (r: seq<int>)
    ensures |r| == |shape| && forall i :: 0 <= i < |shape| ==> r[i] == shape[i].1
  {
    if shape == [] then [] else [shape[0].1] + Ys(shape[1..])
  }

  /** `Math.min(...s)` for a non-empty list. */
  function Min(s: seq<int>): (m: int)
    requires |s| > 0
    ensures m in s && forall i :: 0 <= i < |s| ==> m <= s[i]
  {
    if |s| == 1 then s[0] else var t := Min(s[1..]); if s[0] <= t then s[0] else t
  }

  /** `Math.max(...s)` for a non-empty list. */
  function Max(s: seq<int>): (m: int)
    requires |s| > 0
    ensures m in s && forall i :: 0 <= i < |s| ==> s[i] <= m
  {
    if |s| == 1 then s[0] else var t := Max(s[1..]); if s[0] >= t then s[0] else t
  }

  /** The box the composite step walks: vertex extremes padded by one pixel on each side. */
  datatype Box = Box(minX: int, maxX: int, minY: int, maxY: int)

  /**
   * The padded bounding box (script.js:339-342). An empty shape has none: there `Math.min()`
   * is Infinity and the stroke at script.js:351 throws before anything is written.
   */
  function BoundingBox(shape: seq<Point>): (b: Option<Box>)
    ensures b.Some? <==> |shape| > 0
    ensures b.Some? ==> forall i :: 0 <= i < |shape| ==>
      b.value.minX < shape[i].0 < b.value.maxX && b.value.minY < shape[i].1 < b.value.maxY
    ensures b.Some? ==> (exists i :: 0 <= i < |shape| && b.value.minX == shape[i].0 - 1)
    ensures b.Some? ==> (exists i :: 0 <= i < |shape| && b.value.maxX == shape[i].0 + 1)
    ensures b.Some? ==> (exists i :: 0 <= i < |shape| && b.value.minY == shape[i].1 - 1)
    ensures b.Some? ==> (exists i :: 0 <= i < |shape| && b.value.maxY == shape[i].1 + 1)
  {
    if shape == [] then None
    else
      var xs, ys := Xs(shape), Ys(shape);
      Some(Box(Min(xs) - 1, Max(xs) + 1, Min(ys) - 1, Max(ys) + 1))
  }

  // ---------------------------------------------------------------- crossings of one row

  /**
   * The half-open test of script.js:391. A crossing edge is never horizontal, so the
   * division at script.js:393 is never by zero.
   */
  predicate CrossesRow(y: int, p1: Point, p2: Point): (r: bool)
    ensures r ==> p1.1 != p2.1
    ensures r <==> ((p1.1 > y) != (p2.1 > y))
  {
    (p1.1 <= y && y < p2.1) || (p2.1 <= y && y < p1.1)
  }

  /** A quotient of two numbers of the same sign, the first no larger in size, lies in [0, 1]. */
  lemma QuotientInUnit(a: real, d: real)
    requires (0.0 < d && 0.0 <= a <= d) || (d < 0.0 && d <= a <= 0.0)
    ensures 0.0 <= a / d <= 1.0
  {
    if d > 0.0 {
      assert a / d <= d / d;
    } else {
      assert a / d == (-a) / (-d);
      assert (-a) / (-d) <= (-d) / (-d);
    }
  }

  /** A fraction t in [0, 1] of dx lies between 0 and dx. */
  lemma ScaleInUnit(t: real, dx: real)
    requires 0.0 <= t <= 1.0
    ensures dx >= 0.0 ==> 0.0 <= t * dx <= dx
    ensures dx < 0.0 ==> dx <= t * dx <= 0.0
  {
    if dx >= 0.0 {
      assert t * dx <= 1.0 * dx;
    } else {
      assert t * dx >= 1.0 * dx;
    }
  }

  lemma DivScale(a: real, dx: real, dy: real)
    requires dy != 0.0
    ensures a * dx / dy == (a / dy) * dx
  {
  }

  /** The intersection x of script.js:393, which lies between the edge's two x values. */
  function IntersectX(y: int, p1: Point, p2: Point): (x: real)
    requires CrossesRow(y, p1, p2)
    ensures (p1.0 <= p2.0 ==> p1.0 as real <= x <= p2.0 as real)
    ensures (p2.0 <= p1.0 ==> p2.0 as real <= x <= p1.0 as real)
  {
    var dy := (p2.1 - p1.1) as real;
    var dx := (p2.0 - p1.0) as real;
    var a := (y - p1.1) as real;
    QuotientInUnit(a, dy);
    DivScale(a, dx, dy);
    ScaleInUnit(a / dy, dx);
    p1.0 as real + a * dx / dy
  }

  /** The crossings of row y with edges 0..k-1, in edge order; edge i joins vertex i to vertex (i + 1) % |shape|. */
  function CrossingsUpTo(shape: seq<Point>, y: int, k: nat): (xs: seq<real>)
    requires k <= |shape|
    ensures |xs| <= k
    decreases k
  {
    if k == 0 then []
    else
      var p1, p2 := shape[k - 1], shape[if k < |shape| then k else 0];
      CrossingsUpTo(shape, y, k - 1) + (if CrossesRow(y, p1, p2) then [IntersectX(y, p1, p2)] else [])
  }

  /** The `intersections` list of script.js:383-396, over the closed loop of edges. */
  function Crossings(shape: seq<Point>, y: int): seq<real>
  {
    CrossingsUpTo(shape, y, |shape|)
  }

  /** Every crossing lies within the horizontal extent of the vertices. */
  lemma {:induction false} CrossingsWithinVertices(shape: seq<Point>, y: int, k: nat)
    requires 0 < |shape| && k <= |shape|
    ensures forall e :: e in CrossingsUpTo(shape, y, k) ==>
      Min(Xs(shape)) as real <= e <= Max(Xs(shape)) as real
  {
    if k > 0 {
      CrossingsWithinVertices(shape, y, k - 1);
      var xs := Xs(shape);
      var j := if k < |shape| then k else 0;
      assert xs[k - 1] == shape[k - 1].0 && xs[j] == shape[j].0;
    }
  }

  /**
   * With the half-open rule, every row meets the closed loop an even number of times:
   * along the loop, "above row y" flips once per crossing and ends where it started.
   */
  lemma {:induction false} CrossingParityPrefix(shape: seq<Point>, y: int, k: nat)
    requires k < |shape|
    ensures |CrossingsUpTo(shape, y, k)| % 2 == if (shape[0].1 > y) != (shape[k].1 > y) then 1 else 0
  {
    if k > 0 {
      CrossingParityPrefix(shape, y, k - 1);
      var m := |CrossingsUpTo(shape, y, k - 1)|;
      assert |CrossingsUpTo(shape, y, k)| == m + (if CrossesRow(y, shape[k - 1], shape[k]) then 1 else 0);
    }
  }

  lemma CrossingCountEven(shape: seq<Point>, y: int)
    ensures |Crossings(shape, y)| % 2 == 0
  {
    var n := |shape|;
    if n > 0 {
      CrossingParityPrefix(shape, y, n - 1);
      var m := |CrossingsUpTo(shape, y, n - 1)|;
      assert |Crossings(shape, y)| == m + (if CrossesRow(y, shape[n - 1], shape[0]) then 1 else 0);
    }
  }

  /** Rows above every vertex, or at or below the lowest one, have no crossings. */
  lemma {:induction false} NoCrossingsOutsideVertices(shape: seq<Point>, y: int, k: nat)
    requires 0 < |shape| && k <= |shape|
    requires y < Min(Ys(shape)) || y >= Max(Ys(shape))
    ensures CrossingsUpTo(shape, y, k) == []
  {
    if k > 0 {
      NoCrossingsOutsideVertices(shape, y, k - 1);
      var ys := Ys(shape);
      var j := if k < |shape| then k else 0;
      assert ys[k - 1] == shape[k - 1].1 && ys[j] == shape[j].1;
    }
  }

  // ---------------------------------------------------------------- sorting

  predicate Sorted(s: seq<real>)
  {
    forall i, j :: 0 <= i < j < |s| ==> s[i] <= s[j]
  }

  /** Putting an element no larger than the head in front of an ascending sequence keeps it ascending. */
  lemma SortedCons(x: real, t: seq<real>)
    requires Sorted(t) && (|t| > 0 ==> x <= t[0])
    ensures Sorted([x] + t)
  {
    var r := [x] + t;
    forall i, j | 0 <= i < j < |r| ensures r[i] <= r[j] {
      if i == 0 {
        assert r[j] == t[j - 1] && t[0] <= t[j - 1];
      } else {
        assert r[i] == t[i - 1] && r[j] == t[j - 1];
      }
    }
  }

  function Insert(a: real, s: seq<real>): (r: seq<real>)
    requires Sorted(s)
    ensures Sorted(r) && |r| == |s| + 1
    ensures multiset(r) == multiset(s) + multiset{a}
    ensures r[0] == a || (|s| > 0 && r[0] == s[0])
  {
    if s == [] || a <= s[0] then
      SortedCons(a, s);
      [a] + s
    else
      var t := Insert(a, s[1..]);
      assert s == [s[0]] + s[1..];
      assert s[0] <= t[0] by { if |s| > 1 { assert s[0] <= s[1]; } }
      SortedCons(s[0], t);
      assert multiset([s[0]] + t) == multiset{s[0]} + multiset(t);
      [s[0]] + t
  }

  /**
   * `intersections.sort((a, b) => a - b)`: the ascending rearrangement. Which algorithm the
   * engine runs does not matter: see SortedPermutationIsUnique.
   */
  function SortAsc(s: seq<real>): (r: seq<real>)
    ensures Sorted(r) && multiset(r) == multiset(s) && |r| == |s|
  {
    if s == [] then []
    else
      assert s == [s[0]] + s[1..];
      Insert(s[0], SortAsc(s[1..]))
  }

  /** Two ascending sequences with the same elements are equal. */
  lemma {:induction false} SortedPermutationIsUnique(r: seq<real>, t: seq<real>)
    requires Sorted(r) && Sorted(t) && multiset(r) == multiset(t)
    ensures r == t
  {
    assert |r| == |multiset(r)| == |multiset(t)| == |t|;
    if r != [] {
      assert r[0] == t[0] by {
        assert r[0] in multiset(t);
        var j :| 0 <= j < |t| && t[j] == r[0];
        assert t[0] in multiset(r);
        var i :| 0 <= i < |r| && r[i] == t[0];
      }
      var r', t' := r[1..], t[1..];
      assert multiset(r') == multiset(t') by {
        assert r == [r[0]] + r' && t == [t[0]] + t';
        assert multiset(r) == multiset{r[0]} + multiset(r');
        assert multiset(t) == multiset{t[0]} + multiset(t');
        assert multiset(r') == multiset(r) - multiset{r[0]};
        assert multiset(t') == multiset(t) - multiset{t[0]};
      }
      SortedPermutationIsUnique(r', t');
    }
  }

  // ---------------------------------------------------------------- pairing into spans

  function Floor(a: real): (n: int)
    ensures n as real <= a < n as real + 1.0
  {
    a.Floor
  }

  /** `Math.ceil`, through `ceil(a) = -floor(-a)`. */
  function Ceil(a: real): (n: int)
    ensures a <= n as real < a + 1.0
  {
    -Floor(-a)
  }

  /**
   * The pairing loop of script.js:402-411: crossings (0,1), (2,3), … give the spans
   * `ceil(a)..floor(b)`; an empty span is skipped and a last unpaired crossing is ignored.
   */
  function PairSpans(xs: seq<real>): (spans: seq<(int, int)>)
    ensures forall k :: 0 <= k < |spans| ==> spans[k].0 <= spans[k].1
    ensures |spans| <= |xs| / 2
    decreases |xs|
  {
    if |xs| < 2 then []
    else
      var lo, hi := Ceil(xs[0]), Floor(xs[1]);
      (if lo <= hi then [(lo, hi)] else []) + PairSpans(xs[2..])
  }

  /** The spans filled on row y of the temporary canvas. */
  function RowSpans(shape: seq<Point>, y: int): seq<(int, int)>
  {
    PairSpans(SortAsc(Crossings(shape, y)))
  }

  predicate InSpans(spans: seq<(int, int)>, x: int)
  {
    |spans| > 0 && ((spans[0].0 <= x <= spans[0].1) || InSpans(spans[1..], x))
  }

  /** x lies between the two crossings of some pair (0,1), (2,3), … */
  predicate BetweenPair(xs: seq<real>, x: real)
    decreases |xs|
  {
    |xs| >= 2 && ((xs[0] <= x <= xs[1]) || BetweenPair(xs[2..], x))
  }

  lemma {:induction false} InSpansConcat(a: seq<(int, int)>, b: seq<(int, int)>, x: int)
    ensures InSpans(a + b, x) <==> InSpans(a, x) || InSpans(b, x)
  {
    if a == [] {
      assert a + b == b;
    } else {
      assert (a + b)[0] == a[0] && (a + b)[1..] == a[1..] + b;
      InSpansConcat(a[1..], b, x);
    }
  }

  /** An integer pixel is in a span exactly when it lies between the two crossings of a pair. */
  lemma {:induction false} PairSpansCover(xs: seq<real>, x: int)
    ensures InSpans(PairSpans(xs), x) <==> BetweenPair(xs, x as real)
    decreases |xs|
  {
    if |xs| >= 2 {
      var lo, hi := Ceil(xs[0]), Floor(xs[1]);
      var head: seq<(int, int)> := if lo <= hi then [(lo, hi)] else [];
      InSpansConcat(head, PairSpans(xs[2..]), x);
      PairSpansCover(xs[2..], x);
      assert (lo <= x <= hi) <==> (xs[0] <= x as real <= xs[1]);
      if lo <= hi {
        assert InSpans(head, x) <==> lo <= x <= hi by { assert head[1..] == []; }
      } else {
        assert !(xs[0] <= x as real <= xs[1]);
      }
    }
  }

  /** Every span lies within any integer bounds that contain all the crossings. */
  lemma {:induction false} PairSpansWithin(xs: seq<real>, lo: int, hi: int, x: int)
    requires forall e :: e in xs ==> lo as real <= e <= hi as real
    requires InSpans(PairSpans(xs), x)
    ensures lo <= x <= hi
    decreases |xs|
  {
    PairSpansCover(xs, x);
    assert xs[0] in xs && xs[1] in xs;
    if !(xs[0] <= x as real <= xs[1]) {
      assert forall e :: e in xs[2..] ==> e in xs;
      PairSpansCover(xs[2..], x);
      PairSpansWithin(xs[2..], lo, hi, x);
    }
  }

  // ---------------------------------------------------------------- even-odd reading of the pairs

  /** How many crossings lie strictly to the right of x. */
  function CountGreater(xs: seq<real>, x: real): (n: nat)
    ensures n <= |xs|
  {
    if xs == [] then 0 else (if xs[0] > x then 1 else 0) + CountGreater(xs[1..], x)
  }

  lemma {:induction false} CountGreaterConcat(a: seq<real>, b: seq<real>, x: real)
    ensures CountGreater(a + b, x) == CountGreater(a, x) + CountGreater(b, x)
  {
    if a == [] {
      assert a + b == b;
    } else {
      assert (a + b)[0] == a[0] && (a + b)[1..] == a[1..] + b;
      CountGreaterConcat(a[1..], b, x);
    }
  }

  lemma {:induction false} CountGreaterInsert(a: real, s: seq<real>, x: real)
    requires Sorted(s)
    ensures CountGreater(Insert(a, s), x) == CountGreater(s, x) + (if a > x then 1 else 0)
  {
    if s != [] && a > s[0] {
      CountGreaterInsert(a, s[1..], x);
    }
  }

  /** Sorting does not change how many crossings lie right of x. */
  lemma {:induction false} CountGreaterSort(s: seq<real>, x: real)
    ensures CountGreater(SortAsc(s), x) == CountGreater(s, x)
  {
    if s != [] {
      CountGreaterSort(s[1..], x);
      CountGreaterInsert(s[0], SortAsc(s[1..]), x);
    }
  }

  /** When every crossing lies right of x, all of them count and x is in no pair. */
  lemma {:induction false} AllRightOf(xs: seq<real>, x: real)
    requires forall i :: 0 <= i < |xs| ==> x < xs[i]
    ensures CountGreater(xs, x) == |xs| && !BetweenPair(xs, x)
    decreases |xs|
  {
    if xs != [] {
      AllRightOf(xs[1..], x);
      if |xs| >= 2 {
        AllRightOf(xs[2..], x);
      }
    }
  }

  /**
   * The even-odd rule: for an ascending list of even length and an x that is none of its
   * elements, x lies inside a pair (0,1), (2,3), … exactly when an odd number of the
   * elements lie right of x.
   */
  lemma {:induction false} EvenOddPairing(xs: seq<real>, x: real)
    requires Sorted(xs) && |xs| % 2 == 0
    requires forall i :: 0 <= i < |xs| ==> xs[i] != x
    ensures BetweenPair(xs, x) <==> CountGreater(xs, x) % 2 == 1
    decreases |xs|
  {
    if xs != [] {
      var a, b, rest := xs[0], xs[1], xs[2..];
      assert xs[1..][1..] == rest;
      assert CountGreater(xs, x) == (if a > x then 1 else 0) + (if b > x then 1 else 0) + CountGreater(rest, x);
      if x < a {
        AllRightOf(xs, x);
      } else if x < b {
        AllRightOf(rest, x);
        assert xs[0] <= x <= xs[1];
      } else {
        EvenOddPairing(rest, x);
      }
    }
  }

  // ---------------------------------------------------------------- coverage of the temporary canvas

  /**
   * Pixel (x, y) is painted by a `fillRect` of script.js:408: its row is one of those the
   * loop of script.js:382 visits and x lies in one of that row's spans.
   */
  predicate Covered(shape: seq<Point>, x: int, y: int)
  {
    match BoundingBox(shape)
    case None => false
    case Some(b) => b.minY <= y <= b.maxY && InSpans(RowSpans(shape, y), x)
  }

  /** Every span of a row lies within the horizontal extent of the vertices. */
  lemma SpansWithinVertices(shape: seq<Point>, y: int, x: int)
    requires 0 < |shape| && InSpans(RowSpans(shape, y), x)
    ensures Min(Xs(shape)) <= x <= Max(Xs(shape))
  {
    var lo, hi := Min(Xs(shape)), Max(Xs(shape));
    var xs := CrossingsUpTo(shape, y, |shape|);
    CrossingsWithinVertices(shape, y, |shape|);
    var sorted := SortAsc(xs);
    forall e | e in sorted ensures lo as real <= e <= hi as real {
      assert e in multiset(sorted);
      assert e in multiset(xs);
      assert e in xs;
    }
    PairSpansWithin(sorted, lo, hi, x);
  }

  /** Painted pixels lie strictly inside the padded box. */
  lemma CoveredInsideBox(shape: seq<Point>, x: int, y: int)
    requires Covered(shape, x, y)
    ensures var b := BoundingBox(shape).value;
      b.minX < x < b.maxX && b.minY <= y <= b.maxY
  {
    SpansWithinVertices(shape, y, x);
  }

  /** Rows outside the vertices' vertical extent paint nothing. */
  lemma NoSpansOutsideVertices(shape: seq<Point>, y: int)
    requires 0 < |shape|
    requires y < Min(Ys(shape)) || y >= Max(Ys(shape))
    ensures RowSpans(shape, y) == []
  {
    NoCrossingsOutsideVertices(shape, y, |shape|);
  }

  // ---------------------------------------------------------------- worked rows

  lemma SortTwo(a: real, b: real)
    requires b <= a
    ensures SortAsc([a, b]) == [b, a]
  {
    assert [a, b][1..] == [b];
    assert SortAsc([b]) == [b];
  }

  lemma PairTwo(a: real, b: real)
    ensures PairSpans([a, b]) == if Ceil(a) <= Floor(b) then [(Ceil(a), Floor(b))] else []
  {
    assert [a, b][2..] == [];
  }

  /** The triangle (0,0), (10,0), (5,10) meets row 5 at x = 7.5 and x = 2.5: pixels 3..7. */
  lemma TriangleRowFive(shape: seq<Point>)
    requires shape == [(0, 0), (10, 0), (5, 10)]
    ensures RowSpans(shape, 5) == [(3, 7)]
  {
    TriangleCrossings();
    SortTwo(7.5, 2.5);
    PairTwo(2.5, 7.5);
    assert Ceil(2.5) == 3 && Floor(7.5) == 7;
  }

  lemma TriangleCrossings()
    ensures Crossings([(0, 0), (10, 0), (5, 10)], 5) == [7.5, 2.5]
  {
    var shape := [(0, 0), (10, 0), (5, 10)];
    assert CrossingsUpTo(shape, 5, 1) == [];
    assert CrossesRow(5, shape[1], shape[2]);
    assert IntersectX(5, shape[1], shape[2]) == 7.5;
    assert CrossingsUpTo(shape, 5, 2) == [] + [7.5];
    assert CrossesRow(5, shape[2], shape[0]);
    assert IntersectX(5, shape[2], shape[0]) == 2.5;
    assert CrossingsUpTo(shape, 5, 3) == [7.5] + [2.5];
  }

  /** The same triangle paints nothing on rows above 0 or at 10 and below. */
  lemma TriangleOuterRows(y: int)
    requires y < 0 || y >= 10
    ensures RowSpans([(0, 0), (10, 0), (5, 10)], y) == []
  {
    var shape := [(0, 0), (10, 0), (5, 10)];
    assert Min(Ys(shape)) == 0 && Max(Ys(shape)) == 10 by {
      assert Ys(shape) == [0, 0, 10];
    }
    NoSpansOutsideVertices(shape, y);
  }

  /**
   * A two-point "polygon" is not empty: its two edges are the same segment crossed twice at
   * the same x, and when that x is an integer the pair gives a one-pixel span.
   */
  lemma TwoPointShapePaints(shape: seq<Point>)
    requires shape == [(5, 0), (5, 10)]
    ensures RowSpans(shape, 3) == [(5, 5)]
  {
    assert Crossings(shape, 3) == [5.0, 5.0] by {
      assert IntersectX(3, (5, 0), (5, 10)) == 5.0;
      assert IntersectX(3, (5, 10), (5, 0)) == 5.0;
      assert CrossingsUpTo(shape, 3, 1) == [5.0];
    }
    SortTwo(5.0, 5.0);
    PairTwo(5.0, 5.0);
    assert Ceil(5.0) == 5 && Floor(5.0) == 5;
  }
}
