/**
 * RGBA byte buffers as the canvas pages use them: pixel (x, y) of a width-w image occupies
 * the four bytes starting at (y * w + x) * 4, in the order red, green, blue, alpha.
 * Reads past either end of a typed array give `undefined` in the source, and every colour
 * comparison with `undefined` is false; `PixelAt` and `SimilarPixel` model exactly that.
 */
module Raster {
  import opened Types
  import opened Color

  // ---------------------------------------------------------------- linear pixel index

  /** The row-major pixel index of (x, y) in an image w pixels wide. */
  function Lin(w: int, x: int, y: int): int
  {
    y * w + x
  }

  predicate InCanvas(w: int, h: int, q: Point)
  {
    0 <= q.0 < w && 0 <= q.1 < h
  }

  lemma MulLe(a: int, b: int, c: int)
    requires a <= b && c >= 0
    ensures a * c <= b * c
  {
    var d := b - a;
    assert d * c >= 0;
    assert b * c == a * c + d * c;
  }

  lemma MulAwayFromZero(a: int, c: int)
    requires c >= 0
    ensures a >= 1 ==> a * c >= c
    ensures a <= -1 ==> a * c <= -c
  {
    if a >= 1 {
      MulLe(1, a, c);
    }
    if a <= -1 {
      MulLe(a, -1, c);
    }
  }

  /** The column and the row are recovered from the index when the column is in range. */
  lemma LinCoords(w: int, x: int, y: int)
    requires 0 <= x < w
    ensures Lin(w, x, y) / w == y && Lin(w, x, y) % w == x
  {
    var p := Lin(w, x, y);
    var q, r := p / w, p % w;
    assert p == q * w + r;
    assert (y - q) * w == r - x;
    MulAwayFromZero(y - q, w);
  }

  /** A pixel inside the canvas has an index inside the w * h pixels. */
  lemma LinInRange(w: int, h: int, x: int, y: int)
    requires 0 <= x < w && 0 <= y < h
    ensures 0 <= Lin(w, x, y) < w * h
  {
    MulLe(y, h - 1, w);
    MulLe(0, y, w);
    assert (h - 1) * w + w == w * h;
  }

  /** Two pixels whose columns are in range share an index only when they are the same pixel. */
  lemma LinInjective(w: int, a: Point, b: Point)
    requires 0 <= a.0 < w && 0 <= b.0 < w
    requires Lin(w, a.0, a.1) == Lin(w, b.0, b.1)
    ensures a == b
  {
    LinCoords(w, a.0, a.1);
    LinCoords(w, b.0, b.1);
  }

  // ---------------------------------------------------------------- reading and writing pixels

  /** The colour of pixel p, or None (`undefined`) when its bytes are outside the buffer. */
  function PixelAt(s: seq<Byte>, p: int): (c: Option<Rgb>)
    ensures c.Some? <==> 0 <= p && 4 * p + 3 < |s|
    ensures c.Some? ==> c.value == Rgb(s[4 * p], s[4 * p + 1], s[4 * p + 2])
  {
    if 0 <= p && 4 * p + 3 < |s| then Some(Rgb(s[4 * p], s[4 * p + 1], s[4 * p + 2])) else None
  }

  /** Byte 4 * p + c belongs to pixel p and is its channel c. */
  lemma ByteOfPixel(p: int, c: int)
    requires 0 <= c < 4
    ensures (4 * p + c) / 4 == p && (4 * p + c) % 4 == c
  {
  }

  /** A pixel whose red, green and blue bytes are those of c reads as c. */
  lemma PixelOfBytes(s: seq<Byte>, p: int, c: Rgb)
    requires 0 <= p && 4 * p + 3 < |s|
    requires s[4 * p] == c.r && s[4 * p + 1] == c.g && s[4 * p + 2] == c.b
    ensures PixelAt(s, p) == Some(c)
  {
  }

  /** isSimilarColor at the default tolerance on colours that may be `undefined`: then it is false. */
  predicate SimilarPixel(a: Option<Rgb>, b: Option<Rgb>)
  {
    a.Some? && b.Some? && IsSimilarColor(a.value, b.value, DefaultTolerance)
  }

  lemma SimilarPixelSymmetric(a: Option<Rgb>, b: Option<Rgb>)
    ensures SimilarPixel(a, b) <==> SimilarPixel(b, a)
  {
    if a.Some? && b.Some? {
      SimilarIsSymmetric(a.value, b.value, DefaultTolerance);
    }
  }

  /** Byte c (0 red, 1 green, 2 blue, 3 alpha) of the opaque pixel `(fill, 255)`. */
  function FillByte(fill: Rgb, c: int): Byte
  {
    if c == 0 then fill.r else if c == 1 then fill.g else if c == 2 then fill.b else 255
  }

  // ---------------------------------------------------------------- 4-connectivity

  /** b is one of the four pixels the seed fill pushes after painting a. */
  predicate Adjacent(a: Point, b: Point)
  {
    b == (a.0 + 1, a.1) || b == (a.0 - 1, a.1) || b == (a.0, a.1 + 1) || b == (a.0, a.1 - 1)
  }

  lemma AdjacentSymmetric(a: Point, b: Point)
    ensures Adjacent(a, b) <==> Adjacent(b, a)
  {
  }

  /** Consecutive points of the path are 4-neighbours. */
  predicate IsPath(path: seq<Point>)
  {
    forall i :: 0 < i < |path| ==> Adjacent(path[i - 1], path[i])
  }

  /** Some point of `order` is a 4-neighbour of s. */
  predicate TouchesOrder(order: seq<Point>, s: Point)
  {
    exists j :: 0 <= j < |order| && Adjacent(order[j], s)
  }

  /** `order` starts at the seed and each later point is a 4-neighbour of an earlier one. */
  predicate GrownFrom(order: seq<Point>, seed: Point)
    decreases |order|
  {
    if |order| <= 1 then order == [] || order[0] == seed
    else
      var init := order[..|order| - 1];
      GrownFrom(init, seed) && TouchesOrder(init, order[|order| - 1])
  }

  lemma GrownFromAppend(order: seq<Point>, seed: Point, q: Point)
    requires GrownFrom(order, seed)
    requires (order == [] && q == seed) || TouchesOrder(order, q)
    ensures GrownFrom(order + [q], seed)
  {
    assert (order + [q])[..|order|] == order;
  }

  /**
   * Every point of an order grown from the seed is joined to the seed by a 4-path that
   * stays inside the order.
   */
  lemma {:induction false} GrownFromIsConnected(order: seq<Point>, seed: Point, k: nat) returns (path: seq<Point>)
    requires GrownFrom(order, seed) && k < |order|
    ensures |path| > 0 && path[0] == seed && path[|path| - 1] == order[k] && IsPath(path)
    ensures forall i :: 0 <= i < |path| ==> path[i] in order
    decreases |order|
  {
    var init := order[..|order| - 1];
    if |order| == 1 {
      path := [seed];
    } else if k < |init| {
      path := GrownFromIsConnected(init, seed, k);
      assert init[k] == order[k];
      forall i | 0 <= i < |path| ensures path[i] in order {
        assert path[i] in init;
      }
    } else {
      var j :| 0 <= j < |init| && Adjacent(init[j], order[k]);
      var prefix := GrownFromIsConnected(init, seed, j);
      path := prefix + [order[k]];
      forall i | 0 <= i < |path| ensures path[i] in order {
        if i < |prefix| {
          assert prefix[i] in init;
        }
      }
    }
  }

  /** The set of pixel indices of the points of `order`. */
  function Indices(w: int, order: seq<Point>): (r: set<int>)
  {
    if order == [] then {}
    else
      var last := order[|order| - 1];
      Indices(w, order[..|order| - 1]) + {Lin(w, last.0, last.1)}
  }

  /** p is among the indices exactly when some point of the order has index p. */
  lemma {:induction false} IndicesMember(w: int, order: seq<Point>, p: int)
    ensures p in Indices(w, order) <==> exists k :: 0 <= k < |order| && Lin(w, order[k].0, order[k].1) == p
  {
    if order != [] {
      var init := order[..|order| - 1];
      IndicesMember(w, init, p);
      if p in Indices(w, init) {
        var k :| 0 <= k < |init| && Lin(w, init[k].0, init[k].1) == p;
        assert order[k] == init[k];
      }
      if exists k :: 0 <= k < |order| && Lin(w, order[k].0, order[k].1) == p {
        var k :| 0 <= k < |order| && Lin(w, order[k].0, order[k].1) == p;
        if k < |init| {
          assert init[k] == order[k];
        }
      }
    }
  }

  lemma IndicesAppend(w: int, order: seq<Point>, q: Point)
    ensures Indices(w, order + [q]) == Indices(w, order) + {Lin(w, q.0, q.1)}
  {
    assert (order + [q])[..|order|] == order;
  }
}
