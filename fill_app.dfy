/**
 * The fill page's application object (`FillApp` of js/script.js): a canvas of `width` by
 * `height` RGBA pixels, the polygon, and the current border colour, with the two fill
 * algorithms that rewrite the canvas bytes in place.
 */
module Fill {
  import opened Types
  import opened Color
  import opened Raster
  import opened Scanline
  import opened Composite

  /** The canvas size set up by `setupCanvas` (js/script.js:41-46, 84-88). */
  const CanvasWidth: nat := 600
  const CanvasHeight: nat := 400

  /** The butterfly-shaped starting polygon (js/script.js:57-64). */
  const OriginalShape: seq<Point> := [(350, 200), (250, 150), (300, 250), (350, 220), (400, 250), (450, 150)]

  // ---------------------------------------------------------------- seed fill, specification

  /**
   * The colour sampled at the seed (js/script.js:248-251), read at the linear index with no
   * bounds check: a seed left or right of the canvas reads a pixel of a neighbouring row,
   * and only an index outside the buffer gives `undefined`.
   */
  function SeedTarget(orig: seq<Byte>, w: int, x: int, y: int): (t: Option<Rgb>)
    ensures t.Some? <==> 0 <= y * w + x && 4 * (y * w + x) + 3 < |orig|
    ensures t.Some? ==> t.value == Rgb(orig[4 * (y * w + x)], orig[4 * (y * w + x) + 1], orig[4 * (y * w + x) + 2])
  {
    PixelAt(orig, Lin(w, x, y))
  }

  /** What one seed fill works against: the canvas bytes before the fill, its size, the target and border colours. */
  datatype Flood = Flood(orig: seq<Byte>, width: int, height: int, target: Option<Rgb>, border: Rgb)

  /**
   * Pixel index p may be painted: its original colour is within tolerance of the target and
   * not within tolerance of the border colour.
   */
  predicate EligibleIndex(f: Flood, p: int)
  {
    SimilarPixel(PixelAt(f.orig, p), f.target) && !SimilarPixel(PixelAt(f.orig, p), Some(f.border))
  }

  /** Point q is on the canvas and its pixel may be painted. */
  predicate Eligible(f: Flood, q: Point)
  {
    InCanvas(f.width, f.height, q) && EligibleIndex(f, Lin(f.width, q.0, q.1))
  }

  /** All eligible pixel indices; painting one removes it, which bounds the fill. */
  ghost function EligibleIndices(f: Flood): (r: set<int>)
    ensures forall q :: Eligible(f, q) ==> Lin(f.width, q.0, q.1) in r
  {
    forall q | Eligible(f, q) ensures 0 <= Lin(f.width, q.0, q.1) < f.width * f.height {
      LinInRange(f.width, f.height, q.0, q.1);
    }
    set p | 0 <= p < f.width * f.height && EligibleIndex(f, p)
  }

  /** Point q is on the canvas and its pixel is among the painted indices. */
  predicate Painted(f: Flood, painted: set<int>, q: Point)
  {
    InCanvas(f.width, f.height, q) && Lin(f.width, q.0, q.1) in painted
  }

  /**
   * The fill cannot grow any further: if the seed is eligible it is painted, and every
   * eligible 4-neighbour of a painted point is painted.
   */
  ghost predicate FloodClosed(f: Flood, order: seq<Point>, seed: Point)
  {
    (Eligible(f, seed) ==> Painted(f, Indices(f.width, order), seed)) &&
    forall k, n :: 0 <= k < |order| && Adjacent(order[k], n) && Eligible(f, n) ==>
      Painted(f, Indices(f.width, order), n)
  }

  // ---------------------------------------------------------------- seed fill, loop invariant

  /** cur is orig with exactly the pixels in `painted` set to `(fill, 255)`. */
  ghost predicate Repainted(cur: seq<Byte>, orig: seq<Byte>, painted: set<int>, fill: Rgb)
  {
    |cur| == |orig| &&
    forall i :: 0 <= i < |cur| ==> cur[i] == if i / 4 in painted then FillByte(fill, i % 4) else orig[i]
  }

  /** A repainted pixel reads as the fill colour; any other pixel reads as before. */
  lemma RepaintedPixel(cur: seq<Byte>, orig: seq<Byte>, painted: set<int>, fill: Rgb, p: int)
    requires Repainted(cur, orig, painted, fill) && 0 <= p && 4 * p + 3 < |cur|
    ensures PixelAt(cur, p) == if p in painted then Some(fill) else PixelAt(orig, p)
  {
    ByteOfPixel(p, 0);
    ByteOfPixel(p, 1);
    ByteOfPixel(p, 2);
  }

  lemma RepaintedAdd(cur: seq<Byte>, next: seq<Byte>, orig: seq<Byte>, painted: set<int>, fill: Rgb, p: int)
    requires Repainted(cur, orig, painted, fill) && |next| == |cur|
    requires forall j :: 0 <= j < |cur| ==> next[j] == if j / 4 == p then FillByte(fill, j % 4) else cur[j]
    ensures Repainted(next, orig, painted + {p}, fill)
  {
  }

  /** n needs no further visit: it is painted, waiting on the stack, or not eligible. */
  ghost predicate Settled(f: Flood, painted: set<int>, stack: seq<Point>, n: Point)
  {
    Painted(f, painted, n) || n in stack || !Eligible(f, n)
  }

  /** The invariant of the loop at js/script.js:306-324. */
  ghost predicate FloodInv(f: Flood, painted: set<int>, order: seq<Point>, stack: seq<Point>, seed: Point)
  {
    painted == Indices(f.width, order) &&
    (forall k :: 0 <= k < |order| ==> Eligible(f, order[k])) &&
    GrownFrom(order, seed) &&
    (order == [] ==> stack == [] || stack == [seed]) &&
    (order != [] ==> forall s :: s in stack ==> TouchesOrder(order, s)) &&
    Settled(f, painted, stack, seed) &&
    forall k, n :: 0 <= k < |order| && Adjacent(order[k], n) ==> Settled(f, painted, stack, n)
  }

  /** The four points pushed after painting q, in the order of js/script.js:323. */
  function Neighbours(q: Point): (r: seq<Point>)
    ensures forall n :: Adjacent(q, n) <==> n in r
  {
    [(q.0 + 1, q.1), (q.0 - 1, q.1), (q.0, q.1 + 1), (q.0, q.1 - 1)]
  }

  /** The state before the first iteration: only the seed is on the stack. */
  lemma FloodStart(f: Flood, seed: Point)
    ensures FloodInv(f, {}, [], [seed], seed)
  {
  }

  /** With the stack empty the invariant gives the postcondition of the fill. */
  lemma FloodDone(f: Flood, painted: set<int>, order: seq<Point>, seed: Point)
    requires FloodInv(f, painted, order, [], seed)
    ensures FloodClosed(f, order, seed)
  {
    forall k, n | 0 <= k < |order| && Adjacent(order[k], n) && Eligible(f, n)
      ensures Painted(f, Indices(f.width, order), n)
    {
      assert Settled(f, painted, [], n);
    }
  }

  /**
   * The two tests of js/script.js:315 on the current canvas: since the fill colour is not
   * similar to the target, a painted pixel fails the target test, and an unpainted one
   * passes both tests exactly when it is eligible.
   */
  lemma FloodTest(f: Flood, cur: seq<Byte>, painted: set<int>, fill: Rgb, q: Point)
    requires Repainted(cur, f.orig, painted, fill) && |cur| == f.width * f.height * 4
    requires InCanvas(f.width, f.height, q) && !SimilarPixel(Some(fill), f.target)
    ensures var c := PixelAt(cur, Lin(f.width, q.0, q.1));
      c.Some? &&
      (SimilarPixel(c, f.target) && !SimilarPixel(c, Some(f.border)) <==> Eligible(f, q) && !Painted(f, painted, q))
  {
    var p := Lin(f.width, q.0, q.1);
    LinInRange(f.width, f.height, q.0, q.1);
    RepaintedPixel(cur, f.orig, painted, fill, p);
  }

  /** Popping a point that needs no painting keeps the invariant. */
  lemma FloodSkip(f: Flood, painted: set<int>, order: seq<Point>, stack: seq<Point>, seed: Point)
    requires |stack| > 0 && FloodInv(f, painted, order, stack, seed)
    requires var q := stack[|stack| - 1]; Painted(f, painted, q) || !Eligible(f, q)
    ensures FloodInv(f, painted, order, stack[..|stack| - 1], seed)
  {
    var rest, q := stack[..|stack| - 1], stack[|stack| - 1];
    assert stack == rest + [q];
    assert forall n :: n in rest + [q] <==> n in rest || n == q;
    assert painted == Indices(f.width, order);
    assert (forall k :: 0 <= k < |order| ==> Eligible(f, order[k]));
    assert GrownFrom(order, seed);
    assert order == [] ==> rest == [];
    assert Settled(f, painted, rest, seed);
    forall k, n | 0 <= k < |order| && Adjacent(order[k], n) ensures Settled(f, painted, rest, n) {
      assert Settled(f, painted, rest + [q], n);
    }
  }

  /** After painting q every point of the new stack touches the new order. */
  lemma FloodPaintStack(order: seq<Point>, rest: seq<Point>, q: Point)
    requires order == [] ==> rest == []
    requires order != [] ==> forall s :: s in rest + [q] ==> TouchesOrder(order, s)
    ensures forall s :: s in rest + Neighbours(q) ==> TouchesOrder(order + [q], s)
  {
    var order' := order + [q];
    forall s | s in rest + Neighbours(q) ensures TouchesOrder(order', s) {
      if s in rest {
        assert s in rest + [q];
        var j :| 0 <= j < |order| && Adjacent(order[j], s);
        assert order'[j] == order[j];
      } else {
        assert order'[|order|] == q;
      }
    }
  }

  /** After painting q every neighbour of a painted point is settled. */
  lemma FloodPaintSettled(f: Flood, painted: set<int>, order: seq<Point>, rest: seq<Point>, q: Point)
    requires forall k, n :: 0 <= k < |order| && Adjacent(order[k], n) ==> Settled(f, painted, rest + [q], n)
    requires Painted(f, painted + {Lin(f.width, q.0, q.1)}, q) || !Eligible(f, q)
    ensures forall k, n :: 0 <= k < |order + [q]| && Adjacent((order + [q])[k], n) ==>
      Settled(f, painted + {Lin(f.width, q.0, q.1)}, rest + Neighbours(q), n)
  {
    var painted', order', stack' := painted + {Lin(f.width, q.0, q.1)}, order + [q], rest + Neighbours(q);
    forall k, n | 0 <= k < |order'| && Adjacent(order'[k], n) ensures Settled(f, painted', stack', n) {
      if k == |order| {
        assert n in Neighbours(q);
      } else {
        assert order'[k] == order[k];
        assert Settled(f, painted, rest + [q], n);
      }
    }
  }

  /** Popping an eligible unpainted point, painting it and pushing its neighbours keeps the invariant. */
  lemma FloodPaint(f: Flood, painted: set<int>, order: seq<Point>, stack: seq<Point>, seed: Point)
    requires |stack| > 0 && FloodInv(f, painted, order, stack, seed)
    requires var q := stack[|stack| - 1]; Eligible(f, q) && !Painted(f, painted, q)
    ensures var q := stack[|stack| - 1];
      FloodInv(f, painted + {Lin(f.width, q.0, q.1)}, order + [q], stack[..|stack| - 1] + Neighbours(q), seed)
  {
    var rest, q := stack[..|stack| - 1], stack[|stack| - 1];
    assert stack == rest + [q];
    assert q in rest + [q];
    GrownFromAppend(order, seed, q);
    IndicesAppend(f.width, order, q);
    FloodPaintStack(order, rest, q);
    FloodPaintSettled(f, painted, order, rest, q);
  }

  /** The invariant of the loop at js/script.js:306-324 together with the bytes it has written. */
  ghost predicate SeedLoop(cur: seq<Byte>, f: Flood, fill: Rgb, painted: set<int>, order: seq<Point>,
                           stack: seq<Point>, seed: Point)
  {
    Repainted(cur, f.orig, painted, fill) && FloodInv(f, painted, order, stack, seed) &&
    painted <= EligibleIndices(f)
  }

  /** An iteration that pops a point and skips it (js/script.js:310-317). */
  lemma SeedSkipStep(cur: seq<Byte>, f: Flood, fill: Rgb, painted: set<int>, order: seq<Point>,
                     stack: seq<Point>, seed: Point)
    requires |stack| > 0 && SeedLoop(cur, f, fill, painted, order, stack, seed)
    requires var q := stack[|stack| - 1]; Painted(f, painted, q) || !Eligible(f, q)
    ensures SeedLoop(cur, f, fill, painted, order, stack[..|stack| - 1], seed)
  {
    FloodSkip(f, painted, order, stack, seed);
  }

  /** An iteration that pops a point, paints it and pushes its neighbours (js/script.js:320-323). */
  lemma SeedPaintStep(cur: seq<Byte>, next: seq<Byte>, f: Flood, fill: Rgb, painted: set<int>,
                      order: seq<Point>, stack: seq<Point>, seed: Point)
    requires |stack| > 0 && SeedLoop(cur, f, fill, painted, order, stack, seed)
    requires var q := stack[|stack| - 1]; Eligible(f, q) && !Painted(f, painted, q)
    requires |next| == |cur|
    requires var q := stack[|stack| - 1];
      forall j :: 0 <= j < |cur| ==> next[j] == if j / 4 == Lin(f.width, q.0, q.1) then FillByte(fill, j % 4) else cur[j]
    ensures var q := stack[|stack| - 1]; var p := Lin(f.width, q.0, q.1);
      SeedLoop(next, f, fill, painted + {p}, order + [q], stack[..|stack| - 1] + Neighbours(q), seed) &&
      |EligibleIndices(f) - (painted + {p})| < |EligibleIndices(f) - painted|
  {
    var q := stack[|stack| - 1];
    var p := Lin(f.width, q.0, q.1);
    RepaintedAdd(cur, next, f.orig, painted, fill, p);
    FloodPaint(f, painted, order, stack, seed);
    var eligible := EligibleIndices(f);
    assert p in eligible - painted;
    assert eligible - (painted + {p}) == (eligible - painted) - {p};
  }

  /**
   * What seedFill promises, for the canvas bytes cur after it: nothing is painted when the
   * seed colour is already similar to the fill colour; cur is the original with exactly the
   * pixels of `order` set to `(fill, 255)`; every painted point was eligible; the order grows
   * from the seed through 4-neighbours; and, when the fill ran, it could not grow any further.
   */
  ghost predicate SeedFillResult(cur: seq<Byte>, f: Flood, fill: Rgb, order: seq<Point>, seed: Point)
  {
    (SimilarPixel(f.target, Some(fill)) ==> order == []) &&
    Repainted(cur, f.orig, Indices(f.width, order), fill) &&
    (forall k :: 0 <= k < |order| ==> Eligible(f, order[k])) &&
    GrownFrom(order, seed) &&
    (!SimilarPixel(f.target, Some(fill)) ==> FloodClosed(f, order, seed))
  }

  /** When the stack runs empty the loop invariant gives the result. */
  lemma SeedLoopDone(cur: seq<Byte>, f: Flood, fill: Rgb, painted: set<int>, order: seq<Point>, seed: Point)
    requires SeedLoop(cur, f, fill, painted, order, [], seed) && !SimilarPixel(f.target, Some(fill))
    ensures SeedFillResult(cur, f, fill, order, seed)
  {
    FloodDone(f, painted, order, seed);
  }

  // ---------------------------------------------------------------- what seedFill guarantees

  /** When the seed colour is already close to the fill colour the canvas is left exactly as it was. */
  lemma SeedFillUnchangedWhenSimilar(cur: seq<Byte>, f: Flood, fill: Rgb, order: seq<Point>, seed: Point)
    requires SeedFillResult(cur, f, fill, order, seed) && SimilarPixel(f.target, Some(fill))
    ensures cur == f.orig
  {
    assert Indices(f.width, order) == {};
  }

  /**
   * Every byte the fill changes belongs to a painted point on the canvas whose original
   * colour was close to the target and not close to the border colour, and the byte now
   * belongs to `(fill, 255)`.
   */
  lemma SeedFillChanges(cur: seq<Byte>, f: Flood, fill: Rgb, order: seq<Point>, seed: Point, i: int) returns (q: Point)
    requires SeedFillResult(cur, f, fill, order, seed)
    requires 0 <= i < |cur| && cur[i] != f.orig[i]
    ensures q in order && InCanvas(f.width, f.height, q) && Lin(f.width, q.0, q.1) == i / 4
    ensures SimilarPixel(PixelAt(f.orig, i / 4), f.target) && !SimilarPixel(PixelAt(f.orig, i / 4), Some(f.border))
    ensures cur[i] == FillByte(fill, i % 4)
  {
    IndicesMember(f.width, order, i / 4);
    var k :| 0 <= k < |order| && Lin(f.width, order[k].0, order[k].1) == i / 4;
    q := order[k];
  }

  /** A pixel whose original colour is close to the border colour keeps all four bytes. */
  lemma SeedFillKeepsBorder(cur: seq<Byte>, f: Flood, fill: Rgb, order: seq<Point>, seed: Point, p: int)
    requires SeedFillResult(cur, f, fill, order, seed)
    requires 0 <= p && 4 * p + 3 < |cur| && SimilarPixel(PixelAt(f.orig, p), Some(f.border))
    ensures cur[4 * p] == f.orig[4 * p] && cur[4 * p + 1] == f.orig[4 * p + 1]
    ensures cur[4 * p + 2] == f.orig[4 * p + 2] && cur[4 * p + 3] == f.orig[4 * p + 3]
  {
    ByteOfPixel(p, 0);
    ByteOfPixel(p, 1);
    ByteOfPixel(p, 2);
    ByteOfPixel(p, 3);
    if cur[4 * p] != f.orig[4 * p] {
      var q := SeedFillChanges(cur, f, fill, order, seed, 4 * p);
    }
    if cur[4 * p + 1] != f.orig[4 * p + 1] {
      var q := SeedFillChanges(cur, f, fill, order, seed, 4 * p + 1);
    }
    if cur[4 * p + 2] != f.orig[4 * p + 2] {
      var q := SeedFillChanges(cur, f, fill, order, seed, 4 * p + 2);
    }
    if cur[4 * p + 3] != f.orig[4 * p + 3] {
      var q := SeedFillChanges(cur, f, fill, order, seed, 4 * p + 3);
    }
  }

  /**
   * A closed fill contains every point joined to the seed by a 4-path of eligible points:
   * along the path, each point is painted because its predecessor is.
   */
  lemma {:induction false} ClosedContainsReachable(f: Flood, order: seq<Point>, seed: Point, path: seq<Point>)
    requires FloodClosed(f, order, seed) && (forall k :: 0 <= k < |order| ==> Eligible(f, order[k]))
    requires |path| > 0 && path[0] == seed && IsPath(path)
    requires forall i :: 0 <= i < |path| ==> Eligible(f, path[i])
    ensures Painted(f, Indices(f.width, order), path[|path| - 1])
    decreases |path|
  {
    if |path| > 1 {
      var init := path[..|path| - 1];
      forall i | 0 < i < |init| ensures Adjacent(init[i - 1], init[i]) {
        assert init[i - 1] == path[i - 1] && init[i] == path[i];
      }
      ClosedContainsReachable(f, order, seed, init);
      var prev, last := path[|path| - 2], path[|path| - 1];
      assert init[|init| - 1] == prev;
      IndicesMember(f.width, order, Lin(f.width, prev.0, prev.1));
      var k :| 0 <= k < |order| && Lin(f.width, order[k].0, order[k].1) == Lin(f.width, prev.0, prev.1);
      LinInjective(f.width, order[k], prev);
      assert Adjacent(order[k], last);
    }
  }

  /**
   * When the fill ran, every point joined to the seed by a 4-path of eligible points was
   * painted. With SeedFillRegionIsConnected this makes the painted pixels exactly the
   * 4-connected region of eligible pixels around the seed.
   */
  lemma SeedFillReachesRegion(cur: seq<Byte>, f: Flood, fill: Rgb, order: seq<Point>, seed: Point, path: seq<Point>)
    requires SeedFillResult(cur, f, fill, order, seed) && !SimilarPixel(f.target, Some(fill))
    requires |path| > 0 && path[0] == seed && IsPath(path)
    requires forall i :: 0 <= i < |path| ==> Eligible(f, path[i])
    ensures Painted(f, Indices(f.width, order), path[|path| - 1])
  {
    ClosedContainsReachable(f, order, seed, path);
  }

  /** Every painted point is joined to the seed by a 4-path of eligible points. */
  lemma SeedFillRegionIsConnected(cur: seq<Byte>, f: Flood, fill: Rgb, order: seq<Point>, seed: Point, q: Point)
    returns (path: seq<Point>)
    requires SeedFillResult(cur, f, fill, order, seed) && Painted(f, Indices(f.width, order), q)
    ensures |path| > 0 && path[0] == seed && path[|path| - 1] == q && IsPath(path)
    ensures forall i :: 0 <= i < |path| ==> Eligible(f, path[i])
  {
    IndicesMember(f.width, order, Lin(f.width, q.0, q.1));
    var k :| 0 <= k < |order| && Lin(f.width, order[k].0, order[k].1) == Lin(f.width, q.0, q.1);
    LinInjective(f.width, order[k], q);
    path := GrownFromIsConnected(order, seed, k);
    forall i | 0 <= i < |path| ensures Eligible(f, path[i]) {
      var j :| 0 <= j < |order| && order[j] == path[i];
    }
  }

  /** A painted point of the canvas reads as the fill colour. */
  lemma PaintedReadsFill(cur: seq<Byte>, f: Flood, fill: Rgb, painted: set<int>, q: Point)
    requires Repainted(cur, f.orig, painted, fill) && |cur| == f.width * f.height * 4
    requires Painted(f, painted, q)
    ensures PixelAt(cur, Lin(f.width, q.0, q.1)) == Some(fill)
  {
    var p := Lin(f.width, q.0, q.1);
    LinInRange(f.width, f.height, q.0, q.1);
    MulLe(p + 1, f.width * f.height, 4);
    RepaintedPixel(cur, f.orig, painted, fill, p);
  }

  /**
   * Filling twice from the same seed with the same colours gives what one fill gave: after
   * a fill that painted anything the seed reads as the fill colour, so the second call
   * returns at its first test; after one that painted nothing the canvas and the seed are
   * as before, and the second fill paints nothing either.
   */
  lemma SeedFillIdempotent(f: Flood, fill: Rgb, seed: Point, cur1: seq<Byte>, order1: seq<Point>,
                           cur2: seq<Byte>, order2: seq<Point>)
    requires |f.orig| == f.width * f.height * 4 && f.target == SeedTarget(f.orig, f.width, seed.0, seed.1)
    requires SeedFillResult(cur1, f, fill, order1, seed)
    requires SeedFillResult(cur2, Flood(cur1, f.width, f.height, SeedTarget(cur1, f.width, seed.0, seed.1), f.border),
                            fill, order2, seed)
    ensures cur2 == cur1
  {
    var f2 := Flood(cur1, f.width, f.height, SeedTarget(cur1, f.width, seed.0, seed.1), f.border);
    if order1 == [] {
      assert Indices(f.width, order1) == {};
      assert cur1 == f.orig;
      assert f2 == f;
      if order2 != [] && !SimilarPixel(f.target, Some(fill)) {
        var path := GrownFromIsConnected(order2, seed, 0);
        assert false;
      }
    } else {
      var path := GrownFromIsConnected(order1, seed, 0);
      var k :| 0 <= k < |order1| && order1[k] == seed;
      IndicesMember(f.width, order1, Lin(f.width, seed.0, seed.1));
      PaintedReadsFill(cur1, f, fill, Indices(f.width, order1), seed);
      SimilarIsReflexive(fill, DefaultTolerance);
    }
    assert order2 == [];
    assert Indices(f.width, order2) == {};
  }

  /**
   * A seed off the canvas paints nothing, whatever colour its index happens to read: the
   * first pop discards it at the bounds test of js/script.js:310, and nothing was pushed.
   */
  lemma SeedFillOffCanvasSeed(cur: seq<Byte>, f: Flood, fill: Rgb, order: seq<Point>, seed: Point)
    requires SeedFillResult(cur, f, fill, order, seed) && !InCanvas(f.width, f.height, seed)
    ensures order == [] && cur == f.orig
  {
    if order != [] {
      var path := GrownFromIsConnected(order, seed, 0);
      assert false;
    }
    assert Indices(f.width, order) == {};
  }

  /** A seed one column left of a 600-pixel-wide canvas samples the last pixel of the row above. */
  lemma SeedLeftOfCanvas(orig: seq<Byte>)
    requires |orig| == CanvasWidth * CanvasHeight * 4
    ensures SeedTarget(orig, CanvasWidth, -1, 5) == PixelAt(orig, Lin(CanvasWidth, 599, 4))
  {
  }

  // ---------------------------------------------------------------- the application object

  class FillApp {
    const width: nat
    const height: nat
    /** The canvas' RGBA bytes (what getImageData returns and putImageData writes back). */
    const pixels: array<Byte>
    const shape: seq<Point>
    var borderColor: Rgb

    predicate Valid()
    {
      0 < width && 0 < height && pixels.Length == width * height * 4
    }

    /**
     * The constructor of js/script.js:155-178: a 600 by 400 canvas, a copy of the starting
     * polygon and the border colour from the colour input; `redraw` clears the canvas to
     * transparent black.
     */
    constructor (border: Rgb)
      ensures Valid() && fresh(pixels)
      ensures width == CanvasWidth && height == CanvasHeight && shape == OriginalShape
      ensures borderColor == border
      ensures forall i :: 0 <= i < pixels.Length ==> pixels[i] == 0
    {
      width := CanvasWidth;
      height := CanvasHeight;
      shape := OriginalShape;
      borderColor := border;
      pixels := new Byte[CanvasWidth * CanvasHeight * 4](_ => 0);
    }

    /** The red, green and blue bytes of pixel p, as the closures of js/script.js:270-290 read them. */
    method ReadPixel(p: int) returns (c: Rgb)
      requires 0 <= p && 4 * p + 3 < pixels.Length
      ensures Some(c) == PixelAt(pixels[..], p)
    {
      var i := p * 4;
      c := Rgb(pixels[i], pixels[i + 1], pixels[i + 2]);
    }

    /** setPixel of js/script.js:297-303: pixel p becomes `(fill, 255)`, every other byte is kept. */
    method SetPixel(p: int, fill: Rgb)
      requires 0 <= p && 4 * p + 3 < pixels.Length
      modifies pixels
      ensures forall j :: 0 <= j < pixels.Length ==>
        pixels[j] == if j / 4 == p then FillByte(fill, j % 4) else old(pixels[j])
    {
      var i := p * 4;
      pixels[i] := fill.r;
      pixels[i + 1] := fill.g;
      pixels[i + 2] := fill.b;
      pixels[i + 3] := 255;
    }

    /**
     * One pass of the loop at js/script.js:307-324: pop the last point of the stack and, when it
     * is on the canvas, still has the target colour and not the border colour, paint it and
     * push its four neighbours. Either a pixel is painted, which leaves fewer eligible pixels
     * unpainted, or the stack shrinks.
     */
    method FloodStep(ghost f: Flood, target: Option<Rgb>, fill: Rgb, stack: seq<Point>,
                     ghost painted: set<int>, ghost order: seq<Point>, ghost seed: Point)
      returns (stack': seq<Point>, ghost painted': set<int>, ghost order': seq<Point>)
      requires Valid() && f.width == width && f.height == height
      requires f.target == target && f.border == borderColor && !SimilarPixel(Some(fill), target)
      requires |stack| > 0 && SeedLoop(pixels[..], f, fill, painted, order, stack, seed)
      modifies pixels
      ensures SeedLoop(pixels[..], f, fill, painted', order', stack', seed)
      ensures |EligibleIndices(f) - painted'| < |EligibleIndices(f) - painted| ||
              (painted' == painted && |stack'| < |stack|)
    {
      var q := stack[|stack| - 1];
      var x, y := q.0, q.1;
      var skip := x < 0 || x >= width || y < 0 || y >= height;
      var p := y * width + x;
      if !skip {
        assert p == Lin(width, x, y);
        FloodTest(f, pixels[..], painted, fill, q);
        var here := ReadPixel(p);
        skip := !SimilarPixel(Some(here), target) || SimilarPixel(Some(here), Some(borderColor));
      }
      if skip {
        SeedSkipStep(pixels[..], f, fill, painted, order, stack, seed);
        stack', painted', order' := stack[..|stack| - 1], painted, order;
      } else {
        ghost var cur := pixels[..];
        SetPixel(p, fill);
        SeedPaintStep(cur, pixels[..], f, fill, painted, order, stack, seed);
        stack', painted', order' := stack[..|stack| - 1] + Neighbours(q), painted + {p}, order + [q];
      }
    }

    /**
     * seedFill of js/script.js:240-331 with the fill colour already parsed: a 4-connected
     * fill from (startX, startY) driven by an explicit stack. The ghost `order` lists the
     * painted points in the order they were painted; `SeedFillResult` states what holds after.
     */
    method SeedFill(startX: int, startY: int, fill: Rgb) returns (ghost order: seq<Point>)
      requires Valid()
      modifies pixels
      ensures SeedFillResult(pixels[..],
        Flood(old(pixels[..]), width, height, SeedTarget(old(pixels[..]), width, startX, startY), borderColor),
        fill, order, (startX, startY))
    {
      ghost var orig := pixels[..];
      ghost var seed := (startX, startY);
      order := [];
      var idx := (startY * width + startX) * 4;
      var target: Option<Rgb> := None;
      if 0 <= idx < pixels.Length {
        target := Some(Rgb(pixels[idx], pixels[idx + 1], pixels[idx + 2]));
      }
      ghost var f := Flood(orig, width, height, target, borderColor);
      assert target == SeedTarget(orig, width, startX, startY);
      if SimilarPixel(target, Some(fill)) {
        assert Repainted(pixels[..], orig, {}, fill);
        return;
      }
      SimilarPixelSymmetric(target, Some(fill));
      ghost var painted: set<int> := {};
      var stack: seq<Point> := [(startX, startY)];
      FloodStart(f, seed);
      while |stack| > 0
        invariant SeedLoop(pixels[..], f, fill, painted, order, stack, seed)
        decreases |EligibleIndices(f) - painted|, |stack|
      {
        stack, painted, order := FloodStep(f, target, fill, stack, painted, order, seed);
      }
      SeedLoopDone(pixels[..], f, fill, painted, order, seed);
    }

    /**
     * scanlineFill of js/script.js:337-444 with the fill colour already parsed. `stroke` is
     * the temporary canvas with only the outline drawn on it (js/script.js:359); the spans
     * the rows fill on it are given by `Covered`. The box around the vertices is walked row
     * by row and every visited pixel that passes the test of js/script.js:429 takes
     * `(fill, 255)`; `CompositeResult` states the outcome.
     */
    method ScanlineFill(fill: Rgb, stroke: seq<Byte>)
      requires Valid() && |stroke| == pixels.Length
      modifies pixels
      ensures CompositeResult(pixels[..], old(pixels[..]), Scene(shape, stroke, borderColor, width), fill)
    {
      ghost var orig := pixels[..];
      var s := Scene(shape, stroke, borderColor, width);
      var box := BoundingBox(shape);
      if box.None? {
        return;
      }
      var b := box.value;
      assert b.minY < shape[0].1 < b.maxY;
      CompositeStart(orig, s, fill, b);
      var y := b.minY;
      while y <= b.maxY
        invariant b.minY <= y <= b.maxY + 1
        invariant Composited(pixels[..], orig, s, fill, b, y, b.minX)
        decreases b.maxY - y
      {
        var x := b.minX;
        while x <= b.maxX
          invariant b.minX <= x <= b.maxX + 1
          invariant Composited(pixels[..], orig, s, fill, b, y, x)
          decreases b.maxX - x
        {
          var p := y * width + x;
          var isBorder := SimilarPixel(PixelAt(stroke, p), Some(borderColor));
          var alpha := FilledAlpha(s, p);
          ghost var cur := pixels[..];
          if !isBorder && alpha.Some? && alpha.value > 0 {
            SetPixel(p, fill);
          }
          CompositeStep(cur, pixels[..], orig, s, fill, b, y, x);
          x := x + 1;
        }
        CompositeRow(pixels[..], orig, s, fill, b, y);
        y := y + 1;
      }
      CompositeDone(pixels[..], orig, s, fill, b);
    }
  }
}
