/**
 * The composite step of `scanlineFill` (js/script.js:415-437): the box of pixels around the
 * polygon is walked row by row, and a pixel takes the fill colour when the temporary canvas
 * has painted it (alpha above zero after the `fillRect` spans) and the stroke-only snapshot
 * does not show the border colour there.
 */
module Composite {
  import opened Types
  import opened Color
  import opened Raster
  import opened Scanline
  import PointInShape

  /**
   * What the composite reads: the polygon, the stroke-only snapshot of the temporary canvas
   * (js/script.js:359), the border colour and the canvas width.
   */
  datatype Scene = Scene(shape: seq<Point>, stroke: seq<Byte>, border: Rgb, width: int)

  /**
   * The alpha byte of pixel p on the temporary canvas after the spans were filled
   * (js/script.js:416-417): 255 where a span covers the pixel, the stroke's alpha elsewhere,
   * `undefined` outside the buffer. The spans are whole pixels and the fill colour is
   * opaque, so a covered pixel is fully opaque.
   */
  function FilledAlpha(s: Scene, p: int): (a: Option<Byte>)
    requires s.width > 0
    ensures a.Some? <==> 0 <= p && 4 * p + 3 < |s.stroke|
  {
    if 0 <= p && 4 * p + 3 < |s.stroke| then
      Some(if Covered(s.shape, p % s.width, p / s.width) then 255 else s.stroke[4 * p + 3])
    else None
  }

  /** The test of js/script.js:429: not border-coloured in the snapshot, and painted on the temporary canvas. */
  predicate CompositeWrites(s: Scene, p: int)
    requires s.width > 0
  {
    !SimilarPixel(PixelAt(s.stroke, p), Some(s.border)) &&
    match FilledAlpha(s, p)
    case None => false
    case Some(a) => a > 0
  }

  predicate InBox(b: Box, x: int, y: int)
  {
    b.minX <= x <= b.maxX && b.minY <= y <= b.maxY
  }

  /** Pixel index p is the index `(y * width + x)` of some point of the box. */
  ghost predicate Visited(b: Box, w: int, p: int)
  {
    exists x, y :: InBox(b, x, y) && Lin(w, x, y) == p
  }

  /** p is the index of a point of the box that the walk reaches before (x, y). */
  ghost predicate VisitedBefore(b: Box, w: int, p: int, y: int, x: int)
  {
    exists xx, yy :: b.minX <= xx <= b.maxX && b.minY <= yy && (yy < y || (yy == y && xx < x)) && Lin(w, xx, yy) == p
  }

  /** The canvas after the walk has reached (x, y): the pixels visited so far that pass the test hold `(fill, 255)`. */
  ghost predicate Composited(cur: seq<Byte>, orig: seq<Byte>, s: Scene, fill: Rgb, b: Box, y: int, x: int)
    requires s.width > 0
  {
    |cur| == |orig| &&
    forall i :: 0 <= i < |cur| ==>
      cur[i] == if VisitedBefore(b, s.width, i / 4, y, x) && CompositeWrites(s, i / 4) then FillByte(fill, i % 4) else orig[i]
  }

  /** Pixel p is written by the composite: the polygon has vertices, some point of its box has index p, and p passes the test. */
  ghost predicate Hit(s: Scene, p: int)
    requires s.width > 0
  {
    BoundingBox(s.shape).Some? && Visited(BoundingBox(s.shape).value, s.width, p) && CompositeWrites(s, p)
  }

  /**
   * What the composite leaves: exactly the pixels it hits hold `(fill, 255)`, and every
   * other byte is as before. With no vertices nothing is hit (the source throws before
   * writing).
   */
  ghost predicate CompositeResult(cur: seq<Byte>, orig: seq<Byte>, s: Scene, fill: Rgb)
    requires s.width > 0
  {
    |cur| == |orig| &&
    forall i :: 0 <= i < |cur| ==> cur[i] == if Hit(s, i / 4) then FillByte(fill, i % 4) else orig[i]
  }

  // ---------------------------------------------------------------- the walk, step by step

  /** Before the first point nothing has been visited. */
  lemma CompositeStart(orig: seq<Byte>, s: Scene, fill: Rgb, b: Box)
    requires s.width > 0
    ensures Composited(orig, orig, s, fill, b, b.minY, b.minX)
  {
  }

  /** Moving one point along the row adds exactly that point's index. */
  lemma VisitedBeforeStep(b: Box, w: int, p: int, y: int, x: int)
    requires b.minX <= x <= b.maxX && b.minY <= y
    ensures VisitedBefore(b, w, p, y, x + 1) <==> VisitedBefore(b, w, p, y, x) || p == Lin(w, x, y)
  {
    if VisitedBefore(b, w, p, y, x + 1) && p != Lin(w, x, y) {
      var xx, yy :| b.minX <= xx <= b.maxX && b.minY <= yy && (yy < y || (yy == y && xx < x + 1)) && Lin(w, xx, yy) == p;
      assert yy < y || (yy == y && xx < x);
    }
  }

  /** The end of a row is the start of the next one. */
  lemma VisitedBeforeRow(b: Box, w: int, p: int, y: int)
    ensures VisitedBefore(b, w, p, y, b.maxX + 1) <==> VisitedBefore(b, w, p, y + 1, b.minX)
  {
    if VisitedBefore(b, w, p, y + 1, b.minX) {
      var xx, yy :| b.minX <= xx <= b.maxX && b.minY <= yy && (yy < y + 1 || (yy == y + 1 && xx < b.minX)) && Lin(w, xx, yy) == p;
      assert yy < y || (yy == y && xx < b.maxX + 1);
    }
  }

  /** After the last row every point of the box has been visited. */
  lemma VisitedBeforeEnd(b: Box, w: int, p: int)
    ensures VisitedBefore(b, w, p, b.maxY + 1, b.minX) <==> Visited(b, w, p)
  {
    if VisitedBefore(b, w, p, b.maxY + 1, b.minX) {
      var xx, yy :| b.minX <= xx <= b.maxX && b.minY <= yy && (yy < b.maxY + 1 || (yy == b.maxY + 1 && xx < b.minX)) && Lin(w, xx, yy) == p;
      assert InBox(b, xx, yy);
    }
    if Visited(b, w, p) {
      var xx, yy :| InBox(b, xx, yy) && Lin(w, xx, yy) == p;
      assert yy < b.maxY + 1;
    }
  }

  /** One point of the walk: its pixel is written exactly when it passes the test. */
  lemma CompositeStep(cur: seq<Byte>, next: seq<Byte>, orig: seq<Byte>, s: Scene, fill: Rgb, b: Box, y: int, x: int)
    requires s.width > 0 && b.minX <= x <= b.maxX && b.minY <= y
    requires Composited(cur, orig, s, fill, b, y, x) && |next| == |cur|
    requires var p := Lin(s.width, x, y);
      forall j :: 0 <= j < |cur| ==> next[j] == if j / 4 == p && CompositeWrites(s, p) then FillByte(fill, j % 4) else cur[j]
    ensures Composited(next, orig, s, fill, b, y, x + 1)
  {
    forall i | 0 <= i < |next|
      ensures next[i] == if VisitedBefore(b, s.width, i / 4, y, x + 1) && CompositeWrites(s, i / 4) then FillByte(fill, i % 4) else orig[i]
    {
      VisitedBeforeStep(b, s.width, i / 4, y, x);
    }
  }

  /** Finishing a row. */
  lemma CompositeRow(cur: seq<Byte>, orig: seq<Byte>, s: Scene, fill: Rgb, b: Box, y: int)
    requires s.width > 0 && Composited(cur, orig, s, fill, b, y, b.maxX + 1)
    ensures Composited(cur, orig, s, fill, b, y + 1, b.minX)
  {
    forall i | 0 <= i < |cur| ensures VisitedBefore(b, s.width, i / 4, y, b.maxX + 1) <==> VisitedBefore(b, s.width, i / 4, y + 1, b.minX) {
      VisitedBeforeRow(b, s.width, i / 4, y);
    }
  }

  /** Finishing the last row gives the result. */
  lemma CompositeDone(cur: seq<Byte>, orig: seq<Byte>, s: Scene, fill: Rgb, b: Box)
    requires s.width > 0 && BoundingBox(s.shape) == Some(b)
    requires Composited(cur, orig, s, fill, b, b.maxY + 1, b.minX)
    ensures CompositeResult(cur, orig, s, fill)
  {
    forall i | 0 <= i < |cur| ensures VisitedBefore(b, s.width, i / 4, b.maxY + 1, b.minX) <==> Visited(b, s.width, i / 4) {
      VisitedBeforeEnd(b, s.width, i / 4);
    }
  }

  // ---------------------------------------------------------------- what the composite guarantees

  /** When the box lies within the canvas columns, the visited indices are exactly the pixels of the box. */
  lemma VisitedInCanvas(b: Box, w: int, p: int)
    requires 0 < w && 0 <= b.minX && b.maxX < w
    ensures Visited(b, w, p) <==> InBox(b, p % w, p / w)
  {
    if Visited(b, w, p) {
      var x, y :| InBox(b, x, y) && Lin(w, x, y) == p;
      LinCoords(w, x, y);
    }
    if InBox(b, p % w, p / w) {
      assert Lin(w, p % w, p / w) == p;
    }
  }

  /**
   * Every byte the composite changes belongs to a pixel whose index is that of a point of
   * the box, that pixel is not border-coloured in the stroke snapshot, and the byte now
   * belongs to `(fill, 255)`.
   */
  lemma CompositeChanges(cur: seq<Byte>, orig: seq<Byte>, s: Scene, fill: Rgb, i: int)
    requires s.width > 0 && CompositeResult(cur, orig, s, fill)
    requires 0 <= i < |cur| && cur[i] != orig[i]
    ensures BoundingBox(s.shape).Some? && Visited(BoundingBox(s.shape).value, s.width, i / 4)
    ensures !SimilarPixel(PixelAt(s.stroke, i / 4), Some(s.border))
    ensures cur[i] == FillByte(fill, i % 4)
  {
  }

  /** So, with the box inside the canvas columns, a changed byte lies in the box. */
  lemma CompositeStaysInBox(cur: seq<Byte>, orig: seq<Byte>, s: Scene, fill: Rgb, i: int)
    requires s.width > 0 && CompositeResult(cur, orig, s, fill)
    requires var b := BoundingBox(s.shape); b.Some? ==> 0 <= b.value.minX && b.value.maxX < s.width
    requires 0 <= i < |cur| && cur[i] != orig[i]
    ensures InBox(BoundingBox(s.shape).value, (i / 4) % s.width, (i / 4) / s.width)
  {
    CompositeChanges(cur, orig, s, fill, i);
    VisitedInCanvas(BoundingBox(s.shape).value, s.width, i / 4);
  }

  /** The four bytes of pixel p after the composite. */
  lemma CompositeBytes(cur: seq<Byte>, orig: seq<Byte>, s: Scene, fill: Rgb, p: int)
    requires s.width > 0 && CompositeResult(cur, orig, s, fill)
    requires 0 <= p && 4 * p + 3 < |cur|
    ensures cur[4 * p] == if Hit(s, p) then fill.r else orig[4 * p]
    ensures cur[4 * p + 1] == if Hit(s, p) then fill.g else orig[4 * p + 1]
    ensures cur[4 * p + 2] == if Hit(s, p) then fill.b else orig[4 * p + 2]
    ensures cur[4 * p + 3] == if Hit(s, p) then 255 else orig[4 * p + 3]
  {
    ByteOfPixel(p, 0);
    ByteOfPixel(p, 1);
    ByteOfPixel(p, 2);
    ByteOfPixel(p, 3);
  }

  /** A pixel the composite hits reads as the fill colour and is opaque. */
  lemma CompositeHitPixel(cur: seq<Byte>, orig: seq<Byte>, s: Scene, fill: Rgb, p: int)
    requires s.width > 0 && CompositeResult(cur, orig, s, fill)
    requires 0 <= p && 4 * p + 3 < |cur| && Hit(s, p)
    ensures PixelAt(cur, p) == Some(fill) && cur[4 * p + 3] == 255
  {
    CompositeBytes(cur, orig, s, fill, p);
    PixelOfBytes(cur, p, fill);
  }

  /** A pixel the snapshot shows in the border colour is left as it was. */
  lemma CompositeKeepsBorder(cur: seq<Byte>, orig: seq<Byte>, s: Scene, fill: Rgb, p: int)
    requires s.width > 0 && CompositeResult(cur, orig, s, fill)
    requires SimilarPixel(PixelAt(s.stroke, p), Some(s.border))
    requires 0 <= p && 4 * p + 3 < |cur|
    ensures cur[4 * p] == orig[4 * p] && cur[4 * p + 1] == orig[4 * p + 1]
    ensures cur[4 * p + 2] == orig[4 * p + 2] && cur[4 * p + 3] == orig[4 * p + 3]
  {
    CompositeBytes(cur, orig, s, fill, p);
    assert !Hit(s, p);
  }

  /** A covered canvas pixel that is not border-coloured in the snapshot passes the test. */
  lemma CoveredPasses(s: Scene, h: int, x: int, y: int)
    requires s.width > 0 && |s.stroke| == s.width * h * 4
    requires 0 <= x < s.width && 0 <= y < h
    requires Covered(s.shape, x, y) && !SimilarPixel(PixelAt(s.stroke, Lin(s.width, x, y)), Some(s.border))
    ensures 0 <= Lin(s.width, x, y) && 4 * Lin(s.width, x, y) + 3 < |s.stroke|
    ensures CompositeWrites(s, Lin(s.width, x, y))
  {
    var w, p := s.width, Lin(s.width, x, y);
    LinInRange(w, h, x, y);
    MulLe(p + 1, w * h, 4);
    LinCoords(w, x, y);
    assert FilledAlpha(s, p) == Some(255);
  }

  /**
   * Every canvas pixel inside a span of its row, and not border-coloured in the snapshot,
   * is hit by the composite (so, by CompositeHitPixel, it ends up as `(fill, 255)`).
   */
  lemma CoveredHit(s: Scene, h: int, x: int, y: int)
    requires s.width > 0 && |s.stroke| == s.width * h * 4
    requires 0 <= x < s.width && 0 <= y < h
    requires Covered(s.shape, x, y) && !SimilarPixel(PixelAt(s.stroke, Lin(s.width, x, y)), Some(s.border))
    ensures 0 <= Lin(s.width, x, y) && 4 * Lin(s.width, x, y) + 3 < |s.stroke|
    ensures Hit(s, Lin(s.width, x, y))
  {
    var b := BoundingBox(s.shape).value;
    CoveredInsideBox(s.shape, x, y);
    assert InBox(b, x, y);
    CoveredPasses(s, h, x, y);
    assert Visited(b, s.width, Lin(s.width, x, y));
  }

  /**
   * The fill agrees with the even-odd test of the seed-fill page: a canvas pixel that test
   * reports inside the polygon, which is not itself a crossing of its row and is not
   * border-coloured in the snapshot, is hit by the composite.
   */
  lemma InsideHit(s: Scene, h: int, x: int, y: int)
    requires s.width > 0 && |s.stroke| == s.width * h * 4
    requires 0 <= x < s.width && 0 <= y < h
    requires PointInShape.Inside(x as real, y as real, s.shape) && x as real !in Crossings(s.shape, y)
    requires !SimilarPixel(PixelAt(s.stroke, Lin(s.width, x, y)), Some(s.border))
    ensures Hit(s, Lin(s.width, x, y))
  {
    PointInShape.ScanlineAgreesWithPointInShape(s.shape, x, y);
    if |s.shape| == 0 {
      PointInShape.EmptyShapeContainsNothing(x as real, y as real);
    }
    var ys := Ys(s.shape);
    if y < Min(ys) || y >= Max(ys) {
      NoSpansOutsideVertices(s.shape, y);
    }
    CoveredHit(s, h, x, y);
  }
}
