# Region fill on an RGBA canvas, in Dafny

This project models the core of a small canvas demo that fills a polygon drawn on an HTML
canvas. The canvas is a `width * height * 4` byte buffer; pixel `(x, y)` occupies bytes
`(y * width + x) * 4 .. + 3` (red, green, blue, alpha). The model covers:

- the colour primitives: the per-channel tolerance test `isSimilarColor` and two hex
  colour parsers, a slice-and-`parseInt` one (`js/script.js`) and a regular-expression one
  (`static/main.js`);
- `FillApp.seedFill`: a 4-connected flood fill from a seed point, driven by an explicit
  stack, that rewrites the canvas bytes in place;
- `FillApp.scanlineFill`: per-row edge crossings under the half-open rule, sorting,
  even-odd pairing into spans `ceil(a)..floor(b)`, and the composite that copies the fill
  colour into the canvas for every pixel of the padded bounding box that the spans cover
  and that is not border-coloured in the stroke-only snapshot;
- `isPointInShape`, the even-odd crossing test, and its agreement with the scanline spans;
- the pixel-decode loop of `drawServerImage`, mapping an indexed image and a colour map to
  RGBA bytes.

Modules, one per concern: `Types` (bytes, points, `Option`), `Color`, `StrictHex`
(`js/script.js` hexToRgb, with JavaScript's `slice` and `parseInt(s, 16)`), `RegexHex`
(`static/main.js` hexToRgb), `Scanline` (crossings, sorting, spans, coverage, as pure
functions), `PointInShape`, `Raster` (pixel indices, reading pixels, 4-paths), `Composite`
(what the scanline composite writes), `Fill` (the `FillApp` class with `SeedFill` and
`ScanlineFill` as methods over the canvas `array`), and `ServerImage`.

JavaScript details kept in the model: a read past the end of a typed array gives
`undefined`, and every colour comparison with `undefined` is false (`Raster.PixelAt`,
`Raster.SimilarPixel`). The seed colour is read at the index `(y * width + x) * 4` with no
bounds check, so a seed just left or right of the canvas samples a pixel of a neighbouring row
(seed (-1, 5) reads pixel (599, 4), `Fill.SeedLeftOfCanvas`), and only an index outside the
buffer gives `undefined` (`Fill.SeedTarget`). The composite computes `(y * width + x) * 4`
for box pixels that may lie outside the canvas; that index can address a pixel of another
row, or no pixel, and the model uses the same linear index. Intersection abscissas are exact reals.

Two edge cases of the code, as the model states them:

- `scanlineFill` does not reject a polygon with fewer than three vertices. For two vertices
  that share an integer x, the spans of each row between them contain that x on the
  temporary canvas: both edges cross the row at x, and `ceil(x)..floor(x)` is not empty
  (`Scanline.TwoPointShapePaints`). Whether the composite then writes those pixels depends
  on the stroke snapshot: the outline stroked along the same segment (js/script.js:348-356)
  may mark them as border, and the composite skips border pixels (js/script.js:430).
- `seedFill` does not reject a seed outside the canvas. Whatever colour the seed's index
  reads, nothing is painted: the first pop discards the seed at the bounds test of
  js/script.js:310, and nothing has been pushed besides it (`Fill.SeedFillOffCanvasSeed`).

## Model

| member | source | states |
|---|---|---|
| Color.SimilarIsSymmetric | js/script.js:30-34 | the tolerance test gives the same answer with its two colours swapped |
| Color.IsSimilarColor | js/script.js:30-34 | isSimilarColor: every channel differs by no more than the tolerance (no contract of its own; its properties are the `Color.Similar…` lemmas) |
| Color.SimilarIsReflexive | js/script.js:30-34 | every colour is similar to itself for a tolerance of at least 0 |
| Color.SimilarIsNotTransitive | js/script.js:30-34 | at the default tolerance 10, (0,0,0)~(10,0,0) and (10,0,0)~(20,0,0) but not (0,0,0)~(20,0,0) |
| StrictHex.Slice | js/script.js:13-15 | `String.prototype.slice` on non-negative bounds: the characters from start up to the end bound clipped at the string's length, and empty when start is at or past the end |
| StrictHex.TrimStart | js/script.js:13-15 | parseInt's leading-whitespace skip: a suffix of the input, every dropped character is white space and the first kept one is not |
| StrictHex.HexPrefixLength | js/script.js:13-15 | the longest prefix of hex digits: all digits, and followed by a non-digit or the end |
| StrictHex.SplitSign | js/script.js:13-15 | the sign is negative exactly when the string starts with `-`; a leading `-` or `+` is dropped, and otherwise the string is kept whole |
| StrictHex.StripHexPrefix | js/script.js:13-15 | a leading `0x` or `0X` is dropped, and otherwise the string is kept whole |
| StrictHex.ParseDigits | js/script.js:13-15 | NaN exactly when the string does not start with a hex digit, otherwise the hex value of the longest run of hex digits at the front (`StrictHex.ParseDigitsStops` states it for any digits followed by a non-digit) |
| StrictHex.ParseIntHex | js/script.js:13-15 | `parseInt(s, 16)`: white space, sign, `0x` prefix, then digits, with the value as an unbounded integer (its properties are the lemmas that follow) |
| StrictHex.Negate | js/script.js:13-15 | the negated number keeps NaN and otherwise sums with the original to 0 |
| StrictHex.ParseIntSkipsWhiteSpace | js/script.js:13-15 | a leading white-space character does not change what parseInt reads |
| StrictHex.ParseIntSign | js/script.js:13-15 | a leading `-` negates the number that follows and a leading `+` keeps it |
| StrictHex.ParseIntUnsigned | js/script.js:13-15 | a string that starts with neither white space nor a sign is read as its digits after an optional `0x` |
| StrictHex.ParseIntMinus | js/script.js:13-15 | a leading `-` negates what the rest of the string reads as |
| StrictHex.ParseIntPlus | js/script.js:13-15 | a leading `+` keeps what the rest of the string reads as |
| StrictHex.ParseIntHexPrefix | js/script.js:13-15 | after `0x` or `0X` parseInt reads the digits that follow |
| StrictHex.ParseDigitsStops | js/script.js:13-15 | reading stops at the first non-digit: the value is the hex value of the digits before it |
| StrictHex.ParseIntStops | js/script.js:13-15 | parseInt of hex digits followed by a non-digit is the value of those digits, unless they start a `0x` prefix |
| StrictHex.ParseIntStopsAtNonDigit | js/script.js:13-15 | a hex digit followed by a non-digit (not `0x`) parses to that digit's value |
| StrictHex.HexToRgbStopsAtNonDigit | js/script.js:12-17 | when characters 1 and 2 are a hex digit and a non-digit (not a `0x` prefix), red is that digit's value, so `#fg0000` gives red 15 rather than NaN |
| StrictHex.HexToRgb | js/script.js:12-17 | three values, one per two-character slice |
| StrictHex.PlainDigits | js/script.js:13-15 | on a string of digits without sign, space or `0x`, parseInt reads its hex digits |
| StrictHex.ParsePair | js/script.js:13-15 | two hex digits parse to the byte `16 * hi + lo` |
| StrictHex.ParseDigit | js/script.js:13-15 | one hex digit parses to its value |
| StrictHex.ParsePairAt | js/script.js:13-15 | a two-character slice of two hex digits parses to their byte |
| StrictHex.ParseDigitAt | js/script.js:13-15 | the slice at the last character, a hex digit, is one character long and parses to its value |
| StrictHex.NonDigitIsNaN | js/script.js:13-15 | a string that starts with anything but space, sign or hex digit parses to NaN |
| StrictHex.HexToRgbOnSixDigits | js/script.js:12-17 | on `#` and six hex digits the channels are the byte values of digit pairs 1-2, 3-4 and 5-6 |
| StrictHex.HexToRgbOfDigits | js/script.js:12-17 | the same with the six digits at positions 1-6 given one by one |
| StrictHex.HexToRgbRoundTrip | js/script.js:12-17 | parsing the `#rrggbb` text of a colour gives back its three bytes |
| StrictHex.HexToRgbWithoutHash | js/script.js:12-17 | six digits without `#` are read one character late: pairs 2-3, 4-5 and the single last digit |
| StrictHex.HexToRgbOfShiftedDigits | js/script.js:12-17 | the same with the five digits read at positions 1-5 given one by one |
| StrictHex.HexToRgbShortInput | js/script.js:12-17 | on five characters or fewer the blue slice is empty and blue is NaN |
| RegexHex.HexToRgb | static/main.js:312-319 | on an optional `#` and six hex digits, the byte values of the three pairs; on anything else, black |
| RegexHex.MatchesHexPattern | static/main.js:313 | the pattern `^#?([a-f\d]{2}){3}$` with the `i` flag: an optional `#` and exactly six hex digits (no contract of its own) |
| RegexHex.DropHash | static/main.js:313 | a leading `#` is dropped, and otherwise the string is kept whole |
| RegexHex.HexToRgbRoundTrip | static/main.js:313-318 | `#rrggbb` and `rrggbb` of a colour both parse back to that colour |
| RegexHex.CaseInsensitive | static/main.js:313 | upper-casing a letter digit keeps the match and the parsed colour |
| RegexHex.RejectsOtherShapes | static/main.js:313-318 | a string whose length is neither 6 nor 7 gives black |
| RegexHex.RejectsNonDigit | static/main.js:313-318 | a non-hex character after the first position gives black |
| Scanline.Xs | js/script.js:339-342 | the x coordinates of the vertices, in order |
| Scanline.Ys | js/script.js:339-342 | the y coordinates of the vertices, in order |
| Scanline.Min | js/script.js:339-342 | `Math.min` of a non-empty list: an element no greater than any element |
| Scanline.Max | js/script.js:339-342 | `Math.max` of a non-empty list: an element no smaller than any element |
| Scanline.BoundingBox | js/script.js:339-342 | present exactly when there are vertices; every vertex lies strictly inside, and each of the four sides is one pixel beyond an extreme vertex |
| Scanline.CrossesRow | js/script.js:391 | the half-open test holds exactly when one endpoint is above row y and the other is not; a horizontal edge never crosses |
| Scanline.IntersectX | js/script.js:393 | the interpolated x lies between the edge's two x coordinates |
| Scanline.CrossingsUpTo | js/script.js:386-396 | at most one crossing per edge |
| Scanline.CrossingsWithinVertices | js/script.js:386-396 | every crossing lies between the smallest and largest vertex x |
| Scanline.CrossingParityPrefix | js/script.js:386-396 | after k edges the number of crossings is odd exactly when vertices 0 and k are on opposite sides of the row |
| Scanline.CrossingCountEven | js/script.js:386-396 | over the closed loop every row has an even number of crossings |
| Scanline.NoCrossingsOutsideVertices | js/script.js:386-396 | a row above every vertex, or at or below the lowest, has no crossings |
| Scanline.Crossings | js/script.js:383-396 | the `intersections` list of one row over the closed loop of edges (its properties are the CrossingsUpTo lemmas) |
| Scanline.Insert | js/script.js:399 | inserting into a sorted list keeps it sorted and adds exactly one element |
| Scanline.SortAsc | js/script.js:399 | the sort result is sorted ascending and a permutation of the input |
| Scanline.SortedPermutationIsUnique | js/script.js:399 | two sorted permutations of the same list are equal, so the order the sort produces is determined |
| Scanline.Floor | js/script.js:405 | the greatest integer not above the value |
| Scanline.Ceil | js/script.js:404 | the least integer not below the value |
| Scanline.PairSpans | js/script.js:402-411 | every recorded span is non-empty, at most one span per two crossings |
| Scanline.PairSpansCover | js/script.js:402-411 | an integer x is in a span exactly when some pair (2i, 2i+1) has `xs[2i] <= x <= xs[2i+1]`; a trailing odd crossing adds nothing |
| Scanline.PairSpansWithin | js/script.js:402-411 | when every crossing lies in [lo, hi], so does every filled x |
| Scanline.CountGreaterConcat | js/script.js:402-411 | the number of crossings right of x adds up over concatenation |
| Scanline.CountGreaterInsert | js/script.js:399 | inserting a crossing adds one to the count right of x exactly when it is right of x |
| Scanline.CountGreaterSort | js/script.js:399 | sorting does not change how many crossings lie right of x |
| Scanline.AllRightOf | js/script.js:402-411 | when all crossings lie right of x, all are counted and x is in no pair |
| Scanline.EvenOddPairing | js/script.js:402-411 | for an even sorted list not containing x, x lies between a pair exactly when an odd number of crossings lie right of it |
| Scanline.RowSpans | js/script.js:399-411 | the spans of one row: its crossings sorted and paired (no contract of its own) |
| Scanline.Covered | js/script.js:382-411 | a pixel is covered when its row is within the box and it lies in one of that row's spans (no contract of its own) |
| Scanline.SpansWithinVertices | js/script.js:382-411 | a filled x lies between the smallest and largest vertex x |
| Scanline.CoveredInsideBox | js/script.js:339-342 | every covered pixel lies strictly inside the padded box |
| Scanline.NoSpansOutsideVertices | js/script.js:382-411 | rows above every vertex, or at or below the lowest, get no spans |
| Scanline.SortTwo | js/script.js:399 | two crossings come out in ascending order |
| Scanline.PairTwo | js/script.js:402-411 | two crossings give the span `ceil(a)..floor(b)` when it is not empty, and nothing otherwise |
| Scanline.TriangleCrossings | js/script.js:386-396 | the triangle (0,0),(10,0),(5,10) crosses row 5 at 7.5 and 2.5, in edge order |
| Scanline.TriangleRowFive | js/script.js:382-411 | that triangle fills x = 3..7 on row 5 |
| Scanline.TriangleOuterRows | js/script.js:382-411 | that triangle fills nothing on rows below 0 or from 10 on |
| Scanline.TwoPointShapePaints | js/script.js:382-411 | the two-vertex polygon (5,0),(5,10) fills pixel x = 5 on row 3 |
| PointInShape.EdgeIntersects | static/main.js:130-131 | when the test holds the edge is not horizontal, so the division is by a non-zero value |
| PointInShape.Prev | static/main.js:126 | the partner vertex: the last for vertex 0, the previous one otherwise |
| PointInShape.IntersectCount | static/main.js:126-134 | at most one intersecting edge per vertex |
| PointInShape.IsPointInShape | static/main.js:123-137 | the loop's answer is "an odd number of the edges (i, i-1 cyclic) intersect" |
| PointInShape.Inside | static/main.js:124-136 | the even-odd answer: an odd number of intersecting edges (no contract of its own) |
| PointInShape.EmptyShapeContainsNothing | static/main.js:123-137 | an empty shape contains no point |
| PointInShape.NoIntersectionOutsideRows | static/main.js:124-137 | a line below every vertex, or at or above the highest, meets no edge |
| PointInShape.OutsideRowsAreOutside | static/main.js:124-137 | so a point on such a line is outside |
| PointInShape.EdgeAgreesWithCrossing | static/main.js:130-131 | the edge test is the scanline half-open crossing of the same edge, at the same x, lying right of the point |
| PointInShape.RightCrossing | static/main.js:130-131 | one edge contributes 0 or 1 crossing right of x |
| PointInShape.CountGreaterStep | static/main.js:124-137 | the scanline count right of x grows edge by edge |
| PointInShape.IntersectCountReindex | static/main.js:124-137 | the loop's edge pairing (i, i-1) is the scanline edge pairing (i, i+1) shifted by one |
| PointInShape.IntersectCountIsCrossingsRight | static/main.js:124-137 | the number of intersecting edges equals the number of scanline crossings of row y right of x |
| PointInShape.ScanlineAgreesWithPointInShape | static/main.js:123-137 | a pixel that is not itself a crossing is in a scanline span of its row exactly when isPointInShape reports it inside |
| Raster.PixelAt | js/script.js:270-276 | the colour of a pixel whose bytes are in the buffer, `undefined` otherwise |
| Raster.SimilarPixelSymmetric | js/script.js:270-290 | the tolerance test on possibly-undefined pixels is symmetric |
| Raster.LinCoords | js/script.js:248 | column and row are recovered from the index `y * width + x` when the column is in range |
| Raster.LinInRange | js/script.js:248 | a pixel on the canvas has an index below `width * height` |
| Raster.LinInjective | js/script.js:248 | two canvas pixels share an index only when they are the same pixel |
| Raster.AdjacentSymmetric | js/script.js:323 | 4-adjacency is symmetric |
| Raster.GrownFromAppend | js/script.js:320-323 | painting a neighbour of a painted pixel, or the seed first, keeps the paint order grown from the seed |
| Raster.GrownFromIsConnected | js/script.js:306-324 | every point of a paint order grown from the seed is joined to the seed by a 4-path inside the order |
| Raster.IndicesMember | js/script.js:297-303 | an index is painted exactly when some point of the paint order has it |
| Composite.FilledAlpha | js/script.js:414-416 | the temporary canvas' alpha is defined exactly for pixels inside the buffer |
| Composite.CompositeWrites | js/script.js:429-430 | the composite test on one index: not border-coloured in the snapshot and positive alpha on the temporary canvas (no contract of its own) |
| Composite.Hit | js/script.js:425-430 | an index the walk visits in the box and that passes the test (no contract of its own) |
| Composite.CompositeStart | js/script.js:425-437 | before the walk the canvas is unchanged |
| Composite.VisitedBeforeStep | js/script.js:426 | moving one pixel along the row adds exactly that pixel's index to the visited ones |
| Composite.VisitedBeforeRow | js/script.js:425-426 | the end of a row is the start of the next |
| Composite.VisitedBeforeEnd | js/script.js:425-426 | after the last row every pixel of the box has been visited |
| Composite.CompositeStep | js/script.js:427-435 | one visit writes `(fill, 255)` at its index exactly when that pixel passes the test |
| Composite.CompositeRow | js/script.js:425-437 | the state at the end of a row is the state at the start of the next |
| Composite.CompositeDone | js/script.js:425-437 | after the walk, exactly the hit pixels hold `(fill, 255)` and every other byte is unchanged |
| Composite.VisitedInCanvas | js/script.js:425-427 | for a box within the columns, a visited index is a pixel of the box |
| Composite.CompositeChanges | js/script.js:425-437 | a changed byte belongs to a visited pixel that is not border-coloured in the snapshot, and now holds its `(fill, 255)` byte |
| Composite.CompositeStaysInBox | js/script.js:425-437 | for a box within the columns, every changed byte belongs to a pixel of the padded box |
| Composite.CompositeBytes | js/script.js:430-435 | each of a pixel's four bytes is its `(fill, 255)` byte when the pixel is hit, and the old byte otherwise |
| Composite.CompositeHitPixel | js/script.js:430-435 | a hit pixel reads as the fill colour with alpha 255 |
| Composite.CompositeKeepsBorder | js/script.js:370-377 | a pixel border-coloured in the stroke snapshot keeps all four bytes |
| Composite.CoveredPasses | js/script.js:402-430 | a canvas pixel covered by a span and not border-coloured passes the test |
| Composite.CoveredHit | js/script.js:402-437 | such a pixel is hit, so the composite fills it |
| Composite.InsideHit | js/script.js:382-437 | a canvas pixel that the point-in-polygon test reports inside, is not a crossing and is not border-coloured is filled |
| Fill.EligibleIndices | js/script.js:306-324 | every pixel the fill may paint is counted in the termination measure |
| Fill.SeedTarget | js/script.js:248-251 | the seed colour is defined exactly when its linear index lies in the buffer, and then is the three bytes there |
| Fill.RepaintedPixel | js/script.js:297-303 | a painted pixel reads as the fill colour, every other pixel as before |
| Fill.RepaintedAdd | js/script.js:297-303 | painting one more pixel extends the painted set by exactly that pixel |
| Fill.Neighbours | js/script.js:323 | the four pushed points are exactly the 4-neighbours |
| Fill.FloodStart | js/script.js:262 | the invariant holds with only the seed on the stack |
| Fill.FloodDone | js/script.js:306 | an empty stack means the painted region cannot grow: the eligible seed and every eligible neighbour of a painted point are painted |
| Fill.FloodTest | js/script.js:315 | on the live buffer, the loop's colour test is "eligible and not yet painted" |
| Fill.FloodSkip | js/script.js:310-317 | popping an off-canvas, painted or ineligible point keeps the invariant |
| Fill.FloodPaintStack | js/script.js:323 | after painting, every point on the stack still touches the painted order |
| Fill.FloodPaintSettled | js/script.js:320-323 | after painting, every neighbour of a painted point is painted, on the stack or ineligible |
| Fill.FloodPaint | js/script.js:320-323 | painting the popped point and pushing its neighbours keeps the invariant |
| Fill.SeedSkipStep | js/script.js:310-317 | a skipping iteration keeps the loop invariant and the bytes |
| Fill.SeedPaintStep | js/script.js:320-323 | a painting iteration keeps the loop invariant and leaves one eligible pixel fewer unpainted |
| Fill.SeedLoopDone | js/script.js:306-324 | when the stack runs empty the loop invariant gives the result of the fill |
| Fill.SeedFillUnchangedWhenSimilar | js/script.js:248-256 | when the seed colour is already within tolerance of the fill colour the buffer is unchanged |
| Fill.SeedFillChanges | js/script.js:297-320 | every changed byte belongs to a painted on-canvas pixel that originally matched the target and not the border, and holds its `(fill, 255)` byte |
| Fill.SeedFillKeepsBorder | js/script.js:315-320 | a pixel border-coloured before the fill keeps all four bytes |
| Fill.ClosedContainsReachable | js/script.js:306-324 | a closed fill contains the end of every eligible 4-path from the seed |
| Fill.SeedFillReachesRegion | js/script.js:306-324 | after the fill every pixel joined to the seed by an eligible 4-path is painted |
| Fill.SeedFillRegionIsConnected | js/script.js:306-324 | every painted pixel is joined to the seed by an eligible 4-path |
| Fill.PaintedReadsFill | js/script.js:297-303 | a painted pixel reads as the fill colour |
| Fill.SeedFillIdempotent | js/script.js:240-331 | a second fill from the same seed with the same colours leaves the canvas as the first fill left it |
| Fill.SeedFillOffCanvasSeed | js/script.js:306-312 | a seed off the canvas paints nothing and leaves the canvas unchanged, whatever colour its index reads |
| Fill.SeedLeftOfCanvas | js/script.js:248-251 | on the 600-pixel-wide canvas seed (-1, 5) samples pixel (599, 4) |
| Fill.FillApp.constructor | js/script.js:155-178 | a 600 by 400 transparent-black canvas, the starting polygon and the given border colour |
| Fill.FillApp.ReadPixel | js/script.js:270-290 | the three colour bytes of a pixel in the buffer |
| Fill.FillApp.SetPixel | js/script.js:297-303 | the pixel's four bytes become `(fill, 255)` and every other byte is unchanged |
| Fill.FillApp.FloodStep | js/script.js:306-324 | one iteration keeps the loop invariant and either paints a pixel (fewer eligible unpainted) or shrinks the stack with nothing painted |
| Fill.FillApp.SeedFill | js/script.js:240-331 | the buffer is the original with exactly the pixels of the paint order set to `(fill, 255)`; those pixels were eligible and grow from the seed through 4-neighbours; none when the seed colour is already similar; otherwise the painted region is closed |
| Fill.FillApp.ScanlineFill | js/script.js:337-444 | the buffer is the original with exactly the box pixels that pass the composite test set to `(fill, 255)` |
| ServerImage.Lookup | static/main.js:217-220 | the colour-map entry when the key is present, `undefined` otherwise |
| ServerImage.PixelSample | static/main.js:217-235 | the sample of the cell at row `p / width`, column `p % width` (no contract of its own) |
| ServerImage.EntryRgba | static/main.js:222-235 | the entry "transparent" gives white with alpha 0; any other entry, or a missing one read as "undefined", gives `hexToRgb` of it with alpha 255; alpha is 0 only for "transparent" |
| ServerImage.HexEntryRoundTrip | static/main.js:228-234 | an entry `#rrggbb` decodes to that colour, opaque |
| ServerImage.MissingEntryIsOpaqueBlack | static/main.js:220-234 | an index missing from the colour map decodes as opaque black |
| ServerImage.Decoded | static/main.js:210-237 | the decoded buffer has `width * height * 4` bytes |
| ServerImage.DecodedAt | static/main.js:216-235 | byte c of pixel (x, y) lies in the buffer and is byte c of the sample of cell `image[y][x]` |
| ServerImage.DecodedKeepsRows | static/main.js:214-237 | decoding one more row keeps the bytes of the earlier rows |
| ServerImage.DecodedNewRow | static/main.js:215-236 | the bytes one more row appends are the samples of that row |
| ServerImage.WriteSample | static/main.js:222-235 | the four bytes at the pixel index become the sample and no other byte changes |
| ServerImage.DecodeRow | static/main.js:215-236 | the row's bytes become its samples; it fails exactly when the row is too short, and earlier rows are untouched |
| ServerImage.DrawServerImage | static/main.js:199-237 | the decoder succeeds exactly when both sizes are positive and every row exists and is wide enough, and then its buffer is the decoded image |
| ServerImage.DecodedPixel | static/main.js:214-237 | pixel (x, y) has the colour and alpha of the entry of `image[y][x]`, each pixel at index `(y * width + x) * 4` |
| ServerImage.DecodedAlpha | static/main.js:222-235 | every alpha byte is 0 or 255 |

## Left out

- Browser rendering (`CanvasManager`, every `ctx.*` call, `getImageData`, `putImageData`, `createTempCanvas`) is not modelled. The canvas bytes are the `pixels` array.
- The outline stroke on the temporary canvas (js/script.js:348-356) is not rasterised. `Fill.FillApp.ScanlineFill` takes the stroke-only snapshot as an input.
- The spans' `fillRect` calls (js/script.js:408) are represented by `Scanline.Covered`: a canvas pixel covered by a span becomes opaque on the temporary canvas.
- The redraw of the outline after each fill (js/script.js:330, 443) is not modelled.
- Fill.FillApp.constructor: the outline that `redraw` strokes onto the cleared canvas is not drawn; the constructor promises only the cleared, transparent-black buffer.
- DOM wiring, mode flags, the colour-picker handlers, the grid, the seed marker, status messages and timers are UI and are not modelled.
- `sendFillRequest`, the async fill requests and `server.py` are network code and are not modelled. The client posts to `/api/fill` (static/main.js:170), a route `server.py` does not define (it has `/api/seed_fill` and `/api/scan_line`, server.py:21-43, and neither returns an image), so `drawServerImage` is modelled on its own input.
- Fill and border colours enter `SeedFill` and `ScanlineFill` already parsed as bytes. The colour inputs give `#rrggbb`, for which `StrictHex.HexToRgbRoundTrip` gives those bytes. A NaN channel, which Uint8ClampedArray would store as 0, is not modelled.
- Intersection abscissas are exact reals, not IEEE doubles; double rounding in the formula of js/script.js:393 is not modelled.
- StrictHex.ParseIntHex: the value is an unbounded integer, while `parseInt` rounds a digit run worth more than 2^53 to the nearest double. The only caller, `hexToRgb`, parses slices of at most two characters, where the two agree.
- The crossing loop, the sort and the span loop of `scanlineFill` (js/script.js:382-412) are modelled by what they compute, as pure functions (`Scanline.Crossings`, `Scanline.SortAsc`, `Scanline.PairSpans`). The `intersections` array is not updated in place.
- `Array.prototype.sort` is modelled by its result, the ascending permutation (`Scanline.SortAsc`, an insertion sort).
- Seed coordinates are integers: the click handler floors them.
- An empty polygon makes the source throw at js/script.js:351 before anything is written. `Fill.FillApp.ScanlineFill` leaves the canvas unchanged in that case.
- `Fill.FillApp.SeedFill`: the stack of points is a `seq`, and the paint order it returns is ghost.
- `ServerImage.DrawServerImage`: the colour map is keyed by the integer cell value, where the source keys it by that value's string. Cells are integers. A missing `image`, `width`, `height` or `color_map` field is not modelled (for `color_map`, the lookup of static/main.js:220 throws and the `catch` swallows it, so nothing is drawn); nor are the console and status messages of the `catch`.
- `ServerImage.DrawServerImage` returns the decoded buffer instead of calling `putImageData`.
- ServerImage.DrawServerImage: `width` and `height` are natural numbers. A negative size, which `createImageData` takes by its magnitude and for which the loops write nothing, is not modelled.
- Strings are sequences of Unicode scalar values, while `slice` and the regular expression work on UTF-16 code units; the two differ only for characters outside the Basic Multilingual Plane, which the model does not distinguish.
