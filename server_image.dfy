/**
 * The decoder of a palette image sent by a server (drawServerImage, static/main.js:199-237):
 * each cell of `image` is an index into `color_map`, whose entries are hex colours or the
 * word "transparent"; the decoder writes one RGBA pixel per cell into a fresh buffer of
 * width * height * 4 bytes. Any exception inside the loop is caught by the surrounding
 * `try`, and then nothing is drawn: that outcome is `None`.
 */
module ServerImage {
  import opened Types
  import opened Color
  import opened Raster
  import RegexHex

  /** An RGBA sample as written into the buffer. */
  datatype Rgba = Rgba(color: Rgb, alpha: Byte)

  /** The colour-map entry for an index; `None` is the `undefined` of a missing key. */
  function Lookup(colorMap: map<int, string>, index: int): (e: Option<string>)
    ensures e.Some? <==> index in colorMap
    ensures e.Some? ==> e.value == colorMap[index]
  {
    if index in colorMap then Some(colorMap[index]) else None
  }

  /**
   * The sample for a colour-map entry: "transparent" is white with alpha 0, anything else
   * goes through hexToRgb (a missing entry is the string "undefined" there) with alpha 255.
   */
  function EntryRgba(e: Option<string>): (px: Rgba)
    ensures px.alpha == 0 <==> e == Some("transparent")
    ensures e == Some("transparent") ==> px == Rgba(Rgb(255, 255, 255), 0)
    ensures e != Some("transparent") ==>
      px.alpha == 255 && px.color == RegexHex.HexToRgb(if e.Some? then e.value else "undefined")
  {
    if e == Some("transparent") then Rgba(Rgb(255, 255, 255), 0)
    else Rgba(RegexHex.HexToRgb(if e.Some? then e.value else "undefined"), 255)
  }

  /** Byte c (0 red, 1 green, 2 blue, 3 alpha) of a sample. */
  function SampleByte(px: Rgba, c: int): Byte
  {
    if c == 0 then px.color.r else if c == 1 then px.color.g else if c == 2 then px.color.b else px.alpha
  }

  /** Every row the loop visits exists and is at least `width` cells long. */
  predicate Shaped(image: seq<seq<int>>, width: nat, height: nat)
  {
    height <= |image| && forall y :: 0 <= y < height ==> width <= |image[y]|
  }

  /** A colour written as `#rrggbb` comes back as itself, opaque. */
  lemma HexEntryRoundTrip(c: Rgb)
    ensures EntryRgba(Some(ToHex(c))) == Rgba(c, 255)
  {
    RegexHex.HexToRgbRoundTrip(c);
    assert |ToHex(c)| != |"transparent"|;
  }

  /** An index missing from the colour map decodes as opaque black. */
  lemma MissingEntryIsOpaqueBlack(colorMap: map<int, string>, index: int)
    requires index !in colorMap
    ensures EntryRgba(Lookup(colorMap, index)) == Rgba(RegexHex.Black, 255)
  {
    RegexHex.RejectsOtherShapes("undefined");
  }

  /** A pixel index below width * height names a cell of the image. */
  lemma CellOfPixel(width: nat, height: nat, p: int)
    requires 0 <= p < width * height
    ensures 0 <= p / width < height && 0 <= p % width < width
  {
    var y := p / width;
    assert p == y * width + p % width;
    if y >= height {
      MulLe(height, y, width);
    }
  }

  /** The sample the image gives to pixel index p: row p / width, column p % width. */
  function PixelSample(image: seq<seq<int>>, colorMap: map<int, string>, width: nat, p: int): Rgba
    requires 0 < width && 0 <= p && p / width < |image| && p % width < |image[p / width]|
  {
    EntryRgba(Lookup(colorMap, image[p / width][p % width]))
  }

  /** The first `height` rows decoded, byte by byte. */
  function Decoded(image: seq<seq<int>>, colorMap: map<int, string>, width: nat, height: nat): (s: seq<Byte>)
    requires 0 < width && Shaped(image, width, height)
    ensures |s| == width * height * 4
  {
    seq(width * height * 4, i requires 0 <= i < width * height * 4 =>
      CellOfPixel(width, height, i / 4);
      SampleByte(PixelSample(image, colorMap, width, i / 4), i % 4))
  }

  /** Byte c of pixel (x, y) of the decoded buffer is byte c of the sample of cell image[y][x]. */
  lemma DecodedAt(image: seq<seq<int>>, colorMap: map<int, string>, width: nat, height: nat, x: int, y: int, c: int)
    requires 0 < width && Shaped(image, width, height) && 0 <= x < width && 0 <= y < height && 0 <= c < 4
    ensures 0 <= Lin(width, x, y) * 4 + c < width * height * 4
    ensures Decoded(image, colorMap, width, height)[Lin(width, x, y) * 4 + c] ==
            SampleByte(EntryRgba(Lookup(colorMap, image[y][x])), c)
  {
    var p := Lin(width, x, y);
    LinInRange(width, height, x, y);
    MulLe(p + 1, width * height, 4);
    ByteOfPixel(p, c);
    assert p * 4 + c == 4 * p + c;
    LinCoords(width, x, y);
  }

  /** Decoding one more row keeps the bytes of the earlier rows. */
  lemma DecodedKeepsRows(image: seq<seq<int>>, colorMap: map<int, string>, width: nat, y: nat)
    requires 0 < width && Shaped(image, width, y + 1)
    ensures forall i :: 0 <= i < width * y * 4 ==>
      Decoded(image, colorMap, width, y + 1)[i] == Decoded(image, colorMap, width, y)[i]
  {
    MulLe(y, y + 1, width);
  }

  /** The bytes that one more decoded row appends are the samples of row y. */
  lemma DecodedNewRow(image: seq<seq<int>>, colorMap: map<int, string>, width: nat, y: nat)
    requires 0 < width && Shaped(image, width, y + 1)
    ensures forall col, c :: 0 <= col < width && 0 <= c < 4 ==>
      Decoded(image, colorMap, width, y + 1)[width * y * 4 + 4 * col + c] ==
      SampleByte(EntryRgba(Lookup(colorMap, image[y][col])), c)
  {
    forall col, c | 0 <= col < width && 0 <= c < 4
      ensures Decoded(image, colorMap, width, y + 1)[width * y * 4 + 4 * col + c] ==
              SampleByte(EntryRgba(Lookup(colorMap, image[y][col])), c)
    {
      DecodedAt(image, colorMap, width, y + 1, col, y, c);
      assert Lin(width, col, y) * 4 + c == width * y * 4 + 4 * col + c;
    }
  }

  /** The body of the inner loop: the four bytes of one pixel from its colour-map entry. */
  method WriteSample(pixels: array<Byte>, pixelIndex: int, color: Option<string>)
    requires 0 <= pixelIndex && pixelIndex + 3 < pixels.Length
    modifies pixels
    ensures forall i :: 0 <= i < pixels.Length && (i < pixelIndex || pixelIndex + 4 <= i) ==> pixels[i] == old(pixels[i])
    ensures forall c :: 0 <= c < 4 ==> pixels[pixelIndex + c] == SampleByte(EntryRgba(color), c)
  {
    if color == Some("transparent") {
      pixels[pixelIndex] := 255;
      pixels[pixelIndex + 1] := 255;
      pixels[pixelIndex + 2] := 255;
      pixels[pixelIndex + 3] := 0;
    } else {
      var rgb := RegexHex.HexToRgb(if color.Some? then color.value else "undefined");
      pixels[pixelIndex] := rgb.r;
      pixels[pixelIndex + 1] := rgb.g;
      pixels[pixelIndex + 2] := rgb.b;
      pixels[pixelIndex + 3] := 255;
    }
  }

  /** The byte index of pixel (x, y) is x pixels past the start of row y. */
  lemma RowIndex(width: nat, y: nat, x: int)
    ensures (y * width + x) * 4 == width * y * 4 + 4 * x
  {
  }

  /**
   * The inner loop of static/main.js:215-236 over row y, whose bytes start at rowStart.
   * It stops with `false` at the first missing cell, where `image[y][x].toString()` throws.
   */
  method DecodeRow(pixels: array<Byte>, row: seq<int>, colorMap: map<int, string>, width: nat, y: nat, ghost rowStart: int)
    returns (ok: bool)
    requires rowStart == width * y * 4 && rowStart + 4 * width <= pixels.Length
    modifies pixels
    ensures ok <==> width <= |row|
    ensures forall i :: 0 <= i < rowStart ==> pixels[i] == old(pixels[i])
    ensures ok ==> forall col, c :: 0 <= col < width && 0 <= c < 4 ==>
      pixels[rowStart + 4 * col + c] == SampleByte(EntryRgba(Lookup(colorMap, row[col])), c)
  {
    var x := 0;
    while x < width
      invariant 0 <= x <= width && x <= |row|
      invariant forall i :: 0 <= i < rowStart ==> pixels[i] == old(pixels[i])
      invariant forall col, c :: 0 <= col < x && 0 <= c < 4 ==>
        pixels[rowStart + 4 * col + c] == SampleByte(EntryRgba(Lookup(colorMap, row[col])), c)
    {
      if x >= |row| {
        return false;
      }
      var pixelIndex := (y * width + x) * 4;
      RowIndex(width, y, x);
      var color := Lookup(colorMap, row[x]);
      WriteSample(pixels, pixelIndex, color);
      x := x + 1;
    }
    return true;
  }

  /**
   * The loop of static/main.js:214-237. A missing row or cell makes `image[y][x].toString()`
   * throw and a zero dimension makes createImageData throw; both end in `None`.
   */
  method DrawServerImage(image: seq<seq<int>>, colorMap: map<int, string>, width: nat, height: nat)
    returns (r: Option<seq<Byte>>)
    ensures r.Some? <==> 0 < width && 0 < height && Shaped(image, width, height)
    ensures r.Some? ==> r.value == Decoded(image, colorMap, width, height)
  {
    if width == 0 || height == 0 {
      return None;
    }
    var pixels := new Byte[width * height * 4];
    var y := 0;
    while y < height
      invariant 0 <= y <= height && pixels.Length == width * height * 4
      invariant Shaped(image, width, y)
      invariant forall i :: 0 <= i < width * y * 4 ==> pixels[i] == Decoded(image, colorMap, width, y)[i]
    {
      if y >= |image| {
        return None;
      }
      ghost var rowStart := width * y * 4;
      MulLe(y + 1, height, width);
      assert rowStart + 4 * width == width * (y + 1) * 4 <= pixels.Length;
      var ok := DecodeRow(pixels, image[y], colorMap, width, y, rowStart);
      if !ok {
        return None;
      }
      DecodedKeepsRows(image, colorMap, width, y);
      DecodedNewRow(image, colorMap, width, y);
      ghost var next := Decoded(image, colorMap, width, y + 1);
      forall i | 0 <= i < rowStart + 4 * width ensures pixels[i] == next[i] {
        if i >= rowStart {
          var col, c := (i - rowStart) / 4, (i - rowStart) % 4;
          assert i == rowStart + 4 * col + c;
          assert 0 <= col < width && 0 <= c < 4;
          assert pixels[rowStart + 4 * col + c] == SampleByte(EntryRgba(Lookup(colorMap, image[y][col])), c);
          assert next[width * y * 4 + 4 * col + c] == SampleByte(EntryRgba(Lookup(colorMap, image[y][col])), c);
        }
      }
      y := y + 1;
    }
    r := Some(pixels[..]);
  }

  // ---------------------------------------------------------------- what the decoded buffer holds

  /** Pixel (x, y) of the decoded buffer has the colour and the alpha of the entry of image[y][x]. */
  lemma DecodedPixel(image: seq<seq<int>>, colorMap: map<int, string>, width: nat, height: nat, x: int, y: int)
    requires 0 < width && Shaped(image, width, height) && 0 <= x < width && 0 <= y < height
    ensures PixelAt(Decoded(image, colorMap, width, height), Lin(width, x, y)) ==
            Some(EntryRgba(Lookup(colorMap, image[y][x])).color)
    ensures Decoded(image, colorMap, width, height)[Lin(width, x, y) * 4 + 3] ==
            EntryRgba(Lookup(colorMap, image[y][x])).alpha
  {
    var d := Decoded(image, colorMap, width, height);
    var p := Lin(width, x, y);
    DecodedAt(image, colorMap, width, height, x, y, 0);
    DecodedAt(image, colorMap, width, height, x, y, 1);
    DecodedAt(image, colorMap, width, height, x, y, 2);
    DecodedAt(image, colorMap, width, height, x, y, 3);
    assert p * 4 == 4 * p;
    PixelOfBytes(d, p, EntryRgba(Lookup(colorMap, image[y][x])).color);
  }

  /** Every alpha byte of the decoded buffer is 0 (a "transparent" entry) or 255. */
  lemma DecodedAlpha(image: seq<seq<int>>, colorMap: map<int, string>, width: nat, height: nat, i: int)
    requires 0 < width && Shaped(image, width, height)
    requires 0 <= i < width * height * 4 && i % 4 == 3
    ensures Decoded(image, colorMap, width, height)[i] == 0 || Decoded(image, colorMap, width, height)[i] == 255
  {
  }
}
