/**
  The decoded image: a flat pixel buffer plus its dimensions, in place of a
  System.Drawing.Bitmap, and the flat-index geometry every decoder shares.
  A 32-bit buffer holds each pixel as the four bytes B, G, R, A, rows top to
  bottom, pixels left to right, with no row padding.
 */
module Bitmaps {
  import opened Bytes

  /** The pixel layouts the decoders create. */
  datatype Layout = Argb32 | Rgb565

  /** System.Drawing.Color as the decoders use it. */
  datatype Color = Color(a: byte, r: byte, g: byte, b: byte)

  /**
    What ParsePng leaves in `png`. Format 3 is kept at the level of its per-tile
    values (`TileGrid`, one 4-byte B,G,R,A value per 4x4 tile in raster order);
    their placement into rows is not part of this model.
   */
  datatype Image =
    | Bitmap(width: int, height: int, layout: Layout, pixels: seq<byte>)
    | TileGrid(width: int, height: int, tiles: seq<seq<byte>>)

  function BytesPerPixel(l: Layout): nat
  {
    match l
    case Argb32 => 4
    case Rgb565 => 2
  }

  /** A bitmap whose buffer has exactly one entry per pixel. */
  predicate WellFormed(img: Image)
  {
    img.Bitmap? && img.width > 0 && img.height > 0
    && |img.pixels| == img.width * img.height * BytesPerPixel(img.layout)
  }

  /** The four bytes SetPixel stores for a colour with the given alpha. */
  function PixelBytes(c: Color, alpha: byte): (r: seq<byte>)
    ensures |r| == 4 && r[3] == alpha
    ensures r[0] == c.b && r[1] == c.g && r[2] == c.r
  {
    [c.b, c.g, c.r, alpha]
  }

  /** The four bytes of pixel (x, y) of a 32-bit buffer `width` pixels wide. */
  function PixelAt(pixels: seq<byte>, width: int, x: int, y: int): seq<byte>
  {
    var o := (y * width + x) * 4;
    if 0 <= o && o + 4 <= |pixels| then [pixels[o], pixels[o + 1], pixels[o + 2], pixels[o + 3]]
    else []
  }

  /** An in-range pixel whose four buffer bytes are those of `t` reads as `t`. */
  lemma PixelAtBytes(pixels: seq<byte>, width: int, x: int, y: int, t: seq<byte>)
    requires 0 <= (y * width + x) * 4 && (y * width + x) * 4 + 4 <= |pixels| && |t| == 4
    requires forall c :: 0 <= c < 4 ==> pixels[(y * width + x) * 4 + c] == t[c]
    ensures PixelAt(pixels, width, x, y) == t
  {
    var o := (y * width + x) * 4;
    assert pixels[o + 0] == t[0];
    assert pixels[o + 1] == t[1];
    assert pixels[o + 2] == t[2];
    assert pixels[o + 3] == t[3];
  }

  /**
    Store one pixel: the DXT helper SetPixel, and equally Bitmap.SetPixel on a
    32-bit bitmap. Neither clips: the caller keeps (x, y) inside the buffer.
    The pixel then holds the colour's bytes; no other pixel of a
    `width * height` image changes.
   */
  method SetPixel(pixels: seq<byte>, x: int, y: int, width: int, height: int, c: Color, alpha: byte)
    returns (r: seq<byte>)
    requires |pixels| == width * height * 4 && 0 <= x < width && 0 <= y < height
    ensures |r| == |pixels|
    ensures PixelAt(r, width, x, y) == PixelBytes(c, alpha)
    ensures forall px, py :: 0 <= px < width && 0 <= py < height && (px != x || py != y) ==>
      PixelAt(r, width, px, py) == PixelAt(pixels, width, px, py)
  {
    PixelIndexBounds(x, y, width, height);
    var o := (y * width + x) * 4;
    r := pixels[o := c.b][o + 1 := c.g][o + 2 := c.r][o + 3 := alpha];
    forall px, py | 0 <= px < width && 0 <= py < height && (px != x || py != y)
      ensures PixelAt(r, width, px, py) == PixelAt(pixels, width, px, py)
    {
      PixelIndexInjective(px, py, x, y, width);
      PixelIndexBounds(px, py, width, height);
    }
  }

  /** Every pixel of a zero-filled buffer is four zero bytes. */
  lemma ZerosPixel(width: int, height: int, x: int, y: int)
    requires 0 <= x < width && 0 <= y < height
    ensures PixelAt(Zeros(width * height * 4), width, x, y) == Zeros(4)
  {
    PixelIndexBounds(x, y, width, height);
    PixelAtBytes(Zeros(width * height * 4), width, x, y, Zeros(4));
  }

  /** Row-major indices of in-range pixels lie inside the image. */
  lemma PixelIndexBounds(x: int, y: int, width: int, height: int)
    requires 0 <= x < width && 0 <= y < height
    ensures 0 <= y * width + x < width * height
  {
    assert y * width <= (height - 1) * width;
  }

  /** Rows come in order: every pixel of an earlier row has a smaller index. */
  lemma RowOrder(x: int, y: int, x': int, y': int, width: int)
    requires 0 <= x < width && 0 <= x' < width
    ensures y < y' ==> y * width + x < y' * width + x'
  {
    if y < y' {
      assert (y + 1) * width <= y' * width;
    }
  }

  /** Distinct in-range pixels have distinct row-major indices. */
  lemma PixelIndexInjective(x: int, y: int, x': int, y': int, width: int)
    requires 0 <= x < width && 0 <= x' < width
    requires x != x' || y != y'
    ensures y * width + x != y' * width + x'
  {
    RowOrder(x, y, x', y', width);
    RowOrder(x', y', x, y, width);
  }

  /** A row-major index names the pixel at its column and row. */
  lemma IndexCoordinates(x: int, y: int, width: int)
    requires 0 <= x < width && 0 <= y
    ensures (y * width + x) / width == y && (y * width + x) % width == x
  {
    var p := y * width + x;
    var q, m := p / width, p % width;
    assert p == q * width + m;
    RowOrder(x, y, m, q, width);
    RowOrder(m, q, x, y, width);
  }

  /** Every byte index of a `width * height * 4` buffer lies in one in-range pixel. */
  lemma FlatCoordinates(k: int, width: int, height: int)
    requires 0 <= k < width * height * 4 && width >= 0 && height >= 0
    ensures width > 0
    ensures 0 <= (k / 4) / width < height && 0 <= (k / 4) % width < width
    ensures k == ((k / 4) / width * width + (k / 4) % width) * 4 + k % 4
  {
  }

  /** `f` gives four bytes for every in-range pixel. */
  ghost predicate PixelFunction(width: int, height: int, f: (int, int) -> seq<byte>)
  {
    forall x, y :: 0 <= x < width && 0 <= y < height ==> |f(x, y)| == 4
  }

  /** The 32-bit buffer whose pixel (x, y) holds the four bytes f(x, y). */
  function Raster(width: int, height: int, f: (int, int) -> seq<byte>): (r: seq<byte>)
    requires width >= 0 && height >= 0 && PixelFunction(width, height, f)
    ensures |r| == width * height * 4
  {
    seq(width * height * 4, k requires 0 <= k < width * height * 4 =>
      FlatCoordinates(k, width, height);
      f((k / 4) % width, (k / 4) / width)[k % 4])
  }

  /** Each pixel of a raster is the value the pixel function gives it. */
  lemma RasterPixel(width: int, height: int, f: (int, int) -> seq<byte>, x: int, y: int)
    requires width >= 0 && height >= 0 && PixelFunction(width, height, f)
    requires 0 <= x < width && 0 <= y < height
    ensures PixelAt(Raster(width, height, f), width, x, y) == f(x, y)
  {
    var r := Raster(width, height, f);
    var o := (y * width + x) * 4;
    assert 0 <= o && o + 4 <= |r| by {
      PixelIndexBounds(x, y, width, height);
    }
    forall c | 0 <= c < 4
      ensures r[o + c] == f(x, y)[c]
    {
      assert (o + c) / 4 == y * width + x && (o + c) % 4 == c;
      IndexCoordinates(x, y, width);
    }
    PixelAtBytes(r, width, x, y, f(x, y));
  }

  /** Two buffers of one size that agree on every pixel are equal. */
  lemma PixelsDetermine(a: seq<byte>, b: seq<byte>, width: int, height: int)
    requires width >= 0 && height >= 0 && |a| == |b| == width * height * 4
    requires forall x, y :: 0 <= x < width && 0 <= y < height ==> PixelAt(a, width, x, y) == PixelAt(b, width, x, y)
    ensures a == b
  {
    forall k | 0 <= k < |a|
      ensures a[k] == b[k]
    {
      FlatCoordinates(k, width, height);
      var x, y := (k / 4) % width, (k / 4) / width;
      assert PixelAt(a, width, x, y) == PixelAt(b, width, x, y);
    }
  }
}
