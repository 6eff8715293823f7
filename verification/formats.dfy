/**
  The per-format pixel decoders of ParsePng, selected by the sum
  `format + format2`, and the dispatch between them. Each decoder reads a
  fixed number of bytes from the inflated stream into a fresh buffer and
  turns them into a bitmap; DEFLATE itself is a parameter.
 */
module PixelFormats {
  import opened Bytes
  import opened Bitmaps
  import Dxt

  // ---------------------------------------------------------------------------
  // Reading the inflated stream

  /**
    The buffer `zlib.Read(decBuf, 0, n)` leaves in a fresh n-byte array: the
    inflated bytes, and zeros past their end (a short read is not an error).
   */
  function ReadFill(data: seq<byte>, n: nat): (r: seq<byte>)
    ensures |r| == n
    ensures forall k :: 0 <= k < n && k < |data| ==> r[k] == data[k]
    ensures forall k :: |data| <= k < n ==> r[k] == 0
  {
    if n <= |data| then data[..n] else data + Zeros(n - |data|)
  }

  /** Reading exactly as many bytes as were inflated gives them back, whatever follows them. */
  lemma ReadFillPrefix(data: seq<byte>, extra: seq<byte>)
    ensures ReadFill(data + extra, |data|) == data
  {
  }

  // ---------------------------------------------------------------------------
  // Format 1: 16-bit ARGB4444

  /**
    Format 1: every inflated byte becomes two output bytes, its low nibble
    and then its high nibble, each widened to 8 bits by copying it into both
    halves (b | b << 4, g | g >> 4).
   */
  function DecodeArgb4444(dec: seq<byte>): (r: seq<byte>)
    ensures |r| == 2 * |dec|
    ensures forall i :: 0 <= i < |dec| ==> r[2 * i] == (dec[i] % 16) * 17 && r[2 * i + 1] == (dec[i] / 16) * 17
  {
    if dec == [] then []
    else
      var rest := DecodeArgb4444(dec[1..]);
      var r := [Dxt.Replicate4(dec[0] % 16), Dxt.Replicate4(dec[0] / 16)] + rest;
      forall i | 1 <= i < |dec|
        ensures r[2 * i] == (dec[i] % 16) * 17 && r[2 * i + 1] == (dec[i] / 16) * 17
      {
        assert dec[1..][i - 1] == dec[i];
        assert r[2 * i] == rest[2 * (i - 1)] && r[2 * i + 1] == rest[2 * (i - 1) + 1];
      }
      r
  }

  /** Pack pairs of widened nibbles back into bytes, low nibble from the first of each pair. */
  function EncodeArgb4444(r: seq<byte>): (dec: seq<byte>)
    requires |r| % 2 == 0
    ensures |dec| == |r| / 2
  {
    if r == [] then [] else [r[0] % 16 + 16 * (r[1] % 16)] + EncodeArgb4444(r[2..])
  }

  /** No information is lost: packing the decoded nibbles gives back the inflated bytes. */
  lemma {:induction false} Argb4444RoundTrip(dec: seq<byte>)
    ensures EncodeArgb4444(DecodeArgb4444(dec)) == dec
  {
    if dec != [] {
      var b := dec[0];
      var r := DecodeArgb4444(dec);
      DivMod(r[0], 16, b % 16, b % 16);
      DivMod(r[1], 16, b / 16, b / 16);
      DivMod(b, 16, b / 16, b % 16);
      assert r[2..] == DecodeArgb4444(dec[1..]);
      Argb4444RoundTrip(dec[1..]);
    }
  }

  // ---------------------------------------------------------------------------
  // Format 3: one ARGB4444 value per 4x4 tile

  /**
    The tile value format 3 computes from the two bytes d0, d1 of a tile,
    as the bytes B, G, R, A of the 32-bit pixel `p`. The alpha byte takes its
    high nibble from d1 but its low nibble from d0.
   */
  function Tile3AsWritten(d0: byte, d1: byte): (t: seq<byte>)
    ensures |t| == 4 && t[..3] == Tile3(d0, d1)[..3]
    ensures t[3] / 16 == d1 / 16 && t[3] % 16 == d0 / 16
  {
    var a := (d1 / 16) * 16 + d0 / 16;
    DivMod(a, 16, d1 / 16, d0 / 16);
    [(d0 % 16) * 17, (d0 / 16) * 17, (d1 % 16) * 17, a]
  }

  /** The tile value with the alpha nibble replicated from d1, as for the other three channels. */
  function Tile3(d0: byte, d1: byte): (t: seq<byte>)
    ensures |t| == 4
  {
    [(d0 % 16) * 17, (d0 / 16) * 17, (d1 % 16) * 17, (d1 / 16) * 17]
  }

  /** A format-3 tile is one ARGB4444 pixel: exactly what format 1 makes of the same two bytes. */
  lemma Tile3IsArgb4444(d0: byte, d1: byte)
    ensures Tile3(d0, d1) == DecodeArgb4444([d0, d1])
  {
    var r := DecodeArgb4444([d0, d1]);
    assert r[0] == (d0 % 16) * 17 && r[1] == (d0 / 16) * 17;
    assert r[2] == (d1 % 16) * 17 && r[3] == (d1 / 16) * 17;
  }

  /** The tile value as written agrees with the ARGB4444 reading exactly when both bytes have the same high nibble. */
  lemma Tile3AlphaDefect(d0: byte, d1: byte)
    ensures Tile3AsWritten(d0, d1) == Tile3(d0, d1) <==> d0 / 16 == d1 / 16
  {
    if Tile3AsWritten(d0, d1) == Tile3(d0, d1) {
      assert Tile3AsWritten(d0, d1)[3] == Tile3(d0, d1)[3];
    }
  }

  /** A fully opaque tile of colour 0 whose first byte has a zero high nibble comes out with alpha 0xF0. */
  lemma Tile3AlphaExample()
    ensures Tile3AsWritten(0x00, 0xF0)[3] == 0xF0
    ensures Tile3(0x00, 0xF0)[3] == 0xFF
  {
  }

  /** Rounding up to whole tiles, Math.Ceiling(v / 4.0) on an int. */
  function CeilQuarter(v: int): (q: int)
    ensures 4 * q - 4 < v <= 4 * q
  {
    if v >= 0 then (v + 3) / 4 else -((-v) / 4)
  }

  /**
    The values of `count` tiles in raster order, two inflated bytes per tile,
    as the code computes them: tile t has the blue, green and red that format 1
    makes of bytes 2t and 2t + 1, and an alpha whose high nibble is the high
    nibble of byte 2t + 1 and whose low nibble is the high nibble of byte 2t.
   */
  function Tiles3(dec: seq<byte>, count: nat): (tiles: seq<seq<byte>>)
    requires |dec| == 2 * count
    ensures |tiles| == count
    ensures forall t :: 0 <= t < count ==>
      |tiles[t]| == 4 && tiles[t][..3] == DecodeArgb4444(dec)[4 * t .. 4 * t + 3]
      && tiles[t][3] == (dec[2 * t + 1] / 16) * 16 + dec[2 * t] / 16
  {
    var tiles := seq(count, t requires 0 <= t < count => Tile3AsWritten(dec[2 * t], dec[2 * t + 1]));
    forall t | 0 <= t < count
      ensures |tiles[t]| == 4 && tiles[t][..3] == DecodeArgb4444(dec)[4 * t .. 4 * t + 3]
      ensures tiles[t][3] == (dec[2 * t + 1] / 16) * 16 + dec[2 * t] / 16
    {
      Tile3Channels(dec, t);
    }
    tiles
  }

  /** Three consecutive elements of a sequence, as a slice. */
  lemma Slice3(r: seq<byte>, k: nat)
    requires k + 3 <= |r|
    ensures r[k .. k + 3] == [r[k], r[k + 1], r[k + 2]]
  {
  }

  /** Format 1's colour bytes for the pair of inflated bytes 2t and 2t + 1. */
  lemma Argb4444Pair(dec: seq<byte>, t: nat)
    requires 2 * t + 1 < |dec|
    ensures DecodeArgb4444(dec)[4 * t .. 4 * t + 3]
      == [(dec[2 * t] % 16) * 17, (dec[2 * t] / 16) * 17, (dec[2 * t + 1] % 16) * 17]
  {
    NibblePair(DecodeArgb4444(dec), dec, t);
  }

  /** The pair step of Argb4444Pair, for any sequence with DecodeArgb4444's closed form. */
  lemma NibblePair(r: seq<byte>, dec: seq<byte>, t: nat)
    requires 2 * t + 1 < |dec| && |r| == 2 * |dec|
    requires forall i :: 0 <= i < |dec| ==> r[2 * i] == (dec[i] % 16) * 17 && r[2 * i + 1] == (dec[i] / 16) * 17
    ensures r[4 * t .. 4 * t + 3] == [(dec[2 * t] % 16) * 17, (dec[2 * t] / 16) * 17, (dec[2 * t + 1] % 16) * 17]
  {
    var k := 4 * t;
    assert r[k] == (dec[2 * t] % 16) * 17 && r[k + 1] == (dec[2 * t] / 16) * 17 by {
      assert k == 2 * (2 * t);
    }
    assert r[k + 2] == (dec[2 * t + 1] % 16) * 17 by {
      assert k + 2 == 2 * (2 * t + 1);
    }
    Slice3(r, k);
  }

  /** Tile t as written: format 1's colour for bytes 2t and 2t + 1, with the nibble-mixed alpha. */
  lemma Tile3Channels(dec: seq<byte>, t: nat)
    requires 2 * t + 1 < |dec|
    ensures var a := Tile3AsWritten(dec[2 * t], dec[2 * t + 1]);
      a[..3] == DecodeArgb4444(dec)[4 * t .. 4 * t + 3]
      && a[3] == (dec[2 * t + 1] / 16) * 16 + dec[2 * t] / 16
  {
    Argb4444Pair(dec, t);
    Tile3AsWrittenColour(dec[2 * t], dec[2 * t + 1]);
  }

  /** The blue, green and red bytes of a format-3 tile as written, and its alpha as a sum of nibbles. */
  lemma Tile3AsWrittenColour(d0: byte, d1: byte)
    ensures Tile3AsWritten(d0, d1)[..3] == [(d0 % 16) * 17, (d0 / 16) * 17, (d1 % 16) * 17]
    ensures Tile3AsWritten(d0, d1)[3] == (d1 / 16) * 16 + d0 / 16
  {
    var a := Tile3AsWritten(d0, d1);
    assert a[..3] == Tile3(d0, d1)[..3];
    DivMod(a[3], 16, d1 / 16, d0 / 16);
  }

  /**
    The index into `argb2` (width * height ints) at which the format-3 loop
    writes column k of tile (j, i). The column and row counters the loop
    tests are never advanced from 0, so every tile row lands 4 * width apart
    and column k is written for k < min(4, width).
   */
  function Tile3WriteIndex(width: int, i: int, j: int, k: int): int
  {
    4 * j + 4 * (i * width) + k
  }

  /** The number of columns the format-3 loop writes for each tile, min(4, width). */
  function Tile3Columns(width: int): int
  {
    if width < 4 then width else 4
  }

  /**
    The format-3 loop writes past `argb2`: its last write, column
    min(4, width) - 1 of the last tile, is at or beyond width * height.
   */
  predicate Tile3Overruns(width: int, height: int)
  {
    Tile3WriteIndex(width, CeilQuarter(height) - 1, CeilQuarter(width) - 1, Tile3Columns(width) - 1) >= width * height
  }

  /** No write of the format-3 loop lies beyond its last one, so the last write decides whether any overruns. */
  lemma Tile3LastWriteIsLargest(width: int, height: int, i: int, j: int, k: int)
    requires width > 0 && height > 0
    requires 0 <= i < CeilQuarter(height) && 0 <= j < CeilQuarter(width) && 0 <= k < Tile3Columns(width)
    ensures 0 <= Tile3WriteIndex(width, i, j, k)
    ensures Tile3WriteIndex(width, i, j, k) <= Tile3WriteIndex(width, CeilQuarter(height) - 1, CeilQuarter(width) - 1, Tile3Columns(width) - 1)
  {
    MulLe(i, CeilQuarter(height) - 1, width);
  }

  /**
    The format-3 loop overruns exactly when the height leaves one row in its
    last tile row and the width is more than 4 but not a multiple of 4.
   */
  lemma Tile3OverrunsIff(width: int, height: int)
    requires width > 0 && height > 0
    ensures Tile3Overruns(width, height) <==> height % 4 == 1 && width > 4 && width % 4 != 0
  {
    var s, t := LastTileSpan(width), LastTileSpan(height);
    LastWriteOffset(width, height);
    OverrunArithmetic(width, s, t);
  }

  /** The last write of the format-3 loop, measured from the end of `argb2`. */
  lemma LastWriteOffset(width: int, height: int)
    requires width > 0 && height > 0
    ensures Tile3WriteIndex(width, CeilQuarter(height) - 1, CeilQuarter(width) - 1, Tile3Columns(width) - 1) - width * height
      == width - LastTileSpan(width) + Tile3Columns(width) - 1 - LastTileSpan(height) * width
  {
    var h, t := CeilQuarter(height), LastTileSpan(height);
    assert width * height == 4 * ((h - 1) * width) + t * width by {
      assert height == 4 * (h - 1) + t;
      MulSplit(width, h - 1, t);
    }
  }

  /** a (4b + t) = 4 (b a) + t a. */
  lemma MulSplit(a: int, b: int, t: int)
    ensures a * (4 * b + t) == 4 * (b * a) + t * a
  {
  }

  /** How many of the 4 rows (or columns) of the last tile lie inside a dimension v. */
  function LastTileSpan(v: int): (s: int)
    requires v > 0
    ensures 1 <= s <= 4 && s <= v && (v <= 4 ==> s == v)
    ensures v % 4 == s % 4
  {
    var s := v - 4 * (CeilQuarter(v) - 1);
    assert v % 4 == s % 4 by {
      if s < 4 {
        DivMod(v, 4, CeilQuarter(v) - 1, s);
      } else {
        DivMod(v, 4, CeilQuarter(v), 0);
      }
    }
    s
  }

  /**
    The last write of the format-3 loop, relative to the end of `argb2`: the
    last tile column starts width - s columns in and writes min(4, width)
    columns, against t rows of width columns left in the last tile row.
   */
  lemma OverrunArithmetic(width: int, s: int, t: int)
    requires width > 0 && 1 <= s <= 4 && 1 <= t <= 4 && s <= width && (width <= 4 ==> s == width)
    ensures width - s + Tile3Columns(width) - 1 >= t * width <==> t == 1 && width > 4 && s != 4
  {
    if t > 1 {
      MulLe(2, t, width);
    }
  }

  /** The smallest image the format-3 loop overruns: 5 x 1, one row of two tiles. */
  lemma Tile3OverrunsExample()
    ensures Tile3Overruns(5, 1)
    ensures !Tile3Overruns(4, 1) && !Tile3Overruns(8, 8) && !Tile3Overruns(6, 2)
  {
  }

  // ---------------------------------------------------------------------------
  // Format 517: 1 bit per 16 pixels

  /** Bit k of a byte, (b & (0x01 << k)) >> k. */
  function Bit(b: byte, k: int): (r: int)
    requires 0 <= k < 8
    ensures r == 0 || r == 1
  {
    b / Pow2(k) % 2
  }

  /** The grey level of pixel number p (raster order): bit 7 - (p / 16) % 8 of byte p / 128, times 0xFF. */
  function MonoLevel(dec: seq<byte>, p: int): (g: byte)
    requires 0 <= p < 128 * |dec|
    ensures g == 0 || g == 0xFF
  {
    Bit(dec[p / 128], 7 - (p / 16) % 8) * 0xFF
  }

  /** Pixel (x, y) of a format-517 image: opaque grey for the first 128 * |dec| pixels, untouched zeros after them. */
  function MonoTexel(dec: seq<byte>, width: int, x: int, y: int): (r: seq<byte>)
    ensures |r| == 4
  {
    var p := y * width + x;
    if 0 <= p < 128 * |dec| then
      var g := MonoLevel(dec, p);
      PixelBytes(Color(0xFF, g, g, g), 0xFF)
    else Zeros(4)
  }

  function MonoTexels(dec: seq<byte>, width: int, height: int): (f: (int, int) -> seq<byte>)
    ensures PixelFunction(width, height, f)
  {
    (x, y) => MonoTexel(dec, width, x, y)
  }

  /**
    Reference definition of a decoded format-517 image: every bit of the
    inflated bytes, most significant first, is 16 consecutive pixels in
    raster order, wrapping from the end of one row to the start of the next.
   */
  function MonoImage(dec: seq<byte>, width: int, height: int): (pixels: seq<byte>)
    requires width >= 0 && height >= 0
    ensures |pixels| == width * height * 4
  {
    Raster(width, height, MonoTexels(dec, width, height))
  }

  /** After n pixels of the walk: the first n pixels show their grey, the others are still zero. */
  ghost predicate MonoProgress(pixel: seq<byte>, dec: seq<byte>, width: int, height: int, n: int)
  {
    (forall px, py :: 0 <= px < width && 0 <= py < height && py * width + px < n ==>
       PixelAt(pixel, width, px, py) == MonoTexel(dec, width, px, py))
    && (forall px, py :: 0 <= px < width && 0 <= py < height && py * width + px >= n ==>
       PixelAt(pixel, width, px, py) == Zeros(4))
  }

  /** Storing pixel number y * width + x advances the walk by one pixel. */
  lemma MonoStep(before: seq<byte>, pixel: seq<byte>, dec: seq<byte>, width: int, height: int, x: int, y: int, n: int)
    requires 0 <= x < width && 0 <= y < height && y * width + x == n
    requires MonoProgress(before, dec, width, height, n)
    requires PixelAt(pixel, width, x, y) == MonoTexel(dec, width, x, y)
    requires forall px, py :: 0 <= px < width && 0 <= py < height && (px != x || py != y) ==>
      PixelAt(pixel, width, px, py) == PixelAt(before, width, px, py)
    ensures MonoProgress(pixel, dec, width, height, n + 1)
  {
    forall px, py | 0 <= px < width && 0 <= py < height && py * width + px < n + 1
      ensures PixelAt(pixel, width, px, py) == MonoTexel(dec, width, px, py)
    {
      if px != x || py != y {
        PixelIndexInjective(px, py, x, y, width);
      }
    }
    forall px, py | 0 <= px < width && 0 <= py < height && py * width + px >= n + 1
      ensures PixelAt(pixel, width, px, py) == Zeros(4)
    {
      PixelIndexInjective(px, py, x, y, width);
    }
  }

  /**
    One step of the walk: wrap to the next row when the column has reached
    the width, then SetPixel the grey of pixel number n at (x, y).
   */
  method StoreMono(pixel: seq<byte>, dec: seq<byte>, width: int, height: int, x: int, y: int, n: int, level: byte)
    returns (r: seq<byte>, x': int, y': int)
    requires width > 0 && height > 0 && |pixel| == width * height * 4
    requires 0 <= x <= width && 0 <= y && y * width + x == n
    requires 0 <= n < 128 * |dec| <= width * height && level == MonoLevel(dec, n)
    requires MonoProgress(pixel, dec, width, height, n)
    ensures |r| == width * height * 4
    ensures 0 <= x' <= width && 0 <= y' && y' * width + x' == n + 1
    ensures MonoProgress(r, dec, width, height, n + 1)
  {
    x', y' := x, y;
    if x' == width {
      x' := 0;
      y' := y' + 1;
      assert y' * width + x' == n by {
        assert (y + 1) * width == y * width + width;
      }
    }
    assert y' < height by {
      RowInImage(x', y', width, height);
    }
    r := SetPixel(pixel, x', y', width, height, Color(0xFF, level, level, level), 0xFF);
    assert PixelAt(r, width, x', y') == MonoTexel(dec, width, x', y');
    MonoStep(pixel, r, dec, width, height, x', y', n);
    x' := x' + 1;
  }

  /** Pixel number 128 i + 16 j + k belongs to byte i and bit 7 - j of it. */
  lemma MonoIndex(i: int, j: int, k: int)
    requires 0 <= i && 0 <= j < 8 && 0 <= k < 16
    ensures (128 * i + 16 * j + k) / 128 == i
    ensures (128 * i + 16 * j + k) / 16 % 8 == j
  {
    DivMod(128 * i + 16 * j + k, 128, i, 16 * j + k);
    DivMod(128 * i + 16 * j + k, 16, 8 * i + j, k);
    DivMod(8 * i + j, 8, i, j);
  }

  /** A pixel whose raster number is inside the image lies in one of its rows. */
  lemma RowInImage(x: int, y: int, width: int, height: int)
    requires 0 <= x && 0 <= y && width > 0 && height > 0 && y * width + x < width * height
    ensures y < height
  {
    if y >= height {
      MulLe(height, y, width);
    }
  }

  /** The inflated bytes of format 517 cover at most the width * height pixels of the image. */
  lemma MonoCapacity(width: int, height: int)
    requires width > 0 && height > 0
    ensures 128 * (width * height / 128) <= width * height
  {
    DivIdentity(width * height, 128);
  }

  /** A finished walk is the reference image. */
  lemma MonoFinish(pixel: seq<byte>, dec: seq<byte>, width: int, height: int)
    requires width > 0 && height > 0 && |pixel| == width * height * 4
    requires MonoProgress(pixel, dec, width, height, 128 * |dec|)
    ensures pixel == MonoImage(dec, width, height)
  {
    forall px, py | 0 <= px < width && 0 <= py < height
      ensures PixelAt(pixel, width, px, py) == PixelAt(MonoImage(dec, width, height), width, px, py)
    {
      RasterPixel(width, height, MonoTexels(dec, width, height), px, py);
    }
    PixelsDetermine(pixel, MonoImage(dec, width, height), width, height);
  }

  /** The 128 pixels of inflated byte i: for each of its bits from the most significant, 16 pixels of that grey. */
  method StoreMonoByte(pixel: seq<byte>, dec: seq<byte>, width: int, height: int, x: int, y: int, i: int)
    returns (r: seq<byte>, x': int, y': int)
    requires width > 0 && height > 0 && |pixel| == width * height * 4
    requires 0 <= i < |dec| && 128 * |dec| <= width * height
    requires 0 <= x <= width && 0 <= y && y * width + x == 128 * i
    requires MonoProgress(pixel, dec, width, height, 128 * i)
    ensures |r| == width * height * 4
    ensures 0 <= x' <= width && 0 <= y' && y' * width + x' == 128 * (i + 1)
    ensures MonoProgress(r, dec, width, height, 128 * (i + 1))
  {
    r, x', y' := pixel, x, y;
    var j := 0;
    while j < 8
      invariant 0 <= j <= 8
      invariant |r| == width * height * 4
      invariant 0 <= x' <= width && 0 <= y' && y' * width + x' == 128 * i + 16 * j
      invariant MonoProgress(r, dec, width, height, 128 * i + 16 * j)
    {
      var level: byte := Bit(dec[i], 7 - j) * 0xFF;
      var k := 0;
      while k < 16
        invariant 0 <= k <= 16
        invariant |r| == width * height * 4
        invariant 0 <= x' <= width && 0 <= y' && y' * width + x' == 128 * i + 16 * j + k
        invariant MonoProgress(r, dec, width, height, 128 * i + 16 * j + k)
      {
        assert MonoLevel(dec, 128 * i + 16 * j + k) == level by {
          MonoIndex(i, j, k);
        }
        r, x', y' := StoreMono(r, dec, width, height, x', y', 128 * i + 16 * j + k, level);
        k := k + 1;
      }
      j := j + 1;
    }
  }

  /**
    Case 517 of ParsePng: for each inflated byte, for each of its bits from
    the most significant, store 16 pixels of that grey with Bitmap.SetPixel,
    moving to the next row when the column reaches the width.
   */
  method DecodeMono(dec: seq<byte>, width: int, height: int) returns (pixel: seq<byte>)
    requires width > 0 && height > 0 && |dec| == width * height / 128
    ensures pixel == MonoImage(dec, width, height)
  {
    pixel := Zeros(width * height * 4);
    forall px, py | 0 <= px < width && 0 <= py < height
      ensures PixelAt(pixel, width, px, py) == Zeros(4)
    {
      ZerosPixel(width, height, px, py);
    }
    MonoCapacity(width, height);
    var x, y := 0, 0;
    var i := 0;
    while i < |dec|
      invariant 0 <= i <= |dec|
      invariant |pixel| == width * height * 4
      invariant 0 <= x <= width && 0 <= y && y * width + x == 128 * i
      invariant MonoProgress(pixel, dec, width, height, 128 * i)
    {
      pixel, x, y := StoreMonoByte(pixel, dec, width, height, x, y, i);
      i := i + 1;
    }
    MonoFinish(pixel, dec, width, height);
  }

  // ---------------------------------------------------------------------------
  // Dispatch

  /** The format codes ParsePng decodes; any other code leaves `png` null. */
  const KnownFormats: set<int> := {1, 2, 3, 513, 517, 1026, 2050}

  /**
    The switch of ParsePng on `format + format2`, given the DEFLATE payload.
    Every known format but 3 first creates the bitmap (InvalidBitmapSize on a
    non-positive dimension), then reads its buffer through `inflate` (None:
    InvalidData). Format 3 allocates and reads before creating the bitmap.
    The DXT formats fail on dimensions that are not multiples of 4, because
    the block walk reads past its input (Dxt.LastBlockOverruns).
   */
  function DecodeImage(fmt: int, width: int, height: int, payload: seq<byte>,
                       inflate: seq<byte> -> Option<seq<byte>>): (r: Result<Option<Image>>)
    ensures fmt !in KnownFormats ==> r == Ok(None)
    ensures fmt in KnownFormats - {3} && (width <= 0 || height <= 0) ==> r == Err(InvalidBitmapSize)
    ensures fmt in KnownFormats && width > 0 && height > 0 && inflate(payload).None? ==> r == Err(InvalidData)
    ensures r.Ok? && r.value.Some? ==> r.value.value.width == width && r.value.value.height == height
    ensures r.Ok? && r.value.Some? && fmt != 3 ==> WellFormed(r.value.value)
    ensures fmt == 3 && width > 0 && height > 0 && inflate(payload).Some? ==>
      (r == Err(IndexOutOfRange) <==> height % 4 == 1 && width > 4 && width % 4 != 0) &&
      (r.Ok? ==> r.value.Some? && r.value.value.TileGrid?)
    ensures fmt == 3 && CeilQuarter(width) * CeilQuarter(height) < 0 ==> r == Err(Overflow)
    ensures fmt == 3 && (width <= 0 || height <= 0) ==> r.Err?
    ensures fmt in {1026, 2050} && width > 0 && height > 0 && inflate(payload).Some? ==>
      (r.Err? <==> !Dxt.BlockAligned(width, height)) && (r.Err? ==> r.error == IndexOutOfRange)
  {
    if fmt !in KnownFormats then Ok(None)
    else if fmt == 3 then
      var wt, ht := CeilQuarter(width), CeilQuarter(height);
      var size := 2 * (wt * ht);
      if size < 0 then Err(Overflow)
      else match inflate(payload)
        case None => Err(InvalidData)
        case Some(data) =>
          if width <= 0 || height <= 0 then Err(InvalidBitmapSize)
          else
            Tile3OverrunsIff(width, height);
            if Tile3Overruns(width, height) then Err(IndexOutOfRange)
            else Ok(Some(TileGrid(width, height, Tiles3(ReadFill(data, size), wt * ht))))
    else if width <= 0 || height <= 0 then Err(InvalidBitmapSize)
    else match inflate(payload)
      case None => Err(InvalidData)
      case Some(data) =>
        if fmt == 1 then Ok(Some(Bitmap(width, height, Argb32, DecodeArgb4444(ReadFill(data, width * height * 2)))))
        else if fmt == 2 then Ok(Some(Bitmap(width, height, Argb32, ReadFill(data, width * height * 4))))
        else if fmt == 513 then Ok(Some(Bitmap(width, height, Rgb565, ReadFill(data, width * height * 2))))
        else if fmt == 517 then Ok(Some(Bitmap(width, height, Argb32, MonoImage(ReadFill(data, width * height / 128), width, height))))
        else
          var kind := if fmt == 1026 then Dxt.Dxt3 else Dxt.Dxt5;
          if !Dxt.BlockAligned(width, height) then Err(IndexOutOfRange)
          else Ok(Some(Bitmap(width, height, Argb32, Dxt.DecodeDxt(kind, ReadFill(data, width * height), width, height))))
  }

  /** Format 2 is the identity: the bitmap holds the first w * h * 4 inflated bytes unchanged. */
  lemma Format2Identity(width: int, height: int, pixels: seq<byte>, payload: seq<byte>,
                        inflate: seq<byte> -> Option<seq<byte>>)
    requires width > 0 && height > 0 && |pixels| == width * height * 4
    requires inflate(payload) == Some(pixels)
    ensures DecodeImage(2, width, height, payload, inflate) == Ok(Some(Bitmap(width, height, Argb32, pixels)))
  {
    assert pixels[..|pixels|] == pixels;
  }

  /** Format 513 stores exactly w * h * 2 inflated bytes as the RGB565 pixels, unchanged. */
  lemma Format513Identity(width: int, height: int, pixels: seq<byte>, payload: seq<byte>,
                          inflate: seq<byte> -> Option<seq<byte>>)
    requires width > 0 && height > 0 && |pixels| == width * height * 2
    requires inflate(payload) == Some(pixels)
    ensures DecodeImage(513, width, height, payload, inflate) == Ok(Some(Bitmap(width, height, Rgb565, pixels)))
  {
    assert pixels[..|pixels|] == pixels;
  }
}
