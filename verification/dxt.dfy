/**
  S3TC block decoding for the two block-compressed formats of the archive:
  DXT3 (BC2, explicit 4-bit alpha) and DXT5 (BC3, interpolated alpha), as
  described in section 18 ("S3TC Compressed Texture Image Formats") of the
  Khronos Data Format Specification. Each 4x4 block is 16 bytes: 8 bytes of
  alpha data, two little-endian RGB565 endpoints, and 4 bytes of 2-bit colour
  indices. The colour table always uses the four-colour mode.
 */
module Dxt {
  import opened Bytes
  import opened Bitmaps

  // ---------------------------------------------------------------------------
  // RGB565 endpoints

  /** Bits 11..15 of a 5:6:5 value: the mask 0xf800 shifted right by 11. */
  function Red5(v: uint16): (f: int) ensures 0 <= f < 32 { v / 2048 }

  /** Bits 5..10 of a 5:6:5 value: the mask 0x07e0 shifted right by 5. */
  function Green6(v: uint16): (f: int) ensures 0 <= f < 64 { v / 32 % 64 }

  /** Bits 0..4 of a 5:6:5 value: the mask 0x001f. */
  function Blue5(v: uint16): (f: int) ensures 0 <= f < 32 { v % 32 }

  /**
    Widen a 5-bit field to 8 bits by bit replication, (f << 3) | (f >> 2). The
    field is the top five bits of the result, and the result is within one
    unit of the exact scaling f * 255 / 31.
   */
  function Expand5(f: int): (c: byte)
    requires 0 <= f < 32
    ensures c / 8 == f && c % 8 == f / 4
    ensures -31 < 31 * c - 255 * f < 31
  {
    f * 8 + f / 4
  }

  /** Widen a 6-bit field to 8 bits by bit replication, (f << 2) | (f >> 4) (see Expand5). */
  function Expand6(f: int): (c: byte)
    requires 0 <= f < 64
    ensures c / 4 == f && c % 4 == f / 16
    ensures -63 < 63 * c - 255 * f < 63
  {
    f * 4 + f / 16
  }

  /** The opaque colour a 16-bit 5:6:5 value denotes. */
  function Rgb565ToColor(v: uint16): (c: Color)
    ensures c.a == 0xFF
    ensures c.r / 8 == Red5(v) && c.r % 8 == Red5(v) / 4
    ensures c.g / 4 == Green6(v) && c.g % 4 == Green6(v) / 16
    ensures c.b / 8 == Blue5(v) && c.b % 8 == Blue5(v) / 4
    ensures -31 < 31 * c.r - 255 * Red5(v) < 31
    ensures -63 < 63 * c.g - 255 * Green6(v) < 63
    ensures -31 < 31 * c.b - 255 * Blue5(v) < 31
  {
    Color(0xFF, Expand5(Red5(v)), Expand6(Green6(v)), Expand5(Blue5(v)))
  }

  /** A 16-bit value is the sum of its three fields at their bit positions. */
  lemma Rgb565Fields(v: uint16)
    ensures v == Red5(v) * 2048 + Green6(v) * 32 + Blue5(v)
  {
    assert v == v % 32 + 32 * (v / 32);
    assert v / 32 == v / 32 % 64 + 64 * (v / 2048);
  }

  /** No information is lost: the 5:6:5 value is recovered from the top bits of the channels. */
  lemma Rgb565RoundTrip(v: uint16)
    ensures var c := Rgb565ToColor(v); v == (c.r / 8) * 2048 + (c.g / 4) * 32 + c.b / 8
  {
    Rgb565Fields(v);
  }


  /** The all-zero value is opaque black and the all-ones value is opaque white. */
  lemma Rgb565BlackWhite()
    ensures Rgb565ToColor(0x0000) == Color(0xFF, 0, 0, 0)
    ensures Rgb565ToColor(0xFFFF) == Color(0xFF, 0xFF, 0xFF, 0xFF)
  {
    assert Red5(0) == 0 && Green6(0) == 0 && Blue5(0) == 0 by {
      DivMod(0, 2048, 0, 0);
      DivMod(0, 32, 0, 0);
    }
    assert Red5(0xFFFF) == 31 && Green6(0xFFFF) == 63 && Blue5(0xFFFF) == 31 by {
      DivMod(0xFFFF, 2048, 31, 2047);
      DivMod(0xFFFF, 32, 2047, 31);
      DivMod(2047, 64, 31, 63);
    }
    assert Expand5(31) == 0xFF && Expand6(63) == 0xFF by {
      DivMod(31, 4, 7, 3);
      DivMod(63, 16, 3, 15);
    }
  }

  // ---------------------------------------------------------------------------
  // Colour table and colour indices

  /** `v` is the rounded-to-nearest value of (2 * near + far) / 3. */
  predicate NearestThird(near: int, far: int, v: int)
  {
    -1 <= 3 * v - (2 * near + far) <= 1
  }

  /** `mid` is, channel by channel, the nearest value two thirds of the way from `far` to `near`. */
  predicate BlendsTowards(near: Color, far: Color, mid: Color)
  {
    NearestThird(near.r, far.r, mid.r) && NearestThird(near.g, far.g, mid.g) && NearestThird(near.b, far.b, mid.b)
  }

  lemma NearestThirdBetween(near: int, far: int, v: int)
    requires NearestThird(near, far, v)
    ensures near <= far ==> near <= v <= far
    ensures far <= near ==> far <= v <= near
    ensures near == far ==> v == near
  {
  }

  /**
    The four-entry colour table of a block: the two endpoints and the two
    colours one third and two thirds of the way between them, all opaque.
   */
  function ExpandColorTable(u0: uint16, u1: uint16): (t: seq<Color>)
    ensures |t| == 4
    ensures t[0] == Rgb565ToColor(u0) && t[1] == Rgb565ToColor(u1)
    ensures forall k :: 0 <= k < 4 ==> t[k].a == 0xFF
    ensures BlendsTowards(t[0], t[1], t[2]) && BlendsTowards(t[1], t[0], t[3])
  {
    var c0 := Rgb565ToColor(u0);
    var c1 := Rgb565ToColor(u1);
    [c0,
     c1,
     Color(0xFF, Third(c0.r, c1.r), Third(c0.g, c1.g), Third(c0.b, c1.b)),
     Color(0xFF, Third(c1.r, c0.r), Third(c1.g, c0.g), Third(c1.b, c0.b))]
  }

  /** The channel blend of ExpandColorTable, (near * 2 + far + 1) / 3. */
  function Third(near: byte, far: byte): (v: byte)
    ensures NearestThird(near, far, v)
  {
    (near * 2 + far + 1) / 3
  }

  /** Equal endpoints give a table of four identical colours. */
  lemma SolidColorTable(u: uint16)
    ensures var t := ExpandColorTable(u, u); t[1] == t[0] && t[2] == t[0] && t[3] == t[0]
  {
    var t := ExpandColorTable(u, u);
    NearestThirdBetween(t[0].r, t[0].r, t[2].r);
    NearestThirdBetween(t[0].g, t[0].g, t[2].g);
    NearestThirdBetween(t[0].b, t[0].b, t[2].b);
    NearestThirdBetween(t[0].r, t[0].r, t[3].r);
    NearestThirdBetween(t[0].g, t[0].g, t[3].g);
    NearestThirdBetween(t[0].b, t[0].b, t[3].b);
  }

  /**
    The four 2-bit indices of one byte, low bits first: b & 0x03, then each
    further index after shifting right by two more bits.
   */
  function ColorIndices(b: byte): (r: seq<int>)
    ensures |r| == 4 && forall k :: 0 <= k < 4 ==> 0 <= r[k] < 4
  {
    var q1 := b / 4;
    var q2 := q1 / 4;
    [b % 4, q1 % 4, q2 % 4, q2 / 4]
  }

  /** The 16 colour indices of a block, from the 4 bytes at `offset`, one byte per row. */
  function ExpandColorIndexTable(raw: seq<byte>, offset: nat): (idx: seq<int>)
    requires offset + 4 <= |raw|
    ensures |idx| == 16
    ensures forall k :: 0 <= k < 16 ==> 0 <= idx[k] < 4
  {
    ColorIndices(raw[offset]) + ColorIndices(raw[offset + 1])
    + ColorIndices(raw[offset + 2]) + ColorIndices(raw[offset + 3])
  }

  /** Pack four 2-bit indices back into a byte, first index in the low bits. */
  function PackColorIndices(r: seq<int>): int
    requires |r| == 4
  {
    r[0] + 4 * (r[1] + 4 * (r[2] + 4 * r[3]))
  }

  lemma ColorIndicesRoundTrip(b: byte)
    ensures PackColorIndices(ColorIndices(b)) == b
  {
    var q1 := b / 4;
    var q2 := q1 / 4;
    assert b == b % 4 + 4 * q1;
    assert q1 == q1 % 4 + 4 * q2;
    assert q2 == q2 % 4 + 4 * (q2 / 4);
  }

  /** The index table is exactly the 4 source bytes, read two bits at a time. */
  lemma ColorIndexTableRoundTrip(raw: seq<byte>, offset: nat)
    requires offset + 4 <= |raw|
    ensures var idx := ExpandColorIndexTable(raw, offset);
      forall m :: 0 <= m < 4 ==> PackColorIndices(idx[4 * m..4 * m + 4]) == raw[offset + m]
  {
    var idx := ExpandColorIndexTable(raw, offset);
    forall m | 0 <= m < 4
      ensures PackColorIndices(idx[4 * m..4 * m + 4]) == raw[offset + m]
    {
      assert idx[4 * m..4 * m + 4] == ColorIndices(raw[offset + m]);
      ColorIndicesRoundTrip(raw[offset + m]);
    }
  }

  // ---------------------------------------------------------------------------
  // DXT3 alpha

  /** A 4-bit value copied into both nibbles, n | (n << 4): the 8-bit alpha it denotes. */
  function Replicate4(n: int): (a: byte)
    requires 0 <= n < 16
    ensures a / 16 == n && a % 16 == n
  {
    n * 17
  }

  /** The low four bits of a byte (mask 0x0f). */
  function LowNibble(b: byte): (n: int) ensures 0 <= n < 16 { b % 16 }

  /** The high four bits of a byte (mask 0xf0 shifted right by 4). */
  function HighNibble(b: byte): (n: int) ensures 0 <= n < 16 { b / 16 }

  /** The 16 explicit alphas of a DXT3 block, from the 8 bytes at `offset`, low nibble first. */
  function ExpandAlphaTable(raw: seq<byte>, offset: nat): (alpha: seq<byte>)
    requires offset + 8 <= |raw|
    ensures |alpha| == 16
    ensures forall k :: 0 <= k < 16 ==> alpha[k] / 16 == alpha[k] % 16
    ensures forall m :: 0 <= m < 8 ==> alpha[2 * m] % 16 == raw[offset + m] % 16
    ensures forall m :: 0 <= m < 8 ==> alpha[2 * m + 1] % 16 == raw[offset + m] / 16
  {
    seq(16, k requires 0 <= k < 16 =>
      if k % 2 == 0 then Replicate4(LowNibble(raw[offset + k / 2]))
      else Replicate4(HighNibble(raw[offset + k / 2])))
  }

  /** The alpha data of a DXT3 block is recovered from the expanded alphas. */
  lemma AlphaTableRoundTrip(raw: seq<byte>, offset: nat)
    requires offset + 8 <= |raw|
    ensures var alpha := ExpandAlphaTable(raw, offset);
      forall m :: 0 <= m < 8 ==> alpha[2 * m] % 16 + 16 * (alpha[2 * m + 1] % 16) == raw[offset + m]
  {
    var alpha := ExpandAlphaTable(raw, offset);
    forall m | 0 <= m < 8
      ensures alpha[2 * m] % 16 + 16 * (alpha[2 * m + 1] % 16) == raw[offset + m]
    {
      var b := raw[offset + m];
      assert b == b % 16 + 16 * (b / 16);
    }
  }

  // ---------------------------------------------------------------------------
  // DXT5 alpha

  /** `v` is the rounded-to-nearest value of n / d, where ties are at most d / 2 away. */
  predicate NearestFraction(n: int, d: int, v: int)
  {
    -(d / 2) <= d * v - n <= d / 2
  }

  function Lerp7(a0: byte, a1: byte, i: int): (v: byte)
    requires 2 <= i < 8
    ensures NearestFraction((8 - i) * a0 + (i - 1) * a1, 7, v)
    ensures a1 <= v <= a0 || a0 <= v <= a1
  {
    ((8 - i) * a0 + (i - 1) * a1 + 3) / 7
  }

  function Lerp5(a0: byte, a1: byte, i: int): (v: byte)
    requires 2 <= i < 6
    ensures NearestFraction((6 - i) * a0 + (i - 1) * a1, 5, v)
    ensures a1 <= v <= a0 || a0 <= v <= a1
  {
    ((6 - i) * a0 + (i - 1) * a1 + 2) / 5
  }

  /**
    The eight-entry alpha table of a DXT5 block. When a0 > a1 entries 2..7 are
    six evenly spaced values between the endpoints; otherwise entries 2..5 are
    four such values and entries 6 and 7 are fully transparent and fully opaque.
   */
  function ExpandAlphaTableDxt5(a0: byte, a1: byte): (t: seq<byte>)
    ensures |t| == 8 && t[0] == a0 && t[1] == a1
    ensures a0 > a1 ==> forall i :: 2 <= i < 8 ==>
      NearestFraction((8 - i) * a0 + (i - 1) * a1, 7, t[i]) && a1 <= t[i] <= a0
    ensures a0 <= a1 ==> forall i :: 2 <= i < 6 ==>
      NearestFraction((6 - i) * a0 + (i - 1) * a1, 5, t[i]) && a0 <= t[i] <= a1
    ensures a0 <= a1 ==> t[6] == 0 && t[7] == 255
  {
    if a0 > a1 then EightLevels(a0, a1) else SixLevels(a0, a1)
  }

  /** The table for a0 > a1: both endpoints and six interpolated values. */
  function EightLevels(a0: byte, a1: byte): (t: seq<byte>)
    requires a0 > a1
    ensures |t| == 8 && t[0] == a0 && t[1] == a1
    ensures forall i :: 2 <= i < 8 ==> NearestFraction((8 - i) * a0 + (i - 1) * a1, 7, t[i]) && a1 <= t[i] <= a0
  {
    [a0, a1, Lerp7(a0, a1, 2), Lerp7(a0, a1, 3), Lerp7(a0, a1, 4), Lerp7(a0, a1, 5), Lerp7(a0, a1, 6), Lerp7(a0, a1, 7)]
  }

  /** The table for a0 <= a1: both endpoints, four interpolated values, then 0 and 255. */
  function SixLevels(a0: byte, a1: byte): (t: seq<byte>)
    requires a0 <= a1
    ensures |t| == 8 && t[0] == a0 && t[1] == a1 && t[6] == 0 && t[7] == 255
    ensures forall i :: 2 <= i < 6 ==> NearestFraction((6 - i) * a0 + (i - 1) * a1, 5, t[i]) && a0 <= t[i] <= a1
  {
    [a0, a1, Lerp5(a0, a1, 2), Lerp5(a0, a1, 3), Lerp5(a0, a1, 4), Lerp5(a0, a1, 5), 0, 255]
  }

  /** Equal alpha endpoints make entries 0..5 equal to that alpha. */
  lemma SolidAlphaTableDxt5(a: byte)
    ensures var t := ExpandAlphaTableDxt5(a, a); forall i :: 0 <= i < 6 ==> t[i] == a
  {
  }

  /** 8 to the power n. */
  function Pow8(n: nat): (p: nat)
    ensures p >= 1
  {
    if n == 0 then 1 else 8 * Pow8(n - 1)
  }

  /**
    The first n base-8 digits of v, least significant first: digit j is bits
    3j..3j+2, (v & (0x07 << 3j)) >> 3j.
   */
  function OctalDigits(v: nat, n: nat): (r: seq<int>)
    ensures |r| == n && forall k :: 0 <= k < n ==> 0 <= r[k] < 8
  {
    if n == 0 then [] else [v % 8] + OctalDigits(v / 8, n - 1)
  }

  /** The value of 3-bit fields, first field in the low bits: the inverse of OctalDigits. */
  function OctalValue(g: seq<int>): nat
  {
    if g == [] then 0 else g[0] % 8 + 8 * OctalValue(g[1..])
  }

  /** Reading n 3-bit fields of a value below 8^n and packing them again gives the value back. */
  lemma {:induction false} OctalRoundTrip(v: nat, n: nat)
    requires v < Pow8(n)
    ensures OctalValue(OctalDigits(v, n)) == v
  {
    if n > 0 {
      assert v / 8 < Pow8(n - 1);
      OctalRoundTrip(v / 8, n - 1);
      assert OctalDigits(v, n)[1..] == OctalDigits(v / 8, n - 1);
    }
  }

  /** The eight 3-bit indices of a little-endian 24-bit group b0 | b1 << 8 | b2 << 16. */
  function AlphaIndexGroup(b0: byte, b1: byte, b2: byte): (r: seq<int>)
    ensures |r| == 8 && forall k :: 0 <= k < 8 ==> 0 <= r[k] < 8
  {
    OctalDigits(Flags24(b0, b1, b2), 8)
  }

  /** The 24-bit little-endian value of three bytes. */
  function Flags24(b0: byte, b1: byte, b2: byte): (v: nat)
    ensures v < 0x100_0000
  {
    b0 + 0x100 * b1 + 0x1_0000 * b2
  }

  /** The 16 alpha indices of a DXT5 block, from the 6 bytes at `offset`. */
  function ExpandAlphaIndexTableDxt5(raw: seq<byte>, offset: nat): (idx: seq<int>)
    requires offset + 6 <= |raw|
    ensures |idx| == 16
    ensures forall k :: 0 <= k < 16 ==> 0 <= idx[k] < 8
  {
    AlphaIndexGroup(raw[offset], raw[offset + 1], raw[offset + 2])
    + AlphaIndexGroup(raw[offset + 3], raw[offset + 4], raw[offset + 5])
  }

  /** Pack eight 3-bit indices back into three bytes, first index in the low bits. */
  function PackAlphaIndexGroup(g: seq<int>): (r: seq<int>)
    requires |g| == 8
    ensures |r| == 3
  {
    var v := OctalValue(g);
    [v % 0x100, v / 0x100 % 0x100, v / 0x1_0000 % 0x100]
  }

  lemma AlphaIndexGroupRoundTrip(b0: byte, b1: byte, b2: byte)
    ensures PackAlphaIndexGroup(AlphaIndexGroup(b0, b1, b2)) == [b0, b1, b2]
  {
    var flags := Flags24(b0, b1, b2);
    assert Pow8(8) == 0x100_0000;
    OctalRoundTrip(flags, 8);
    var r := PackAlphaIndexGroup(AlphaIndexGroup(b0, b1, b2));
    DivMod(flags, 0x100, b1 + 0x100 * b2, b0);
    DivMod(b1 + 0x100 * b2, 0x100, b2, b1);
    DivMod(flags, 0x1_0000, b2, b0 + 0x100 * b1);
    DivMod(b2, 0x100, 0, b2);
    assert r[0] == b0 && r[1] == b1 && r[2] == b2;
  }

  /** The alpha index table is exactly the 6 source bytes, read three bits at a time. */
  lemma AlphaIndexTableDxt5RoundTrip(raw: seq<byte>, offset: nat)
    requires offset + 6 <= |raw|
    ensures var idx := ExpandAlphaIndexTableDxt5(raw, offset);
      PackAlphaIndexGroup(idx[..8]) + PackAlphaIndexGroup(idx[8..]) == raw[offset..offset + 6]
  {
    var idx := ExpandAlphaIndexTableDxt5(raw, offset);
    assert idx[..8] == AlphaIndexGroup(raw[offset], raw[offset + 1], raw[offset + 2]);
    assert idx[8..] == AlphaIndexGroup(raw[offset + 3], raw[offset + 4], raw[offset + 5]);
    AlphaIndexGroupRoundTrip(raw[offset], raw[offset + 1], raw[offset + 2]);
    AlphaIndexGroupRoundTrip(raw[offset + 3], raw[offset + 4], raw[offset + 5]);
  }

  // ---------------------------------------------------------------------------
  // Blocks

  datatype DxtKind = Dxt3 | Dxt5

  /** The colour of each of the 16 texels, looked up through its index. */
  function TexelColors(table: seq<Color>, idx: seq<int>): (c: seq<Color>)
    requires |table| == 4 && |idx| == 16 && forall k :: 0 <= k < 16 ==> 0 <= idx[k] < 4
    ensures |c| == 16
    ensures forall n :: 0 <= n < 16 ==> c[n] == ColorEntry(table, idx[n])
  {
    seq(16, n requires 0 <= n < 16 => ColorEntry(table, idx[n]))
  }

  /** The colour of each of the 16 texels of the block at `off`, in raster order. */
  function BlockColors(raw: seq<byte>, off: nat): (c: seq<Color>)
    requires off + 16 <= |raw|
    ensures |c| == 16
  {
    TexelColors(ExpandColorTable(UInt16At(raw, off + 8), UInt16At(raw, off + 10)), ExpandColorIndexTable(raw, off + 12))
  }

  /** The colour-table entry a 2-bit index selects: always one of the four. */
  function ColorEntry(table: seq<Color>, i: int): (c: Color)
    requires |table| == 4 && 0 <= i < 4
    ensures c == table[0] || c == table[1] || c == table[2] || c == table[3]
  {
    table[i]
  }

  /** Texel n of a block takes the colour-table entry its 2-bit index selects. */
  lemma BlockColorEntry(raw: seq<byte>, off: nat, n: int)
    requires off + 16 <= |raw| && 0 <= n < 16
    ensures BlockColors(raw, off)[n]
      == ColorEntry(ExpandColorTable(UInt16At(raw, off + 8), UInt16At(raw, off + 10)), ExpandColorIndexTable(raw, off + 12)[n])
  {
  }

  /** The alpha of each of the 16 texels of the block at `off`, in raster order. */
  function BlockAlphas(kind: DxtKind, raw: seq<byte>, off: nat): (a: seq<byte>)
    requires off + 16 <= |raw|
    ensures |a| == 16
  {
    match kind
    case Dxt3 => ExpandAlphaTable(raw, off)
    case Dxt5 =>
      var table := ExpandAlphaTableDxt5(raw[off], raw[off + 1]);
      var idx := ExpandAlphaIndexTableDxt5(raw, off + 2);
      seq(16, n requires 0 <= n < 16 => table[idx[n]])
  }

  /** A block whose two colour endpoints are equal has one colour in all 16 texels. */
  lemma UniformBlock(raw: seq<byte>, off: nat)
    requires off + 16 <= |raw|
    requires UInt16At(raw, off + 8) == UInt16At(raw, off + 10)
    ensures forall n :: 0 <= n < 16 ==> BlockColors(raw, off)[n] == BlockColors(raw, off)[0]
  {
    forall n | 0 <= n < 16
      ensures BlockColors(raw, off)[n] == BlockColors(raw, off)[0]
    {
      UniformTexel(raw, off, n);
      UniformTexel(raw, off, 0);
    }
  }

  lemma UniformTexel(raw: seq<byte>, off: nat, n: int)
    requires off + 16 <= |raw| && 0 <= n < 16
    requires UInt16At(raw, off + 8) == UInt16At(raw, off + 10)
    ensures BlockColors(raw, off)[n] == ExpandColorTable(UInt16At(raw, off + 8), UInt16At(raw, off + 8))[0]
  {
    SolidColorTable(UInt16At(raw, off + 8));
    BlockColorEntry(raw, off, n);
  }

  /** A DXT3 block whose 8 alpha bytes are all one repeated nibble has one alpha everywhere. */
  lemma ConstantDxt3Alpha(raw: seq<byte>, off: nat, n: int)
    requires off + 16 <= |raw| && 0 <= n < 16
    requires forall m :: off <= m < off + 8 ==> raw[m] == n * 17
    ensures forall k :: 0 <= k < 16 ==> BlockAlphas(Dxt3, raw, off)[k] == n * 17
  {
    DivMod(n * 17, 16, n, n);
  }

  /** Every index selects one of the first six alpha levels. */
  predicate InterpolatedOnly(idx: seq<int>)
  {
    forall k :: 0 <= k < |idx| ==> idx[k] < 6
  }

  /**
    A DXT5 block whose two alpha endpoints are equal has that alpha in every
    texel whose index picks one of the six interpolated levels; indices 6
    and 7 still give 0 and 255.
   */
  lemma ConstantDxt5Alpha(raw: seq<byte>, off: nat)
    requires off + 16 <= |raw| && raw[off] == raw[off + 1]
    requires InterpolatedOnly(ExpandAlphaIndexTableDxt5(raw, off + 2))
    ensures forall k :: 0 <= k < 16 ==> BlockAlphas(Dxt5, raw, off)[k] == raw[off]
  {
    SolidAlphaTableDxt5(raw[off]);
  }

  // ---------------------------------------------------------------------------
  // Whole images

  /** Dimensions whose 4x4 blocks tile the image exactly. */
  predicate BlockAligned(width: int, height: int)
  {
    width >= 0 && height >= 0 && width % 4 == 0 && height % 4 == 0
  }

  /**
    The byte offset of the block whose top-left pixel is (x, y): a row of
    blocks is `width / 4` blocks of 16 bytes, and four pixel rows share it.
   */
  function BlockOffset(x: int, y: int, width: int): int
  {
    x * 4 + y * width
  }

  /** An aligned block start is a whole block before an aligned end. */
  lemma AlignedStep(x: int, width: int)
    requires 0 <= x < width && x % 4 == 0 && width % 4 == 0
    ensures x + 4 <= width
  {
  }

  /** On aligned dimensions every block lies inside the `width * height` input bytes. */
  lemma BlockInBounds(x: int, y: int, width: int, height: int)
    requires BlockAligned(width, height)
    requires 0 <= x < width && 0 <= y < height && x % 4 == 0 && y % 4 == 0
    ensures 0 <= BlockOffset(x, y, width) && BlockOffset(x, y, width) + 16 <= width * height
  {
    AlignedStep(x, width);
    AlignedStep(y, height);
    MulLe(y, height - 4, width);
    assert (height - 4) * width == height * width - 4 * width;
  }

  /**
    On unaligned positive dimensions the last block the walk visits reads past
    the `width * height` input bytes, so the decoder throws.
   */
  lemma LastBlockOverruns(width: int, height: int)
    requires width > 0 && height > 0 && !BlockAligned(width, height)
    ensures var x, y := 4 * ((width + 3) / 4) - 4, 4 * ((height + 3) / 4) - 4;
      0 <= x < width && 0 <= y < height && BlockOffset(x, y, width) + 16 > width * height
  {
    var x, y := 4 * ((width + 3) / 4) - 4, 4 * ((height + 3) / 4) - 4;
    var a, b := x + 4 - width, y + 4 - height;
    assert 0 <= a < 4 && 0 <= b < 4 && (a > 0 || b > 0);
    assert BlockOffset(x, y, width) + 16 - width * height == 4 * a + b * width by {
      assert y * width == height * width + (b - 4) * width;
    }
    if b > 0 {
      MulLe(1, b, width);
    }
  }


  /** The first column (or row) of the block holding column (or row) p. */
  function BlockCorner(p: int): int
  {
    p - p % 4
  }

  /** Raster position of pixel (px, py) inside its block's 16 texels. */
  function TexelIndex(px: int, py: int): int
  {
    (py % 4) * 4 + px % 4
  }

  /** Pixel (px, py): texel (px % 4, py % 4) of the block containing it. */
  function TexelBytes(kind: DxtKind, raw: seq<byte>, width: int, height: int, px: int, py: int): (r: seq<byte>)
    requires BlockAligned(width, height) && |raw| == width * height
    requires 0 <= px < width && 0 <= py < height
    ensures |r| == 4
  {
    var x, y := BlockCorner(px), BlockCorner(py);
    BlockInBounds(x, y, width, height);
    var off := BlockOffset(x, y, width);
    var n := TexelIndex(px, py);
    PixelBytes(BlockColors(raw, off)[n], BlockAlphas(kind, raw, off)[n])
  }

  /** The texel function of a DXT image, with a placeholder off the image. */
  function Texels(kind: DxtKind, raw: seq<byte>, width: int, height: int): (f: (int, int) -> seq<byte>)
    requires BlockAligned(width, height) && |raw| == width * height
    ensures PixelFunction(width, height, f)
  {
    (x, y) => if 0 <= x < width && 0 <= y < height then TexelBytes(kind, raw, width, height, x, y) else Zeros(4)
  }

  /**
    Reference definition of a decoded DXT image: a 32-bit raster whose pixel
    (x, y) is the texel of its block.
   */
  function DecodeDxt(kind: DxtKind, raw: seq<byte>, width: int, height: int): (pixels: seq<byte>)
    requires BlockAligned(width, height) && |raw| == width * height
    ensures |pixels| == width * height * 4
  {
    Raster(width, height, Texels(kind, raw, width, height))
  }

  /** Every pixel of the decoded image shows the texel of its block. */
  lemma DecodeDxtPixel(kind: DxtKind, raw: seq<byte>, width: int, height: int, px: int, py: int)
    requires BlockAligned(width, height) && |raw| == width * height
    requires 0 <= px < width && 0 <= py < height
    ensures PixelAt(DecodeDxt(kind, raw, width, height), width, px, py) == TexelBytes(kind, raw, width, height, px, py)
  {
    RasterPixel(width, height, Texels(kind, raw, width, height), px, py);
  }

  /** Pixel (px, py) lies in the 4x4 block whose top-left corner is (x, y). */
  predicate InBlock(px: int, py: int, x: int, y: int)
  {
    x <= px < x + 4 && y <= py < y + 4
  }

  /** Pixel (px, py) is one of the first n texels, in raster order, of the block at (x, y). */
  predicate TexelStored(px: int, py: int, x: int, y: int, n: int)
  {
    InBlock(px, py, x, y) && (py - y) * 4 + (px - x) < n
  }

  /** Which pixels the block walk has stored once the block at (x, y) is next. */
  predicate Walked(px: int, py: int, x: int, y: int)
  {
    py < y || (py < y + 4 && px < x)
  }

  /** Distinct texels of a block have distinct raster positions. */
  lemma TexelIndexInjective(i: int, j: int, i': int, j': int)
    requires 0 <= i < 4 && 0 <= j < 4 && 0 <= i' < 4 && 0 <= j' < 4
    requires j * 4 + i == j' * 4 + i'
    ensures i == i' && j == j'
  {
  }

  /** Pixel (px, py) of the block at (x, y) is entry (py - y) * 4 + (px - x) of its colour and alpha tables. */
  lemma BlockTexel(kind: DxtKind, raw: seq<byte>, width: int, height: int, x: int, y: int, px: int, py: int)
    requires BlockAligned(width, height) && |raw| == width * height
    requires 0 <= x < width && 0 <= y < height && x % 4 == 0 && y % 4 == 0
    requires 0 <= px < width && 0 <= py < height && InBlock(px, py, x, y)
    ensures BlockOffset(x, y, width) + 16 <= |raw|
    ensures TexelBytes(kind, raw, width, height, px, py)
      == PixelBytes(BlockColors(raw, BlockOffset(x, y, width))[(py - y) * 4 + (px - x)],
                    BlockAlphas(kind, raw, BlockOffset(x, y, width))[(py - y) * 4 + (px - x)])
  {
    BlockInBounds(x, y, width, height);
    CornerOf(px, x);
    CornerOf(py, y);
    assert TexelIndex(px, py) == (py - y) * 4 + (px - x);
  }

  lemma CornerOf(p: int, x: int)
    requires x % 4 == 0 && x <= p < x + 4
    ensures BlockCorner(p) == x && p % 4 == p - x
  {
  }

  /**
    The state of a block store after n texels: those n pixels show their
    colour and alpha, every other pixel still has its bytes from `pixel0`.
   */
  ghost predicate BlockProgress(pixel: seq<byte>, pixel0: seq<byte>, width: int, height: int, x: int, y: int,
                                colors: seq<Color>, alphas: seq<byte>, n: int)
  {
    |colors| == 16 && |alphas| == 16
    && (forall px, py :: 0 <= px < width && 0 <= py < height && TexelStored(px, py, x, y, n) ==>
          PixelAt(pixel, width, px, py) == PixelBytes(colors[(py - y) * 4 + (px - x)], alphas[(py - y) * 4 + (px - x)]))
    && (forall px, py :: 0 <= px < width && 0 <= py < height && !TexelStored(px, py, x, y, n) ==>
          PixelAt(pixel, width, px, py) == PixelAt(pixel0, width, px, py))
  }

  /** Storing texel n = j * 4 + i at (x + i, y + j) advances the block store by one texel. */
  lemma BlockProgressStep(before: seq<byte>, pixel: seq<byte>, pixel0: seq<byte>, width: int, height: int,
                          x: int, y: int, colors: seq<Color>, alphas: seq<byte>, i: int, j: int)
    requires 0 <= i < 4 && 0 <= j < 4
    requires BlockProgress(before, pixel0, width, height, x, y, colors, alphas, j * 4 + i)
    requires PixelAt(pixel, width, x + i, y + j) == PixelBytes(colors[j * 4 + i], alphas[j * 4 + i])
    requires forall px, py :: 0 <= px < width && 0 <= py < height && (px != x + i || py != y + j) ==>
      PixelAt(pixel, width, px, py) == PixelAt(before, width, px, py)
    ensures BlockProgress(pixel, pixel0, width, height, x, y, colors, alphas, j * 4 + i + 1)
  {
    forall px, py | 0 <= px < width && 0 <= py < height && TexelStored(px, py, x, y, j * 4 + i + 1)
      ensures PixelAt(pixel, width, px, py) == PixelBytes(colors[(py - y) * 4 + (px - x)], alphas[(py - y) * 4 + (px - x)])
    {
      if (py - y) * 4 + (px - x) == j * 4 + i {
        TexelIndexInjective(px - x, py - y, i, j);
      }
    }
  }

  /**
    The inner loops of the block walk: store the 16 texels of the block at
    (x, y), row by row, each with the colour its index selects and its alpha.
   */
  method StoreTexels(pixel0: seq<byte>, width: int, height: int, x: int, y: int,
                     colorTable: seq<Color>, colorIdxTable: seq<int>, alphaTable: seq<byte>)
    returns (pixel: seq<byte>)
    requires |pixel0| == width * height * 4 && 0 <= x && x + 4 <= width && 0 <= y && y + 4 <= height
    requires |colorTable| == 4 && |colorIdxTable| == 16 && |alphaTable| == 16
    requires forall k :: 0 <= k < 16 ==> 0 <= colorIdxTable[k] < 4
    ensures |pixel| == width * height * 4
    ensures BlockProgress(pixel, pixel0, width, height, x, y, TexelColors(colorTable, colorIdxTable), alphaTable, 16)
  {
    ghost var colors := TexelColors(colorTable, colorIdxTable);
    pixel := pixel0;
    var j := 0;
    while j < 4
      invariant 0 <= j <= 4
      invariant |pixel| == width * height * 4
      invariant BlockProgress(pixel, pixel0, width, height, x, y, colors, alphaTable, j * 4)
    {
      var i := 0;
      while i < 4
        invariant 0 <= i <= 4
        invariant |pixel| == width * height * 4
        invariant BlockProgress(pixel, pixel0, width, height, x, y, colors, alphaTable, j * 4 + i)
      {
        var before := pixel;
        pixel := SetPixel(pixel, x + i, y + j, width, height, colorTable[colorIdxTable[j * 4 + i]], alphaTable[j * 4 + i]);
        BlockProgressStep(before, pixel, pixel0, width, height, x, y, colors, alphaTable, i, j);
        i := i + 1;
      }
      j := j + 1;
    }
  }

  /**
    The body of the block walk for the block at (x, y): expand its tables and
    store its 16 texels. The block's pixels then show their texels and every
    other pixel keeps its bytes.
   */
  method StoreBlock(kind: DxtKind, raw: seq<byte>, width: int, height: int, pixel0: seq<byte>, x: int, y: int)
    returns (pixel: seq<byte>)
    requires BlockAligned(width, height) && |raw| == width * height
    requires 0 <= x < width && 0 <= y < height && x % 4 == 0 && y % 4 == 0
    requires |pixel0| == width * height * 4
    ensures |pixel| == width * height * 4
    ensures forall px, py :: 0 <= px < width && 0 <= py < height && InBlock(px, py, x, y) ==>
      PixelAt(pixel, width, px, py) == TexelBytes(kind, raw, width, height, px, py)
    ensures forall px, py :: 0 <= px < width && 0 <= py < height && !InBlock(px, py, x, y) ==>
      PixelAt(pixel, width, px, py) == PixelAt(pixel0, width, px, py)
  {
    BlockInBounds(x, y, width, height);
    AlignedStep(x, width);
    AlignedStep(y, height);
    var off := BlockOffset(x, y, width);
    var colorTable := ExpandColorTable(UInt16At(raw, off + 8), UInt16At(raw, off + 10));
    var colorIdxTable := ExpandColorIndexTable(raw, off + 12);
    var alphaTable := BlockAlphas(kind, raw, off);
    pixel := StoreTexels(pixel0, width, height, x, y, colorTable, colorIdxTable, alphaTable);
    BlockPixels(kind, raw, width, height, pixel, pixel0, x, y);
  }

  /** A finished block store shows the block's decoding on its 16 pixels and leaves the rest alone. */
  lemma BlockPixels(kind: DxtKind, raw: seq<byte>, width: int, height: int, pixel: seq<byte>, pixel0: seq<byte>, x: int, y: int)
    requires BlockAligned(width, height) && |raw| == width * height
    requires 0 <= x < width && 0 <= y < height && x % 4 == 0 && y % 4 == 0
    requires BlockOffset(x, y, width) + 16 <= |raw|
    requires BlockProgress(pixel, pixel0, width, height, x, y,
                           BlockColors(raw, BlockOffset(x, y, width)), BlockAlphas(kind, raw, BlockOffset(x, y, width)), 16)
    ensures forall px, py :: 0 <= px < width && 0 <= py < height && InBlock(px, py, x, y) ==>
      PixelAt(pixel, width, px, py) == TexelBytes(kind, raw, width, height, px, py)
    ensures forall px, py :: 0 <= px < width && 0 <= py < height && !InBlock(px, py, x, y) ==>
      PixelAt(pixel, width, px, py) == PixelAt(pixel0, width, px, py)
  {
    forall px, py | 0 <= px < width && 0 <= py < height && InBlock(px, py, x, y)
      ensures PixelAt(pixel, width, px, py) == TexelBytes(kind, raw, width, height, px, py)
    {
      assert TexelStored(px, py, x, y, 16);
      BlockTexel(kind, raw, width, height, x, y, px, py);
    }
  }

  /**
    GetPixelDataDXT3 and GetPixelDataDXT5: walk the blocks in raster order
    (x and y step by 4) and store each block's 16 texels. The output is the
    reference decoding: each pixel is written once, by its own block, and
    never overwritten.
   */
  method GetPixelData(kind: DxtKind, raw: seq<byte>, width: int, height: int) returns (pixel: seq<byte>)
    requires BlockAligned(width, height) && |raw| == width * height
    ensures pixel == DecodeDxt(kind, raw, width, height)
  {
    pixel := Zeros(width * height * 4);
    var y := 0;
    while y < height
      invariant 0 <= y <= height && y % 4 == 0
      invariant |pixel| == width * height * 4
      invariant forall px, py :: 0 <= px < width && 0 <= py < height && py < y ==>
        PixelAt(pixel, width, px, py) == TexelBytes(kind, raw, width, height, px, py)
    {
      var x := 0;
      while x < width
        invariant 0 <= x <= width && x % 4 == 0
        invariant |pixel| == width * height * 4
        invariant forall px, py :: 0 <= px < width && 0 <= py < height && Walked(px, py, x, y) ==>
          PixelAt(pixel, width, px, py) == TexelBytes(kind, raw, width, height, px, py)
      {
        pixel := StoreBlock(kind, raw, width, height, pixel, x, y);
        x := x + 4;
      }
      y := y + 4;
    }
    forall px, py | 0 <= px < width && 0 <= py < height
      ensures PixelAt(pixel, width, px, py) == PixelAt(DecodeDxt(kind, raw, width, height), width, px, py)
    {
      DecodeDxtPixel(kind, raw, width, height, px, py);
    }
    PixelsDetermine(pixel, DecodeDxt(kind, raw, width, height), width, height);
  }
}
