/**
  Bytes, .NET integer widths and the little-endian readers the bitmap codec
  relies on (BinaryReader.ReadInt32, BitConverter.ToUInt16, the int32
  arithmetic of the C# fields).
 */
module Bytes {

  /**
    A byte as stored in a stream or a pixel buffer. Bytes are integers: the
    masks and shifts of the source, applied to non-negative values, are
    written as remainder and division by powers of two.
   */
  type byte = x: int | 0 <= x < 0x100

  /** An unsigned 16-bit value (BitConverter.ToUInt16). */
  type uint16 = x: int | 0 <= x < 0x1_0000

  const Int32Min: int := -0x8000_0000
  const Int32Max: int := 0x7FFF_FFFF

  /** A C# `int`. */
  type int32 = x: int | Int32Min <= x <= Int32Max

  datatype Option<+T> = None | Some(value: T)

  /** The exceptions the modelled code can raise, named after their .NET types. */
  datatype Error =
    | NullReference     // dereferencing a null reader
    | ArgumentNull      // new MemoryStream(null)
    | EndOfStream       // a BinaryReader read past the end of its stream
    | IndexOutOfRange   // an array index past its end (see Dxt for BitConverter's variants)
    | InvalidBitmapSize // new Bitmap(w, h) with w <= 0 or h <= 0
    | InvalidData       // DeflateStream rejecting its input
    | Overflow          // allocating an array of negative length

  datatype Result<+T> = Ok(value: T) | Err(error: Error)

  /** Unchecked C# int32 arithmetic: reduce an integer into the int32 range. */
  function WrapInt32(v: int): (r: int32)
    ensures (r - v) % 0x1_0000_0000 == 0
    ensures Int32Min <= v <= Int32Max ==> r == v
  {
    (v - Int32Min) % 0x1_0000_0000 + Int32Min
  }

  /** `ReadInt32() - 1` evaluated in unchecked int32 arithmetic. */
  function Pred32(v: int32): (r: int32)
    ensures v > Int32Min ==> r == v - 1
    ensures v == Int32Min ==> r == Int32Max
  {
    WrapInt32(v - 1)
  }

  /**
    BinaryReader.ReadInt32 on four bytes: little-endian two's complement,
    the top byte carrying the sign.
   */
  function Int32At(s: seq<byte>, p: nat): (v: int32)
    requires p + 4 <= |s|
    ensures v >= 0 <==> s[p + 3] < 0x80
  {
    var b0: int, b1: int, b2: int, b3: int := s[p], s[p + 1], s[p + 2], s[p + 3];
    var low := b0 + 0x100 * b1 + 0x1_0000 * b2;
    if b3 < 0x80 then low + 0x100_0000 * b3 else low + 0x100_0000 * (b3 - 0x100)
  }

  /** Multiplication by a natural number is monotonic. */
  lemma {:induction false} MulLe(a: nat, b: nat, c: nat)
    requires a <= b
    ensures a * c <= b * c
  {
    if c > 0 {
      MulLe(a, b, c - 1);
      assert a * c == a * (c - 1) + a;
      assert b * c == b * (c - 1) + b;
    }
  }

  /** Euclidean division: v is the quotient times d plus the remainder. */
  lemma DivIdentity(v: nat, d: nat)
    requires d > 0
    ensures v == v % d + d * (v / d) && 0 <= v % d < d
  {
  }

  /** Quotient and remainder are determined by any decomposition v == q * d + r with 0 <= r < d. */
  lemma DivMod(v: nat, d: nat, q: nat, r: nat)
    requires d > 0 && v == q * d + r && r < d
    ensures v / d == q && v % d == r
  {
    var q', r' := v / d, v % d;
    if q' < q {
      MulLe(q' + 1, q, d);
      assert false;
    } else if q < q' {
      MulLe(q + 1, q', d);
      assert false;
    }
  }

  /** BinaryWriter.Write(int): the four little-endian bytes of a non-negative int32. */
  function Int32LE(v: nat): (r: seq<byte>)
    requires v <= Int32Max
    ensures |r| == 4
    ensures Int32At(r, 0) == v
  {
    var q1 := v / 0x100;
    var q2 := q1 / 0x100;
    var q3 := q2 / 0x100;
    [v % 0x100, q1 % 0x100, q2 % 0x100, q3]
  }

  /** BitConverter.ToUInt16: two little-endian bytes. */
  function UInt16At(s: seq<byte>, p: nat): (v: uint16)
    requires p + 2 <= |s|
    ensures v % 0x100 == s[p] && v / 0x100 == s[p + 1]
  {
    s[p] as int + 0x100 * (s[p + 1] as int)
  }

  /** 2 to the power k. */
  function Pow2(k: nat): (p: nat)
    ensures p >= 1
  {
    if k == 0 then 1 else 2 * Pow2(k - 1)
  }

  /** `n` zero bytes: the contents of a freshly allocated .NET byte array. */
  function Zeros(n: nat): (r: seq<byte>)
    ensures |r| == n
    ensures forall k :: 0 <= k < n ==> r[k] == 0
  {
    seq(n, _ => 0)
  }
}
