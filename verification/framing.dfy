/**
  The framing of a property's compressed bytes. A plain image is a zlib
  stream: a two-byte zlib header and the DEFLATE data after it. An
  obfuscated ("list.wz") image is a sequence of blocks, each a little-endian
  int32 size and that many bytes XORed with the WZ key from its start; the
  blocks joined together are the zlib stream.
 */
module Framing {
  import opened Bytes

  // ---------------------------------------------------------------------------
  // Bitwise exclusive or on naturals

  /** Bitwise exclusive or, one binary digit at a time from the least significant. */
  function Xor(a: nat, b: nat): nat
    decreases a + b
  {
    if a == 0 && b == 0 then 0 else (a % 2 + b % 2) % 2 + 2 * Xor(a / 2, b / 2)
  }

  /** The lowest digit of a ^ b is the sum of the lowest digits mod 2, and the rest is the xor of the rest. */
  lemma XorDigits(a: nat, b: nat)
    ensures Xor(a, b) % 2 == (a % 2 + b % 2) % 2
    ensures Xor(a, b) / 2 == Xor(a / 2, b / 2)
  {
    if a == 0 && b == 0 {
      assert a / 2 == 0 && b / 2 == 0;
    } else {
      DivMod(Xor(a, b), 2, Xor(a / 2, b / 2), (a % 2 + b % 2) % 2);
    }
  }

  /** Adding the same binary digit twice, mod 2, gives back the first. */
  lemma BitTwice(p: int, q: int)
    requires 0 <= p < 2 && 0 <= q < 2
    ensures ((p + q) % 2 + q) % 2 == p
  {
    if p == 0 && q == 0 {
      assert ((p + q) % 2 + q) % 2 == 0;
    } else if p == 0 {
      assert (p + q) % 2 == 1;
    } else if q == 0 {
      assert (p + q) % 2 == 1;
    } else {
      assert (p + q) % 2 == 0;
    }
  }

  /** XORing twice with the same value gives back the original. */
  lemma {:induction false} XorInvolution(a: nat, k: nat)
    ensures Xor(Xor(a, k), k) == a
    decreases a + k
  {
    var r := Xor(a, k);
    var x := Xor(r, k);
    assert x % 2 == a % 2 by {
      XorDigits(a, k);
      XorDigits(r, k);
      BitTwice(a % 2, k % 2);
    }
    assert x / 2 == a / 2 by {
      XorDigits(a, k);
      XorDigits(r, k);
      if a + k > 0 {
        XorInvolution(a / 2, k / 2);
      }
    }
    DivIdentity(x, 2);
    DivIdentity(a, 2);
  }

  /** XOR with k leaves a number unchanged exactly when k is zero. */
  lemma {:induction false} XorIdentity(a: nat, k: nat)
    ensures Xor(a, k) == a <==> k == 0
    decreases a + k
  {
    XorDigits(a, k);
    if k == 0 {
      if a > 0 {
        XorIdentity(a / 2, 0);
      }
      DivIdentity(Xor(a, k), 2);
      DivIdentity(a, 2);
    } else if Xor(a, k) == a {
      XorIdentity(a / 2, k / 2);
      DivIdentity(k, 2);
    }
  }

  /** Two numbers of at most n binary digits have a xor of at most n digits. */
  lemma {:induction false} XorBound(a: nat, b: nat, n: nat)
    requires a < Pow2(n) && b < Pow2(n)
    ensures Xor(a, b) < Pow2(n)
  {
    if n > 0 && (a > 0 || b > 0) {
      XorBound(a / 2, b / 2, n - 1);
    }
  }

  /** `(byte) (a ^ k)`: the xor of two bytes is a byte. */
  function XorByte(a: byte, k: byte): byte
  {
    assert Pow2(8) == 0x100;
    XorBound(a, k, 8);
    Xor(a, k)
  }

  // ---------------------------------------------------------------------------
  // The WZ key

  /**
    The WZ key stream: WzMutableKey grows on demand, so every index has a
    key byte. Its generation from the IV is not part of this model.
   */
  type Key = nat -> byte

  /**
    Byte i of the key stream. A named function rather than `key(i)` so that
    a key byte inside a sequence comprehension is known to be a byte and the
    solver has a term to trigger on.
   */
  function KeyByte(key: Key, i: nat): byte
  {
    key(i)
  }

  /** A block XORed with the key from its first byte. */
  function XorKey(s: seq<byte>, key: Key): (r: seq<byte>)
    ensures |r| == |s|
    ensures forall i :: 0 <= i < |s| ==> (r[i] == s[i] <==> KeyByte(key, i) == 0)
  {
    var r := seq(|s|, i requires 0 <= i < |s| => XorByte(s[i], KeyByte(key, i)));
    forall i | 0 <= i < |s|
      ensures r[i] == s[i] <==> KeyByte(key, i) == 0
    {
      XorIdentity(s[i], KeyByte(key, i));
    }
    r
  }

  /** XORing a block with the key twice gives it back. */
  lemma XorKeyInvolution(s: seq<byte>, key: Key)
    ensures XorKey(XorKey(s, key), key) == s
  {
    var r := XorKey(XorKey(s, key), key);
    forall i | 0 <= i < |s|
      ensures r[i] == s[i]
    {
      XorInvolution(s[i], key(i));
      assert r[i] == XorByte(XorByte(s[i], KeyByte(key, i)), KeyByte(key, i));
    }
  }

  // ---------------------------------------------------------------------------
  // Reading the compressed bytes

  /** The first two bytes as BinaryReader.ReadUInt16 sees them. */
  function Header(c: seq<byte>): (h: uint16)
    requires |c| >= 2
    ensures h % 0x100 == c[0] && h / 0x100 == c[1]
  {
    UInt16At(c, 0)
  }

  /** The four zlib headers ParsePng accepts as a plain stream (written as little-endian words). */
  predicate IsZlibHeader(h: int)
  {
    h == 0x9C78 || h == 0xDA78 || h == 0x0178 || h == 0x5E78
  }

  /**
    `listWzUsed` as ParsePng sets it: the bytes do not open with a known zlib
    header, that is, plain bytes are exactly those opening with 0x78 and one
    of the four zlib level bytes.
   */
  predicate Obfuscated(c: seq<byte>)
    requires |c| >= 2
    ensures !Obfuscated(c) <==> c[0] == 0x78 && (c[1] == 0x9C || c[1] == 0xDA || c[1] == 0x01 || c[1] == 0x5E)
  {
    DivIdentity(Header(c), 0x100);
    !IsZlibHeader(Header(c))
  }

  /**
    The blocks of an obfuscated image, from the start of `s` to its end,
    XORed and joined. A negative size reads no bytes. A size or a block that
    runs past the end is EndOfStream.
   */
  function Reassemble(s: seq<byte>, key: Key): (r: Result<seq<byte>>)
    ensures r.Ok? ==> |r.value| <= |s|
    decreases |s|
  {
    if s == [] then Ok([])
    else if |s| < 4 then Err(EndOfStream)
    else
      var size := Int32At(s, 0);
      var n := if size < 0 then 0 else size;
      if 4 + n > |s| then Err(EndOfStream)
      else match Reassemble(s[4 + n..], key)
        case Ok(rest) => Ok(XorKey(s[4..4 + n], key) + rest)
        case Err(e) => Err(e)
  }

  /** Each block read costs its 4-byte size field: a reassembly is shorter than its input by a multiple of 4. */
  lemma {:induction false} ReassembleLength(s: seq<byte>, key: Key)
    ensures Reassemble(s, key).Ok? ==> (|s| - |Reassemble(s, key).value|) % 4 == 0
    decreases |s|
  {
    if |s| >= 4 {
      var size := Int32At(s, 0);
      var n := if size < 0 then 0 else size;
      if 4 + n <= |s| {
        var tail := Reassemble(s[4 + n..], key);
        ReassembleLength(s[4 + n..], key);
        if tail.Ok? {
          var d: nat := |s[4 + n..]| - |tail.value|;
          assert |s| - |Reassemble(s, key).value| == 4 + d by {
            assert Reassemble(s, key) == Ok(XorKey(s[4..4 + n], key) + tail.value);
          }
          DivIdentity(d, 4);
          DivMod(4 + d, 4, d / 4 + 1, 0);
        }
      }
    }
  }

  /** A block behind a size field holding its exact length reads back as its unXORed bytes, followed by the blocks after it. */
  lemma ReassembleBlock(size: seq<byte>, block: seq<byte>, rest: seq<byte>, key: Key)
    requires |size| == 4 && Int32At(size, 0) == |block|
    ensures Reassemble(size + (block + rest), key) ==
      match Reassemble(rest, key)
      case Ok(r) => Ok(XorKey(block, key) + r)
      case Err(e) => Err(e)
  {
    var s := size + (block + rest);
    assert Int32At(s, 0) == Int32At(size, 0);
    assert s[4..4 + |block|] == block;
    assert s[4 + |block|..] == rest;
  }

  /** Four zero bytes are an empty block: reading skips them. */
  lemma ReassembleEmptyBlock(rest: seq<byte>, key: Key)
    ensures Reassemble([0, 0, 0, 0] + rest, key) == Reassemble(rest, key)
  {
    ReassembleBlock([0, 0, 0, 0], [], rest, key);
    assert [0, 0, 0, 0] + ([] + rest) == [0, 0, 0, 0] + rest;
    match Reassemble(rest, key)
    case Ok(r) =>
      assert XorKey([], key) + r == r;
    case Err(_) =>
  }

  /** m empty blocks. */
  function EmptyBlocks(m: nat): (s: seq<byte>)
    ensures |s| == 4 * m
  {
    if m == 0 then [] else [0, 0, 0, 0] + EmptyBlocks(m - 1)
  }

  /** Empty blocks in front of a stream add nothing to it. */
  lemma {:induction false} ReassembleEmptyBlocks(m: nat, tail: seq<byte>, key: Key)
    ensures Reassemble(EmptyBlocks(m) + tail, key) == Reassemble(tail, key)
  {
    if m > 0 {
      var rest := EmptyBlocks(m - 1) + tail;
      assert EmptyBlocks(m) + tail == [0, 0, 0, 0] + rest;
      calc {
        Reassemble(EmptyBlocks(m) + tail, key);
        Reassemble([0, 0, 0, 0] + rest, key);
        { ReassembleEmptyBlock(rest, key); }
        Reassemble(rest, key);
        { ReassembleEmptyBlocks(m - 1, tail, key); }
        Reassemble(tail, key);
      }
    } else {
      assert EmptyBlocks(m) + tail == tail;
    }
  }

  /** 4m + r zero bytes are m empty blocks and r more zeros. */
  lemma {:induction false} ZerosAsBlocks(m: nat, r: nat)
    ensures Zeros(4 * m + r) == EmptyBlocks(m) + Zeros(r)
  {
    if m > 0 {
      ZerosAsBlocks(m - 1, r);
      assert Zeros(4 * m + r) == [0, 0, 0, 0] + Zeros(4 * (m - 1) + r);
    }
  }

  /** A run of zero bytes reads as empty blocks, unless its length leaves a partial size field. */
  lemma ReassembleZeros(z: nat, key: Key)
    ensures Reassemble(Zeros(z), key) == if z % 4 == 0 then Ok([]) else Err(EndOfStream)
  {
    var m, r := z / 4, z % 4;
    ZerosAsBlocks(m, r);
    ReassembleEmptyBlocks(m, Zeros(r), key);
    assert |Zeros(r)| < 4;
  }

  /**
    The DEFLATE data of the compressed bytes: what follows the zlib header of
    a plain image, or what follows the first two reassembled bytes of an
    obfuscated one (nothing when fewer than two were reassembled).
   */
  function Payload(c: seq<byte>, key: Key): (r: Result<seq<byte>>)
    requires |c| >= 2
    ensures !Obfuscated(c) ==> r == Ok(c[2..])
    ensures Obfuscated(c) && Reassemble(c, key).Err? ==> r == Err(Reassemble(c, key).error)
    ensures Obfuscated(c) && Reassemble(c, key).Ok? ==>
      var d := Reassemble(c, key).value;
      r.Ok? && (|d| >= 2 ==> r.value == d[2..]) && (|d| < 2 ==> r.value == [])
  {
    if !Obfuscated(c) then Ok(c[2..])
    else match Reassemble(c, key)
      case Ok(d) => Ok(if |d| >= 2 then d[2..] else [])
      case Err(e) => Err(e)
  }

  // ---------------------------------------------------------------------------
  // Writing the compressed bytes

  /** `Compress`: the zlib header 78 9C and the DEFLATE output after it. */
  function Compress(data: seq<byte>, deflate: seq<byte> -> seq<byte>): (c: seq<byte>)
    ensures |c| >= 2 && !Obfuscated(c)
    ensures c[..2] == [0x78, 0x9C]
    ensures c[2..] == deflate(data)
  {
    var c := [0x78, 0x9C] + deflate(data);
    c
  }

  /** Compressed bytes are plain and carry the DEFLATE output as their payload. */
  lemma CompressPayload(data: seq<byte>, deflate: seq<byte> -> seq<byte>, key: Key)
    ensures Payload(Compress(data, deflate), key) == Ok(deflate(data))
  {
  }

  /**
    The two blocks CompressPng writes for a list.wz image, followed by
    `tail`: a two-byte block holding the zlib header and one block holding
    the rest, each XORed with the key from its start.
   */
  function Blocks(c: seq<byte>, key: Key, tail: seq<byte>): (w: seq<byte>)
    requires 2 <= |c| && |c| - 2 <= Int32Max
    ensures |w| == |c| + 8 + |tail|
    ensures |w| >= 2 && Obfuscated(w)
  {
    var w := Int32LE(2) + (XorKey(c[..2], key) + (Int32LE(|c| - 2) + (XorKey(c[2..], key) + tail)));
    assert Int32LE(2) == [2, 0, 0, 0] by {
      DivMod(2, 0x100, 0, 2);
      DivMod(0, 0x100, 0, 0);
    }
    assert Header(w) == 2 by {
      assert w[0] == 2 && w[1] == 0;
    }
    w
  }

  /** Reading the two blocks back with the same key gives the compressed bytes, then whatever the tail reads as. */
  lemma ReassembleBlocks(c: seq<byte>, key: Key, tail: seq<byte>)
    requires 2 <= |c| && |c| - 2 <= Int32Max
    ensures Reassemble(Blocks(c, key, tail), key) ==
      match Reassemble(tail, key)
      case Ok(r) => Ok(c + r)
      case Err(e) => Err(e)
  {
    var a, b := XorKey(c[..2], key), XorKey(c[2..], key);
    var inner := Int32LE(|c| - 2) + (b + tail);
    assert Blocks(c, key, tail) == Int32LE(2) + (a + inner);
    assert Reassemble(inner, key) == match Reassemble(tail, key)
      case Ok(r) => Ok(XorKey(b, key) + r)
      case Err(e) => Err(e)
    by {
      ReassembleBlock(Int32LE(|c| - 2), b, tail, key);
    }
    assert Reassemble(Int32LE(2) + (a + inner), key) == match Reassemble(inner, key)
      case Ok(r) => Ok(XorKey(a, key) + r)
      case Err(e) => Err(e)
    by {
      ReassembleBlock(Int32LE(2), a, inner, key);
    }
    match Reassemble(tail, key)
    case Ok(r) =>
      assert XorKey(a, key) + (XorKey(b, key) + r) == c + r by {
        XorKeyInvolution(c[..2], key);
        XorKeyInvolution(c[2..], key);
        SplitJoin(c, 2, r);
      }
    case Err(e) =>
  }

  /** Splitting a sequence and joining the halves in front of r gives it back in front of r. */
  lemma SplitJoin(c: seq<byte>, k: nat, r: seq<byte>)
    requires k <= |c|
    ensures c[..k] + (c[k..] + r) == c + r
  {
  }

  /** The obfuscated form of the compressed bytes: the two blocks and nothing after them. */
  function Wrap(c: seq<byte>, key: Key): (w: seq<byte>)
    requires 2 <= |c| && |c| - 2 <= Int32Max
    ensures |w| == |c| + 8
    ensures Obfuscated(w)
  {
    Blocks(c, key, [])
  }

  /** Reassembling a wrapped stream with the same key gives back the compressed bytes. */
  lemma WrapRoundTrip(c: seq<byte>, key: Key)
    requires 2 <= |c| && |c| - 2 <= Int32Max
    ensures Reassemble(Wrap(c, key), key) == Ok(c)
    ensures Payload(Wrap(c, key), key) == Ok(c[2..])
  {
    ReassembleBlocks(c, key, []);
    assert c + [] == c;
  }

  /**
    The capacity of a MemoryStream after writing `n` bytes one write at a
    time: 256 on the first write, doubled whenever a write outgrows it.
   */
  function StreamCapacity(n: nat): (cap: nat)
    ensures cap >= n && cap >= 0x100 && cap % 4 == 0 && cap % 0x100 == 0
  {
    Grow(n, 0x100)
  }

  /** The doubling of a MemoryStream's capacity from `cap` until it holds n bytes. */
  function Grow(n: nat, cap: nat): (r: nat)
    requires cap >= 0x100 && cap % 4 == 0
    ensures r >= n && r >= cap && r % 4 == 0
    ensures cap % 0x100 == 0 ==> r % 0x100 == 0
    decreases n - cap
  {
    if cap >= n then cap
    else
      assert cap % 0x100 == 0 ==> 2 * cap % 0x100 == 0 by {
        if cap % 0x100 == 0 {
          DivIdentity(cap, 0x100);
          DivMod(2 * cap, 0x100, 2 * (cap / 0x100), 0);
        }
      }
      Grow(n, 2 * cap)
  }

  /**
    What CompressPng stores for a list.wz image: MemoryStream.GetBuffer,
    which is the two blocks followed by the stream's unused capacity, all
    zero.
   */
  function WrapAsWritten(c: seq<byte>, key: Key): (w: seq<byte>)
    requires 2 <= |c| && |c| - 2 <= Int32Max
    ensures |w| == StreamCapacity(|c| + 8) && w[..|c| + 8] == Wrap(c, key)
    ensures forall k :: |c| + 8 <= k < |w| ==> w[k] == 0
    ensures Obfuscated(w)
  {
    var z := Zeros(StreamCapacity(|c| + 8) - (|c| + 8));
    var w := Blocks(c, key, z);
    assert w[..|c| + 8] == Wrap(c, key);
    assert w[|c| + 8..] == z;
    w
  }

  /**
    The bytes CompressPng stores for a list.wz image read back only when the
    compressed length is a multiple of 4: otherwise the trailing zeros leave
    a partial block size and reading them is EndOfStream.
   */
  lemma WrapAsWrittenDefect(c: seq<byte>, key: Key)
    requires 2 <= |c| && |c| - 2 <= Int32Max
    ensures |c| % 4 == 0 ==> Reassemble(WrapAsWritten(c, key), key) == Ok(c)
    ensures |c| % 4 != 0 ==> Reassemble(WrapAsWritten(c, key), key) == Err(EndOfStream)
  {
    var z := StreamCapacity(|c| + 8) - (|c| + 8);
    var w := WrapAsWritten(c, key);
    assert Reassemble(w, key) == match Reassemble(Zeros(z), key) case Ok(r) => Ok(c + r) case Err(e) => Err(e) by {
      ReassembleBlocks(c, key, Zeros(z));
    }
    assert Reassemble(Zeros(z), key) == if z % 4 == 0 then Ok([]) else Err(EndOfStream) by {
      ReassembleZeros(z, key);
    }
    assert z % 4 == 0 <==> |c| % 4 == 0 by {
      PaddingAligned(|c|);
    }
    assert c + [] == c;
  }

  /** The unused capacity after n + 8 bytes is a whole number of 4-byte words exactly when n is. */
  lemma PaddingAligned(n: nat)
    ensures (StreamCapacity(n + 8) - (n + 8)) % 4 == 0 <==> n % 4 == 0
  {
    var cap := StreamCapacity(n + 8);
    DivIdentity(cap, 4);
    DivIdentity(n, 4);
    DivMod(cap - (n + 8), 4, cap / 4 - n / 4 - 2 - (if n % 4 == 0 then 0 else 1), if n % 4 == 0 then 0 else 4 - n % 4);
  }

  /** The smallest case: a three-byte zlib stream wrapped as written cannot be read back. */
  lemma WrapAsWrittenExample(key: Key)
    ensures Reassemble(WrapAsWritten([0x78, 0x9C, 0x03], key), key) == Err(EndOfStream)
  {
    WrapAsWrittenDefect([0x78, 0x9C, 0x03], key);
  }
}
