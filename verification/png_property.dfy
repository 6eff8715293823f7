/**
  The WzPngProperty object as a state machine: its fields, the file stream
  it reads lazily, and the operations that fetch, decode, cache and replace
  the compressed bitmap. Every operation returns the object as it stands
  afterwards together with its result or the exception it throws.
 */
module PngProperty {
  import opened Bytes
  import opened Bitmaps
  import PixelFormats
  import Framing

  // ---------------------------------------------------------------------------
  // The file stream

  /** The reader's underlying stream: its bytes and the current position (which may lie past the end). */
  datatype Stream = Stream(data: seq<byte>, position: nat)

  /** What a read leaves: its value or exception, and the stream after it. */
  datatype Read<T> = Read(result: Result<T>, stream: Stream)

  /** BinaryReader.ReadByte. */
  function ReadByte(st: Stream): (r: Read<byte>)
    ensures r.stream.data == st.data
    ensures r.result.Ok? <==> st.position < |st.data|
    ensures r.result.Ok? ==> r.result.value == st.data[st.position] && r.stream.position == st.position + 1
  {
    if st.position < |st.data| then Read(Ok(st.data[st.position]), st.(position := st.position + 1))
    else Read(Err(EndOfStream), st)
  }

  /**
    BinaryReader.ReadInt32: four bytes little-endian. With fewer than four
    bytes left it consumes what is left and throws EndOfStream.
   */
  function ReadInt32(st: Stream): (r: Read<int32>)
    ensures r.stream.data == st.data
    ensures r.result.Ok? <==> st.position + 4 <= |st.data|
    ensures r.result.Ok? ==> r.result.value == Int32At(st.data, st.position) && r.stream.position == st.position + 4
  {
    if st.position + 4 <= |st.data| then Read(Ok(Int32At(st.data, st.position)), st.(position := st.position + 4))
    else Read(Err(EndOfStream), st.(position := if st.position < |st.data| then |st.data| else st.position))
  }

  /** `bytes` is what a read of `count` bytes from `from` yields: the bytes there, cut short at the end of `data`. */
  predicate StoredBlock(data: seq<byte>, from: nat, count: nat, bytes: seq<byte>)
  {
    |bytes| == (if from + count <= |data| then count else if from <= |data| then |data| - from else 0)
    && forall k :: 0 <= k < |bytes| ==> from + k < |data| && bytes[k] == data[from + k]
  }

  /** BinaryReader.ReadBytes: up to `count` bytes, fewer at the end of the stream, never an exception. */
  function ReadBytes(st: Stream, count: nat): (r: Read<seq<byte>>)
    ensures r.result.Ok? && r.stream.data == st.data
    ensures StoredBlock(st.data, st.position, count, r.result.value)
    ensures r.stream.position == st.position + |r.result.value|
  {
    var from := st.position;
    if |st.data| <= from then Read(Ok([]), st)
    else
      var to := if from + count <= |st.data| then from + count else |st.data|;
      Read(Ok(st.data[from..to]), st.(position := to))
  }

  // ---------------------------------------------------------------------------
  // The property

  /**
    The fields of a WzPngProperty. `reader` is the WzBinaryReader (None:
    null); `compressed` and `png` are the two caches.
   */
  datatype Property = Property(
    width: int, height: int, format: int, format2: int,
    offs: nat, listWzUsed: bool,
    compressed: Option<seq<byte>>, png: Option<Image>,
    reader: Option<Stream>)

  /** The object after an operation, and what the operation returned or threw. */
  datatype Outcome<T> = Outcome(obj: Property, result: Result<T>)

  /** `new WzPngProperty()`: every field zero, false or null. */
  function Blank(): (p: Property)
    ensures p.compressed.None? && p.png.None? && p.reader.None? && !p.listWzUsed
  {
    Property(0, 0, 0, 0, 0, false, None, None, None)
  }

  /** The Format getter: the sum of the two format fields, in int32 arithmetic. */
  function Format(p: Property): (f: int32)
    ensures (f - (p.format + p.format2)) % 0x1_0000_0000 == 0
    ensures Int32Min <= p.format + p.format2 <= Int32Max ==> f == p.format + p.format2
  {
    WrapInt32(p.format + p.format2)
  }

  /**
    The Format setter: the value goes to `format`, and `format2` becomes 0,
    so the getter reads back what was set whatever `format2` held before.
   */
  function SetFormat(p: Property, value: int32): (q: Property)
    ensures Format(q) == value && q.format2 == 0
    ensures q.(format := p.format, format2 := p.format2) == p
  {
    p.(format := value, format2 := 0)
  }

  // ---------------------------------------------------------------------------
  // Construction from a file

  /**
    The internal constructor, entered with `reader` just past the three
    compressed ints (width, height, format), which are given. It reads
    `format2`, skips 4 bytes, records `offs`, reads the length field
    L (len = L - 1) and skips one more byte. Lazily it then skips the len
    bytes; eagerly (`parseNow`) it reads them through `wzReader`, which is
    still null at that point, so it throws.
   */
  function Load(width: int, height: int, format: int, st: Stream, parseNow: bool): (r: Result<Property>)
    ensures r == Err(EndOfStream) <==> st.position + 9 > |st.data|
    ensures st.position + 9 <= |st.data| ==>
      (r.Err? <==> parseNow && RecordLength(st.data, st.position + 5) > 0)
    ensures r.Ok? ==>
      r.value.compressed.None? && r.value.png.None? && r.value.reader.Some? && !r.value.listWzUsed
      && r.value.width == width && r.value.height == height && r.value.format == format
      && r.value.offs == st.position + 5 && r.value.reader.value.data == st.data
  {
    var b := ReadByte(st);
    if b.result.Err? then Err(b.result.error)
    else
      var st1 := b.stream.(position := b.stream.position + 4);
      var n := ReadInt32(st1);
      if n.result.Err? then Err(n.result.error)
      else
        var len := Pred32(n.result.value);
        var st2 := n.stream.(position := n.stream.position + 1);
        if len > 0 && parseNow then Err(NullReference)
        else
          var st3 := if len > 0 then st2.(position := st2.position + len) else st2;
          Ok(Property(width, height, format, b.result.value, st1.position, false, None, None, Some(st3)))
  }

  /** The length field of the record at `offs`, as the constructor and the fetches read it. */
  function RecordLength(data: seq<byte>, offs: nat): int32
    requires offs + 4 <= |data|
  {
    Pred32(Int32At(data, offs))
  }

  /**
    The lazy constructor records `offs` 5 bytes past its start and leaves the
    stream just past the record: offs + 5, plus len when len is positive.
   */
  lemma LoadLazyPosition(width: int, height: int, format: int, st: Stream)
    requires st.position + 9 <= |st.data|
    ensures var r := Load(width, height, format, st, false);
      var len := RecordLength(st.data, st.position + 5);
      r.Ok? && r.value.offs == st.position + 5 && r.value.format2 == st.data[st.position]
      && r.value.reader == Some(st.(position := r.value.offs + 5 + (if len > 0 then len else 0)))
  {
  }

  /** As written, the eager constructor throws whenever the record holds any bytes. */
  lemma LoadEagerThrows(width: int, height: int, format: int, st: Stream)
    requires st.position + 9 <= |st.data| && RecordLength(st.data, st.position + 5) > 0
    ensures Load(width, height, format, st, true) == Err(NullReference)
  {
  }

  /** A one-byte record: the eager constructor throws on it. */
  lemma LoadEagerExample()
    ensures Load(1, 1, 2, Stream([0, 0, 0, 0, 0, 2, 0, 0, 0, 0, 0x78], 0), true) == Err(NullReference)
  {
    LoadEagerThrows(1, 1, 2, Stream([0, 0, 0, 0, 0, 2, 0, 0, 0, 0, 0x78], 0));
  }

  /**
    The constructor as evidently intended: the eager path reads the len
    bytes through the reader it was given and parses them at once.
   */
  function LoadCorrected(width: int, height: int, format: int, st: Stream, parseNow: bool,
                         inflate: seq<byte> -> Option<seq<byte>>, key: Framing.Key): (r: Result<Property>)
    ensures r.Ok? ==> r.value.reader.Some?
  {
    var b := ReadByte(st);
    if b.result.Err? then Err(b.result.error)
    else
      var st1 := b.stream.(position := b.stream.position + 4);
      var n := ReadInt32(st1);
      if n.result.Err? then Err(n.result.error)
      else
        var len := Pred32(n.result.value);
        var st2 := n.stream.(position := n.stream.position + 1);
        if len > 0 && parseNow then
          var bytes := ReadBytes(st2, len);
          var p := Property(width, height, format, b.result.value, st1.position, false,
                            Some(bytes.result.value), None, None);
          var q := ParsePng(p, inflate, key);
          if q.result.Err? then Err(q.result.error)
          else Ok(q.obj.(reader := Some(bytes.stream)))
        else
          var st3 := if len > 0 then st2.(position := st2.position + len) else st2;
          Ok(Property(width, height, format, b.result.value, st1.position, false, None, None, Some(st3)))
  }

  /** The corrected lazy path is the lazy path as written. */
  lemma LoadCorrectedLazy(width: int, height: int, format: int, st: Stream,
                          inflate: seq<byte> -> Option<seq<byte>>, key: Framing.Key)
    ensures LoadCorrected(width, height, format, st, false, inflate, key) == Load(width, height, format, st, false)
  {
  }

  /**
    Parsing eagerly decodes exactly the bitmap a lazily loaded property
    decodes on its first GetPNG.
   */
  lemma EagerMatchesLazy(width: int, height: int, format: int, st: Stream,
                         inflate: seq<byte> -> Option<seq<byte>>, key: Framing.Key)
    requires st.position + 9 <= |st.data| && RecordLength(st.data, st.position + 5) > 0
    requires LoadCorrected(width, height, format, st, true, inflate, key).Ok?
    ensures Load(width, height, format, st, false).Ok?
    ensures GetPNG(Load(width, height, format, st, false).value, true, inflate, key).result
      == Ok(LoadCorrected(width, height, format, st, true, inflate, key).value.png)
  {
    var p0 := Load(width, height, format, st, false).value;
    var s0 := p0.reader.value;
    var len := RecordLength(st.data, p0.offs);
    var bytes := ReadBytes(Stream(st.data, p0.offs + 5), len).result.value;
    assert Fetch(s0, p0.offs).result == Ok(Some(bytes));
    var p := Property(width, height, format, st.data[st.position], p0.offs, false, Some(bytes), None, None);
    ParsePngIgnoresReader(p, Some(Fetch(s0, p0.offs).stream), inflate, key);
  }

  /** ParsePng never looks at the file stream. */
  lemma ParsePngIgnoresReader(p: Property, reader: Option<Stream>, inflate: seq<byte> -> Option<seq<byte>>, key: Framing.Key)
    ensures ParsePng(p.(reader := reader), inflate, key).result == ParsePng(p, inflate, key).result
    ensures ParsePng(p.(reader := reader), inflate, key).obj == ParsePng(p, inflate, key).obj.(reader := reader)
  {
    if p.compressed.Some? && |p.compressed.value| >= 2 {
      var c := p.compressed.value;
      var p1 := p.(listWzUsed := Framing.Obfuscated(c));
      var q1 := p.(reader := reader).(listWzUsed := Framing.Obfuscated(c));
      assert q1 == p1.(reader := reader);
      assert Format(q1) == Format(p1);
    }
  }

  // ---------------------------------------------------------------------------
  // Lazy fetch

  /**
    Seek to `offs`, read the length field L, skip the pad byte, and read
    len = L - 1 bytes when len is positive (None otherwise).
   */
  function Fetch(st: Stream, offs: nat): (r: Read<Option<seq<byte>>>)
    ensures r.stream.data == st.data
    ensures r.result.Ok? <==> offs + 4 <= |st.data|
    ensures r.result.Err? ==> r.result.error == EndOfStream
    ensures r.result.Ok? ==> var len := RecordLength(st.data, offs);
      (len <= 0 ==> r.result.value.None?)
      && (len > 0 ==> r.result.value.Some? && StoredBlock(st.data, offs + 5, len, r.result.value.value))
  {
    var n := ReadInt32(st.(position := offs));
    if n.result.Err? then Read(Err(n.result.error), n.stream)
    else
      var len := Pred32(n.result.value);
      var st1 := n.stream.(position := n.stream.position + 1);
      if len > 0 then
        var bytes := ReadBytes(st1, len);
        Read(Ok(Some(bytes.result.value)), bytes.stream)
      else Read(Ok(None), st1)
  }

  /**
    GetCompressedBytes: the cached bytes if any; otherwise the record at
    `offs`, read with the stream position saved and restored, and kept in
    the cache only when `save` is set.
   */
  function GetCompressedBytes(p: Property, save: bool): (o: Outcome<Option<seq<byte>>>)
    ensures p.compressed.Some? ==> o == Outcome(p, Ok(p.compressed))
    ensures p.compressed.None? && p.reader.None? ==> o == Outcome(p, Err(NullReference))
    ensures p.compressed.None? && p.reader.Some? ==>
      var st := p.reader.value;
      (o.result.Ok? <==> p.offs + 4 <= |st.data|)
      && (o.result.Ok? ==> o.obj == (if save then p.(compressed := o.result.value) else p)
                           && o.result.value == Fetch(st, p.offs).result.value)
      && (o.result.Err? ==> o.result.error == EndOfStream && o.obj.compressed.None? && o.obj.reader.Some? && o.obj.reader.value.data == st.data)
  {
    if p.compressed.Some? then Outcome(p, Ok(p.compressed))
    else match p.reader
      case None => Outcome(p, Err(NullReference))
      case Some(st) =>
        var f := Fetch(st, p.offs);
        if f.result.Err? then Outcome(p.(reader := Some(f.stream)), Err(f.result.error))
        else
          var restored := f.stream.(position := st.position);
          assert restored == st;
          var bytes := f.result.value;
          Outcome(p.(reader := Some(restored), compressed := if save then bytes else p.compressed), Ok(bytes))
  }

  /** Fetching with `save` set twice gives the same bytes, and the second call changes nothing. */
  lemma GetCompressedBytesIdempotent(p: Property)
    requires GetCompressedBytes(p, true).result.Ok?
    ensures var o := GetCompressedBytes(p, true);
      o.result.value.Some? ==> GetCompressedBytes(o.obj, true) == Outcome(o.obj, o.result)
  {
  }

  // ---------------------------------------------------------------------------
  // Decoding

  /**
    ParsePng: read the two-byte header of the compressed bytes, set
    `listWzUsed` from it (before anything else can fail), reassemble the
    blocks of an obfuscated image with `key`, and decode the payload by the
    format. An unknown format sets `png` to null.
   */
  function ParsePng(p: Property, inflate: seq<byte> -> Option<seq<byte>>, key: Framing.Key): (o: Outcome<Option<Image>>)
    ensures p.compressed.None? ==> o == Outcome(p, Err(ArgumentNull))
    ensures p.compressed.Some? && |p.compressed.value| < 2 ==> o == Outcome(p, Err(EndOfStream))
    ensures p.compressed.Some? && |p.compressed.value| >= 2 ==>
      o.obj.listWzUsed == Framing.Obfuscated(p.compressed.value)
      && o.obj.(listWzUsed := p.listWzUsed, png := p.png) == p
      && (o.result.Ok? ==> o.obj.png == o.result.value)
      && (o.result.Err? ==> o.obj.png == p.png)
  {
    match p.compressed
    case None => Outcome(p, Err(ArgumentNull))
    case Some(c) =>
      if |c| < 2 then Outcome(p, Err(EndOfStream))
      else
        var p1 := p.(listWzUsed := Framing.Obfuscated(c));
        match Framing.Payload(c, key)
        case Err(e) => Outcome(p1, Err(e))
        case Ok(payload) =>
          match PixelFormats.DecodeImage(Format(p1), p1.width, p1.height, payload, inflate)
          case Err(e) => Outcome(p1, Err(e))
          case Ok(img) => Outcome(p1.(png := img), Ok(img))
  }

  /**
    GetPNG: the cached bitmap if any; otherwise fetch the record at `offs`
    (keeping any cached bytes when the record is empty), parse it, and
    restore the stream position. Without `save`, both caches are cleared.
    An exception leaves the position where it happened.
   */
  function GetPNG(p: Property, save: bool, inflate: seq<byte> -> Option<seq<byte>>, key: Framing.Key): (o: Outcome<Option<Image>>)
    ensures p.png.Some? ==> o == Outcome(p, Ok(p.png))
    ensures p.png.None? && p.reader.None? ==> o == Outcome(p, Err(NullReference))
    ensures p.png.None? && o.result.Ok? ==> o.obj.reader == p.reader
    ensures p.png.None? && o.result.Ok? && !save ==> o.obj.png.None? && o.obj.compressed.None?
    ensures p.png.None? && o.result.Ok? && save ==> o.obj.png == o.result.value
  {
    if p.png.Some? then Outcome(p, Ok(p.png))
    else match p.reader
      case None => Outcome(p, Err(NullReference))
      case Some(st) =>
        var f := Fetch(st, p.offs);
        if f.result.Err? then Outcome(p.(reader := Some(f.stream)), Err(f.result.error))
        else
          var fetched := f.result.value;
          var p1 := p.(reader := Some(f.stream), compressed := if fetched.Some? then fetched else p.compressed);
          var q := ParsePng(p1, inflate, key);
          if q.result.Err? then Outcome(q.obj, Err(q.result.error))
          else
            var restored := f.stream.(position := st.position);
            assert restored == st;
            var p2 := q.obj.(reader := Some(restored));
            if save then Outcome(p2, Ok(q.result.value))
            else Outcome(p2.(png := None, compressed := None), Ok(q.result.value))
  }

  /**
    On a property with neither cache filled, GetPNG decodes the bytes
    GetCompressedBytes returns. With `save` it keeps those bytes and the
    bitmap; without, both leave the object as it was but for the list.wz
    flag ParsePng sets.
   */
  lemma GetPNGDecodesCompressedBytes(p: Property, save: bool, inflate: seq<byte> -> Option<seq<byte>>, key: Framing.Key)
    requires p.png.None? && p.compressed.None? && p.reader.Some?
    requires GetCompressedBytes(p, save).result.Ok?
    ensures !save ==> GetCompressedBytes(p, false).obj == p
    ensures var bytes := GetCompressedBytes(p, save).result.value;
      GetPNG(p, save, inflate, key).result == ParsePng(p.(compressed := bytes), inflate, key).result
    ensures var bytes := GetCompressedBytes(p, save).result.value;
      var g := GetPNG(p, save, inflate, key);
      g.result.Ok? ==>
        bytes.Some? && |bytes.value| >= 2
        && (save ==> g.obj == p.(listWzUsed := Framing.Obfuscated(bytes.value), compressed := bytes, png := g.result.value))
        && (!save ==> g.obj == p.(listWzUsed := Framing.Obfuscated(bytes.value)))
  {
    var st := p.reader.value;
    var f := Fetch(st, p.offs);
    ParsePngIgnoresReader(p.(compressed := f.result.value), Some(f.stream), inflate, key);
  }

  // ---------------------------------------------------------------------------
  // Encoding

  /** The buffer CompressPng deflates: the pixels as B, G, R, A rows, then as many zero bytes again. */
  function PixelBuffer(pixels: seq<byte>): (buf: seq<byte>)
    ensures |buf| == 2 * |pixels| && buf[..|pixels|] == pixels
    ensures forall k :: |pixels| <= k < |buf| ==> buf[k] == 0
  {
    var buf := pixels + Zeros(|pixels|);
    assert buf[..|pixels|] == pixels;
    buf
  }

  /**
    The loop of CompressPng: a `w * h * 8` byte buffer, filled row by row
    with the B, G, R, A bytes of each pixel by Bitmap.GetPixel.
   */
  method LayoutPixels(pixels: seq<byte>, width: int, height: int) returns (buf: seq<byte>)
    requires width >= 0 && height >= 0 && |pixels| == width * height * 4
    ensures buf == PixelBuffer(pixels)
  {
    buf := Zeros(2 * |pixels|);
    var curPos := 0;
    var i := 0;
    while i < height
      invariant 0 <= i <= height && curPos == (i * width) * 4 && curPos <= |pixels|
      invariant |buf| == 2 * |pixels|
      invariant forall k :: 0 <= k < curPos ==> buf[k] == pixels[k]
      invariant forall k :: curPos <= k < |buf| ==> buf[k] == 0
    {
      var j := 0;
      while j < width
        invariant 0 <= j <= width && curPos == (i * width + j) * 4 && curPos <= |pixels|
        invariant |buf| == 2 * |pixels|
        invariant forall k :: 0 <= k < curPos ==> buf[k] == pixels[k]
        invariant forall k :: curPos <= k < |buf| ==> buf[k] == 0
      {
        assert curPos + 4 <= |pixels| by {
          PixelIndexBounds(j, i, width, height);
        }
        buf := CopyPixel(buf, pixels, width, j, i, curPos);
        curPos := curPos + 4;
        j := j + 1;
      }
      assert curPos == ((i + 1) * width) * 4;
      i := i + 1;
    }
    assert curPos == |pixels|;
    assert buf == PixelBuffer(pixels);
  }

  /** One step of the loop: pixel (x, y) goes to the next four bytes, which were still zero. */
  method CopyPixel(buf: seq<byte>, pixels: seq<byte>, width: int, x: int, y: int, pos: nat)
    returns (r: seq<byte>)
    requires pos == (y * width + x) * 4 && pos + 4 <= |pixels| && |buf| == 2 * |pixels|
    requires forall k :: 0 <= k < pos ==> buf[k] == pixels[k]
    requires forall k :: pos <= k < |buf| ==> buf[k] == 0
    ensures |r| == |buf|
    ensures forall k :: 0 <= k < pos + 4 ==> r[k] == pixels[k]
    ensures forall k :: pos + 4 <= k < |r| ==> r[k] == 0
  {
    var c := PixelAt(pixels, width, x, y);
    r := buf[pos := c[0]][pos + 1 := c[1]][pos + 2 := c[2]][pos + 3 := c[3]];
  }

  /** The bitmaps CompressPng accepts here: a 32-bit bitmap whose compressed form fits in a .NET array. */
  predicate Compressible(bmp: Image, deflate: seq<byte> -> seq<byte>)
  {
    WellFormed(bmp) && bmp.layout == Argb32
    && |Framing.Compress(PixelBuffer(bmp.pixels), deflate)| <= Int32Max
  }

  /**
    CompressPng: deflate the pixel buffer behind a zlib header, force format
    2 (format2 0) and the bitmap's size, and, for a list.wz image, wrap the
    result in the two XORed blocks (with the GMS key) and store the whole
    buffer of the MemoryStream they were written to, unused capacity
    included.
   */
  function CompressPng(p: Property, bmp: Image, deflate: seq<byte> -> seq<byte>, gmsKey: Framing.Key): (q: Property)
    requires Compressible(bmp, deflate)
    ensures q.format == 2 && q.format2 == 0 && Format(q) == 2
    ensures q.width == bmp.width && q.height == bmp.height
    ensures q.listWzUsed == p.listWzUsed && q.png == p.png && q.reader == p.reader && q.offs == p.offs
    ensures q.compressed.Some? && |q.compressed.value| >= 2
    ensures Framing.Obfuscated(q.compressed.value) <==> p.listWzUsed
    ensures !p.listWzUsed ==> q.compressed.value == Framing.Compress(PixelBuffer(bmp.pixels), deflate)
  {
    var c := Framing.Compress(PixelBuffer(bmp.pixels), deflate);
    var stored := if p.listWzUsed then Framing.WrapAsWritten(c, gmsKey) else c;
    p.(format := 2, format2 := 0, width := bmp.width, height := bmp.height, compressed := Some(stored))
  }

  /**
    Compressing a bitmap and parsing the result back, with a DEFLATE pair
    that round-trips the buffer and the key the bytes were wrapped with: a
    plain image, or a list.wz image whose compressed length is a multiple
    of 4, gives back the same bitmap and keeps the list.wz flag; any other
    list.wz image fails with EndOfStream on the zero padding.
   */
  lemma CompressPngRoundTrip(p: Property, bmp: Image, deflate: seq<byte> -> seq<byte>,
                             inflate: seq<byte> -> Option<seq<byte>>, key: Framing.Key)
    requires Compressible(bmp, deflate)
    requires inflate(deflate(PixelBuffer(bmp.pixels))) == Some(PixelBuffer(bmp.pixels))
    ensures var q := CompressPng(p, bmp, deflate, key);
      var c := Framing.Compress(PixelBuffer(bmp.pixels), deflate);
      (!p.listWzUsed || |c| % 4 == 0 ==> ParsePng(q, inflate, key) == Outcome(q.(png := Some(bmp)), Ok(Some(bmp))))
      && (p.listWzUsed && |c| % 4 != 0 ==> ParsePng(q, inflate, key) == Outcome(q, Err(EndOfStream)))
  {
    var buf := PixelBuffer(bmp.pixels);
    var c := Framing.Compress(buf, deflate);
    var q := CompressPng(p, bmp, deflate, key);
    if p.listWzUsed {
      Framing.WrapAsWrittenDefect(c, key);
    }
    if !p.listWzUsed || |c| % 4 == 0 {
      assert Framing.Payload(q.compressed.value, key) == Ok(deflate(buf));
      var n := bmp.width * bmp.height * 4;
      assert PixelFormats.ReadFill(buf, n) == bmp.pixels;
    }
  }

  /** CompressPng as evidently intended: a list.wz image stores the two blocks and nothing after them. */
  function CompressPngCorrected(p: Property, bmp: Image, deflate: seq<byte> -> seq<byte>, gmsKey: Framing.Key): (q: Property)
    requires Compressible(bmp, deflate)
    ensures q.format == 2 && q.format2 == 0 && Format(q) == 2
    ensures q.width == bmp.width && q.height == bmp.height
    ensures q.listWzUsed == p.listWzUsed && q.png == p.png && q.reader == p.reader && q.offs == p.offs
    ensures q.compressed.Some? && |q.compressed.value| >= 2
    ensures Framing.Obfuscated(q.compressed.value) <==> p.listWzUsed
    ensures !p.listWzUsed ==> q.compressed.value == Framing.Compress(PixelBuffer(bmp.pixels), deflate)
  {
    var c := Framing.Compress(PixelBuffer(bmp.pixels), deflate);
    var stored := if p.listWzUsed then Framing.Wrap(c, gmsKey) else c;
    p.(format := 2, format2 := 0, width := bmp.width, height := bmp.height, compressed := Some(stored))
  }

  /**
    With the corrected framing every compressed bitmap parses back to
    itself, plain or list.wz, and keeps the list.wz flag.
   */
  lemma CompressPngCorrectedRoundTrip(p: Property, bmp: Image, deflate: seq<byte> -> seq<byte>,
                                      inflate: seq<byte> -> Option<seq<byte>>, key: Framing.Key)
    requires Compressible(bmp, deflate)
    requires inflate(deflate(PixelBuffer(bmp.pixels))) == Some(PixelBuffer(bmp.pixels))
    ensures var q := CompressPngCorrected(p, bmp, deflate, key);
      ParsePng(q, inflate, key) == Outcome(q.(png := Some(bmp)), Ok(Some(bmp)))
  {
    var buf := PixelBuffer(bmp.pixels);
    var c := Framing.Compress(buf, deflate);
    var q := CompressPngCorrected(p, bmp, deflate, key);
    assert Framing.Payload(q.compressed.value, key) == Ok(deflate(buf)) by {
      if p.listWzUsed {
        Framing.WrapRoundTrip(c, key);
      }
    }
    var n := bmp.width * bmp.height * 4;
    assert PixelFormats.ReadFill(buf, n) == bmp.pixels;
  }

  /**
    SetPNG: cache the bitmap and compress it. A later GetPNG returns it
    without touching the stream.
   */
  function SetPNG(p: Property, bmp: Image, deflate: seq<byte> -> seq<byte>, gmsKey: Framing.Key): (q: Property)
    requires Compressible(bmp, deflate)
    ensures q.png == Some(bmp)
    ensures q.format == 2 && q.format2 == 0 && q.width == bmp.width && q.height == bmp.height
    ensures q.compressed == CompressPng(p, bmp, deflate, gmsKey).compressed
    ensures forall save, inflate, key :: GetPNG(q, save, inflate, key) == Outcome(q, Ok(Some(bmp)))
  {
    CompressPng(p.(png := Some(bmp)), bmp, deflate, gmsKey)
  }

  // ---------------------------------------------------------------------------
  // The ListWzUsed setter

  /** The unit result of an operation that returns nothing. */
  datatype Done = Done

  /** The bitmap GetPNG(false) decodes, if any, is one CompressPng accepts here. */
  predicate Recodable(p: Property, inflate: seq<byte> -> Option<seq<byte>>, key: Framing.Key, deflate: seq<byte> -> seq<byte>)
  {
    var g := GetPNG(p, false, inflate, key);
    g.result.Ok? && g.result.value.Some? ==> Compressible(g.result.value.value, deflate)
  }

  /**
    The ListWzUsed setter as written: on a change it stores the new flag,
    then decodes the bitmap with GetPNG(false) and compresses it again (a
    null bitmap makes CompressPng throw).
   */
  function SetListWzUsed(p: Property, value: bool, inflate: seq<byte> -> Option<seq<byte>>, key: Framing.Key,
                         deflate: seq<byte> -> seq<byte>, gmsKey: Framing.Key): (o: Outcome<Done>)
    requires value == p.listWzUsed || Recodable(p.(listWzUsed := value), inflate, key, deflate)
    ensures value == p.listWzUsed ==> o == Outcome(p, Ok(Done))
    ensures o.result.Ok? && value != p.listWzUsed ==>
      o.obj.compressed.Some? && |o.obj.compressed.value| >= 2
      && (Framing.Obfuscated(o.obj.compressed.value) <==> o.obj.listWzUsed)
  {
    if value == p.listWzUsed then Outcome(p, Ok(Done))
    else
      var g := GetPNG(p.(listWzUsed := value), false, inflate, key);
      match g.result
      case Err(e) => Outcome(g.obj, Err(e))
      case Ok(None) => Outcome(g.obj, Err(NullReference))
      case Ok(Some(bmp)) => Outcome(CompressPng(g.obj, bmp, deflate, gmsKey), Ok(Done))
  }

  /**
    When the bitmap is not cached, the GetPNG inside the setter parses the
    stored bytes, and ParsePng overwrites the new flag with the one the
    stored header implies: whatever value is set, the flag and the framing
    of the re-compressed bytes stay those of the stored record.
   */
  lemma SetListWzUsedReverts(p: Property, value: bool, inflate: seq<byte> -> Option<seq<byte>>, key: Framing.Key,
                             deflate: seq<byte> -> seq<byte>, gmsKey: Framing.Key)
    requires p.png.None? && p.compressed.None? && p.reader.Some? && value != p.listWzUsed
    requires Recodable(p.(listWzUsed := value), inflate, key, deflate)
    requires SetListWzUsed(p, value, inflate, key, deflate, gmsKey).result.Ok?
    ensures var stored := Fetch(p.reader.value, p.offs).result;
      var o := SetListWzUsed(p, value, inflate, key, deflate, gmsKey);
      stored.Ok? && stored.value.Some? && |stored.value.value| >= 2
      && o.obj.listWzUsed == Framing.Obfuscated(stored.value.value)
      && (Framing.Obfuscated(o.obj.compressed.value) <==> Framing.Obfuscated(stored.value.value))
  {
  }

  /**
    The setter as evidently intended: decode the bitmap first, then store
    the new flag and compress with it.
   */
  function SetListWzUsedCorrected(p: Property, value: bool, inflate: seq<byte> -> Option<seq<byte>>, key: Framing.Key,
                                  deflate: seq<byte> -> seq<byte>, gmsKey: Framing.Key): (o: Outcome<Done>)
    requires value == p.listWzUsed || Recodable(p, inflate, key, deflate)
    ensures value == p.listWzUsed ==> o == Outcome(p, Ok(Done))
    ensures o.result.Ok? ==> o.obj.listWzUsed == value
    ensures o.result.Ok? && value != p.listWzUsed ==>
      o.obj.compressed.Some? && |o.obj.compressed.value| >= 2
      && (Framing.Obfuscated(o.obj.compressed.value) <==> value)
  {
    if value == p.listWzUsed then Outcome(p, Ok(Done))
    else
      var g := GetPNG(p, false, inflate, key);
      match g.result
      case Err(e) => Outcome(g.obj, Err(e))
      case Ok(None) => Outcome(g.obj, Err(NullReference))
      case Ok(Some(bmp)) => Outcome(CompressPng(g.obj.(listWzUsed := value), bmp, deflate, gmsKey), Ok(Done))
  }
}
