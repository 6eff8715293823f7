# WzPngProperty bitmap codec, modelled in Dafny

This project models the bitmap property of MapleLib's WZ archive reader
(`WzPngProperty`). It covers:

- how a property locates its compressed record in a WZ file and fetches it lazily;
- how the two-byte header tells a plain zlib stream from the XOR-obfuscated block framing of list.wz images, and how the blocks are reassembled;
- the per-format pixel decoders: ARGB4444 (1), BGRA32 (2), the per-tile format 3, RGB565 (513), the 1-bit format 517, DXT3 (1026) and DXT5 (2050);
- the encoder, which writes a bitmap back as format 2, optionally wrapped in the obfuscated framing.

Modules, one per file:

- `Bytes` (bytes.dfy): bytes as integers 0..255, the .NET int32 arithmetic, and the little-endian readers and writers. Masks and shifts on non-negative values are written as remainder and division by powers of two.
- `Bitmaps` (bitmaps.dfy): a decoded image is a flat B, G, R, A buffer plus its size. It also holds the row-major index geometry and `SetPixel`.
- `Dxt` (dxt.dfy): S3TC block decoding, as in section 18 ("S3TC Compressed Texture Image Formats") of the Khronos Data Format Specification. Each helper has its inverse: colour indices, alpha nibbles and the 3-bit DXT5 alpha indices repack to the raw bytes. The block walk `GetPixelData` is proved equal to a reference decoding.
- `PixelFormats` (formats.dfy): the switch of `ParsePng` on `format + format2`. The format 517 loop is proved equal to a reference raster. Format 3 keeps the code's tile value and the exact sizes on which its tile loop overruns.
- `Framing` (framing.dfy): header classification, block reassembly, zlib-style compression with the `78 9C` header, and the obfuscated writer. XOR is defined on naturals and proved to be an involution.
- `PngProperty` (png_property.dfy): the object's fields and the file stream as immutable values. It covers the constructor from a reader, GetCompressedBytes, GetPNG, ParsePng, CompressPng, SetPNG, the Format property and the ListWzUsed setter. Each operation returns the object afterwards together with its result or the .NET exception it throws (`Bytes.Error`).

External code is a parameter:

- DEFLATE is a pair of functions: `deflate`, and `inflate`, which returns `None` where DeflateStream throws `InvalidDataException`.
- The reader's XOR key (`imgParent.reader.WzKey`) and the GMS key of the writer are total functions `nat -> byte`. WzMutableKey grows on demand, so every index has a byte.
- The three compressed ints (width, height, format) read by `ReadCompressedInt` are given to the constructor.

Behaviour of the code worth knowing:

- A short inflated stream is zero-filled (`PixelFormats.ReadFill`), not rejected.
- An unknown format code leaves `png` null with no error.
- `listWzUsed` is updated before later steps of ParsePng can throw.
- An exception inside GetPNG leaves the stream position where it happened.
- Format 517 expands each bit into 16 consecutive pixels in raster order, not a 2x2 pattern.
- The DXT decoders do not clip. On dimensions that are not multiples of 4, the last block reads past the input and the decoder throws (`Dxt.LastBlockOverruns`).
- A record with L - 1 <= 0 does not decode to an empty image. GetPNG then reaches ParsePng with no bytes and throws ArgumentNull, unless compressed bytes were already cached.

## Model

| member | source | states |
|---|---|---|
| Bytes.Pred32 | MapleLib/WzLib/WzProperties/WzPngProperty.cs:184 | `ReadInt32() - 1` in int32 arithmetic: one less, except that the minimum wraps to Int32Max |
| Bytes.Int32At | MapleLib/WzLib/WzProperties/WzPngProperty.cs:184 | ReadInt32 on four little-endian bytes: the value is non-negative exactly when the top byte is below 0x80 |
| Bytes.UInt16At | MapleLib/WzLib/WzProperties/WzPngProperty.cs:560-561 | BitConverter.ToUInt16: the low byte of the value is the first byte and the high byte the second |
| Bytes.Int32LE | MapleLib/WzLib/WzProperties/WzPngProperty.cs:517-523 | BinaryWriter.Write of a non-negative int gives four bytes that ReadInt32 reads back as the same value |
| Dxt.Rgb565ToColor | MapleLib/WzLib/WzProperties/WzPngProperty.cs:703-716 | the colour is opaque and each channel is its 5- or 6-bit field bit-replicated to 8 bits: the field in the top bits and the field's own top bits below it, which puts the channel within one unit of the exact 8-bit scaling |
| Dxt.Rgb565RoundTrip | MapleLib/WzLib/WzProperties/WzPngProperty.cs:703-716 | the top 5, 6 and 5 bits of the expanded channels give back the 16-bit value |
| Dxt.Rgb565BlackWhite | MapleLib/WzLib/WzProperties/WzPngProperty.cs:703-716 | 0x0000 is opaque black and 0xFFFF opaque white |
| Dxt.ExpandColorTable | MapleLib/WzLib/WzProperties/WzPngProperty.cs:668-676 | entries 0 and 1 are the endpoints; entries 2 and 3 are, per channel, the nearest third towards the other endpoint, and lie between the endpoints; all opaque |
| Dxt.SolidColorTable | MapleLib/WzLib/WzProperties/WzPngProperty.cs:668-676 | equal endpoints give four equal entries |
| Dxt.ExpandColorIndexTable | MapleLib/WzLib/WzProperties/WzPngProperty.cs:678-687 | sixteen 2-bit indices, each below 4 |
| Dxt.ColorIndexTableRoundTrip | MapleLib/WzLib/WzProperties/WzPngProperty.cs:678-687 | each group of four indices repacks, lowest bits first, to its raw byte |
| Dxt.ExpandAlphaTable | MapleLib/WzLib/WzProperties/WzPngProperty.cs:689-701 | sixteen alphas with equal nibbles; entry 2m carries the low nibble of byte m and entry 2m+1 its high nibble |
| Dxt.AlphaTableRoundTrip | MapleLib/WzLib/WzProperties/WzPngProperty.cs:689-701 | each pair of alphas repacks to its raw byte |
| Dxt.ExpandAlphaTableDxt5 | MapleLib/WzLib/WzProperties/WzPngProperty.cs:621-642 | entries 0 and 1 are the endpoints; with a0 > a1 entries 2..7 are the nearest sevenths between them, otherwise entries 2..5 the nearest fifths, then 0 and 255 |
| Dxt.SolidAlphaTableDxt5 | MapleLib/WzLib/WzProperties/WzPngProperty.cs:621-642 | equal endpoints give six equal entries |
| Dxt.ExpandAlphaIndexTableDxt5 | MapleLib/WzLib/WzProperties/WzPngProperty.cs:644-657 | sixteen 3-bit indices, each below 8 |
| Dxt.OctalRoundTrip | MapleLib/WzLib/WzProperties/WzPngProperty.cs:649-655 | the 3-bit groups of a 24-bit flag word, weighted by powers of 8, give back the word |
| Dxt.AlphaIndexTableDxt5RoundTrip | MapleLib/WzLib/WzProperties/WzPngProperty.cs:644-657 | each group of eight indices repacks to its three raw bytes |
| Bitmaps.SetPixel | MapleLib/WzLib/WzProperties/WzPngProperty.cs:659-666 | pixel (x, y) holds B, G, R and the alpha afterwards, and no other pixel changes |
| Dxt.UniformBlock | MapleLib/WzLib/WzProperties/WzPngProperty.cs:558-564 | a block with equal colour endpoints shows one colour in all 16 texels |
| Dxt.ConstantDxt3Alpha | MapleLib/WzLib/WzProperties/WzPngProperty.cs:558-559 | a DXT3 block whose alpha bytes repeat one nibble has that alpha, widened, in all 16 texels |
| Dxt.ConstantDxt5Alpha | MapleLib/WzLib/WzProperties/WzPngProperty.cs:583-619 | a DXT5 block with equal alpha endpoints has that alpha in every texel whose 3-bit index selects one of the six interpolated levels |
| Dxt.BlockInBounds | MapleLib/WzLib/WzProperties/WzPngProperty.cs:554-558 | on dimensions that are multiples of 4, every block offset x*4 + y*width starts a whole 16-byte block inside the w*h input |
| Dxt.LastBlockOverruns | MapleLib/WzLib/WzProperties/WzPngProperty.cs:554-558 | on any other positive dimensions the last block visited reaches past the w*h input |
| Dxt.DecodeDxtPixel | MapleLib/WzLib/WzProperties/WzPngProperty.cs:565-576 | each pixel of the reference decoding is texel (x mod 4, y mod 4) of its own block |
| Dxt.GetPixelData | MapleLib/WzLib/WzProperties/WzPngProperty.cs:547-619 | the block walk of both DXT decoders produces exactly the reference decoding |
| PixelFormats.ReadFill | MapleLib/WzLib/WzProperties/WzPngProperty.cs:362-364 | a fresh n-byte buffer holds the inflated bytes it has room for, and zeros after the end of the inflated data |
| PixelFormats.DecodeArgb4444 | MapleLib/WzLib/WzProperties/WzPngProperty.cs:337-357 | each inflated byte becomes its low and then its high nibble, each copied into both halves of a byte |
| PixelFormats.Argb4444RoundTrip | MapleLib/WzLib/WzProperties/WzPngProperty.cs:344-354 | repacking the nibble pairs gives back the inflated bytes |
| PixelFormats.Tile3AsWritten | MapleLib/WzLib/WzProperties/WzPngProperty.cs:385-388 | the blue, green and red bytes of a tile are those of the ARGB4444 reading; the alpha byte has the high nibble of the second byte on top and the high nibble of the first byte below |
| PixelFormats.Tile3AlphaDefect | MapleLib/WzLib/WzProperties/WzPngProperty.cs:385-388 | the tile value as written equals the ARGB4444 reading of its two bytes exactly when both bytes have the same high nibble |
| PixelFormats.Tile3IsArgb4444 | MapleLib/WzLib/WzProperties/WzPngProperty.cs:385-388 | the corrected tile value is the format-1 decoding of its two bytes |
| PixelFormats.CeilQuarter | MapleLib/WzLib/WzProperties/WzPngProperty.cs:369-370 | Math.Ceiling(v / 4.0) for every v, negative included: the q with 4q - 4 < v <= 4q |
| PixelFormats.Tiles3 | MapleLib/WzLib/WzProperties/WzPngProperty.cs:376-388 | tile t, in raster order, has the blue, green and red that the format-1 decoder makes of inflated bytes 2t and 2t+1, and an alpha whose high nibble is the high nibble of byte 2t+1 and whose low nibble is the high nibble of byte 2t |
| PixelFormats.Tile3LastWriteIsLargest | MapleLib/WzLib/WzProperties/WzPngProperty.cs:378-398 | every write of the tile loop lands at a non-negative index no greater than the last one, so the last write decides whether the loop overruns `argb2` |
| PixelFormats.Tile3OverrunsIff | MapleLib/WzLib/WzProperties/WzPngProperty.cs:374-398 | the tile loop writes past the width * height ints of `argb2` exactly when height mod 4 is 1 and the width is above 4 and not a multiple of 4 |
| PixelFormats.Tile3OverrunsExample | MapleLib/WzLib/WzProperties/WzPngProperty.cs:374-398 | a 5 x 1 image overruns; 4 x 1, 8 x 8 and 6 x 2 do not |
| PixelFormats.DecodeMono | MapleLib/WzLib/WzProperties/WzPngProperty.cs:434-458 | the SetPixel walk equals the reference raster: pixel p is opaque grey 0xFF or 0 by bit 7 - (p/16) mod 8 of byte p/128, and pixels past the data stay zero |
| PixelFormats.DecodeImage | MapleLib/WzLib/WzProperties/WzPngProperty.cs:335-489 | unknown codes give no bitmap, and rejected DEFLATE data throws. Format 3 fails on a non-positive size (Overflow when its tile count is negative) and, on a positive size with accepted data, throws IndexOutOfRange exactly when its tile loop overruns (height mod 4 is 1, width above 4 and not a multiple of 4). DXT3 and DXT5 on a positive size with accepted data throw exactly when the size is not block-aligned, and then IndexOutOfRange. A decoded bitmap has the property's size and one buffer entry per pixel |
| PixelFormats.Format2Identity | MapleLib/WzLib/WzProperties/WzPngProperty.cs:358-367 | format 2 stores the inflated bytes unchanged |
| PixelFormats.Format513Identity | MapleLib/WzLib/WzProperties/WzPngProperty.cs:423-432 | format 513 stores the inflated bytes unchanged as RGB565 pixels |
| Framing.XorKey | MapleLib/WzLib/WzProperties/WzPngProperty.cs:325-328 | the block keeps its length, and byte i is unchanged exactly when key byte i is zero |
| Framing.XorKeyInvolution | MapleLib/WzLib/WzProperties/WzPngProperty.cs:325-328 | XORing a block with the key twice gives back the block |
| Framing.Obfuscated | MapleLib/WzLib/WzProperties/WzPngProperty.cs:310-311 | a record is plain exactly when it starts with 0x78 and one of 0x9C, 0xDA, 0x01, 0x5E |
| Framing.Reassemble | MapleLib/WzLib/WzProperties/WzPngProperty.cs:318-329 | a successful reassembly is never longer than the bytes it reads |
| Framing.ReassembleLength | MapleLib/WzLib/WzProperties/WzPngProperty.cs:318-329 | a successful reassembly is shorter than its input by a multiple of 4 bytes: each block read costs its 4-byte size field |
| Framing.ReassembleBlock | MapleLib/WzLib/WzProperties/WzPngProperty.cs:322-329 | a length field followed by that many bytes reassembles to those bytes XORed with the key from index 0, followed by the reassembly of the rest |
| Framing.ReassembleEmptyBlocks | MapleLib/WzLib/WzProperties/WzPngProperty.cs:322-329 | zero-length blocks add nothing |
| Framing.ReassembleZeros | MapleLib/WzLib/WzProperties/WzPngProperty.cs:322-329 | a run of zero bytes reassembles to nothing when its length is a multiple of 4 and throws EndOfStream otherwise |
| Framing.Payload | MapleLib/WzLib/WzProperties/WzPngProperty.cs:309-333 | a plain record hands DEFLATE everything after its header; an obfuscated one throws the exception of its reassembly, or else hands DEFLATE the reassembled bytes after their first two (nothing when fewer than two were reassembled) |
| Framing.Compress | MapleLib/WzLib/WzProperties/WzPngProperty.cs:281-297 | the result starts with the 78 9C header, which reads as plain, and continues with the deflated bytes |
| Framing.CompressPayload | MapleLib/WzLib/WzProperties/WzPngProperty.cs:281-297 | the decoder's payload of a compressed buffer is exactly the deflated bytes |
| Framing.Wrap | MapleLib/WzLib/WzProperties/WzPngProperty.cs:513-528 | the two written blocks are 8 bytes longer than the record and always read as obfuscated |
| Framing.WrapRoundTrip | MapleLib/WzLib/WzProperties/WzPngProperty.cs:513-528 | reassembling the two blocks with the same key gives back the record, so the payload is its deflated part |
| Framing.WrapAsWritten | MapleLib/WzLib/WzProperties/WzPngProperty.cs:529 | MemoryStream.GetBuffer returns the whole capacity, a multiple of 256 bytes at least 8 longer than the record: the two written blocks, then zero bytes to the end, and the result reads as obfuscated |
| Framing.WrapAsWrittenDefect | MapleLib/WzLib/WzProperties/WzPngProperty.cs:529 | the padded buffer reassembles to the record when the record length is a multiple of 4 and throws EndOfStream otherwise |
| Framing.WrapAsWrittenExample | MapleLib/WzLib/WzProperties/WzPngProperty.cs:529 | a 3-byte record written this way cannot be read back |
| PngProperty.ReadBytes | MapleLib/WzLib/WzProperties/WzPngProperty.cs:217 | BinaryReader.ReadBytes yields the requested bytes, cut short at the end of the stream, and advances past them |
| PngProperty.Format | MapleLib/WzLib/WzProperties/WzPngProperty.cs:131 | the getter is format + format2 reduced into int32, equal to the plain sum when that fits |
| PngProperty.SetFormat | MapleLib/WzLib/WzProperties/WzPngProperty.cs:132-136 | the getter afterwards returns the value set, whatever format2 held, because format2 is zeroed; no other field changes |
| PngProperty.Blank | MapleLib/WzLib/WzProperties/WzPngProperty.cs:171-173 | the parameterless constructor: no compressed bytes, no bitmap, no reader, listWzUsed false |
| PngProperty.Load | MapleLib/WzLib/WzProperties/WzPngProperty.cs:175-201 | the constructor throws EndOfStream exactly when the 9 bytes of format2, skip and length field are not all there. Otherwise it throws only eagerly on a record holding bytes, and on success records the given size and format, offs 5 bytes past its start and the reader, with both caches empty and listWzUsed false |
| PngProperty.LoadLazyPosition | MapleLib/WzLib/WzProperties/WzPngProperty.cs:175-201 | the lazy constructor records offs 5 bytes past its start and leaves the stream at offs + 5 + max(len, 0) |
| PngProperty.LoadEagerThrows | MapleLib/WzLib/WzProperties/WzPngProperty.cs:187-193 | as written, the eager constructor throws NullReference on every record holding bytes |
| PngProperty.LoadCorrectedLazy | MapleLib/WzLib/WzProperties/WzPngProperty.cs:194-197 | the corrected constructor changes nothing on the lazy path |
| PngProperty.EagerMatchesLazy | MapleLib/WzLib/WzProperties/WzPngProperty.cs:187-197 | the corrected eager constructor decodes the same bitmap a lazily built property gets from its first GetPNG(true) |
| PngProperty.Fetch | MapleLib/WzLib/WzProperties/WzPngProperty.cs:211-218 | seeking to offs fails exactly when the length field is cut off. len <= 0 gives nothing; otherwise the result is the bytes after the pad byte, cut short at the end of the file |
| PngProperty.GetCompressedBytes | MapleLib/WzLib/WzProperties/WzPngProperty.cs:207-231 | cached bytes come back without touching the stream. Otherwise the fetched bytes come back with the stream position restored. They are kept only when saving; without saving the object is left exactly as it was |
| PngProperty.GetCompressedBytesIdempotent | MapleLib/WzLib/WzProperties/WzPngProperty.cs:207-231 | after a saving fetch, a second one returns the same bytes and changes nothing |
| PngProperty.ParsePng | MapleLib/WzLib/WzProperties/WzPngProperty.cs:299-490 | no bytes throws ArgumentNull and fewer than two EndOfStream. Otherwise listWzUsed is set from the header, even when a later step throws, png is set only on success, and nothing else (size, format, offs, bytes, reader) changes |
| PngProperty.GetPNG | MapleLib/WzLib/WzProperties/WzPngProperty.cs:239-264 | a cached bitmap comes back unchanged; a null reader throws. On success the stream position is restored, and without saving both caches are cleared |
| PngProperty.GetPNGDecodesCompressedBytes | MapleLib/WzLib/WzProperties/WzPngProperty.cs:239-264 | with or without saving, GetPNG decodes exactly what GetCompressedBytes returns. With saving it keeps those bytes and the bitmap; without it changes nothing but listWzUsed, which follows the stored header |
| PngProperty.LayoutPixels | MapleLib/WzLib/WzProperties/WzPngProperty.cs:494-510 | the buffer holds every pixel's B, G, R, A in row-major order, followed by as many zero bytes again |
| PngProperty.CompressPng | MapleLib/WzLib/WzProperties/WzPngProperty.cs:492-532 | format becomes 2 and format2 0, and the size becomes the bitmap's. The stored bytes read as obfuscated exactly when listWzUsed is set, and are the zlib-compressed buffer itself when it is not; no other field changes |
| PngProperty.CompressPngRoundTrip | MapleLib/WzLib/WzProperties/WzPngProperty.cs:492-532 | parsing what CompressPng stored, with the same key and an inverse DEFLATE, gives back the bitmap and keeps listWzUsed for a plain image and for a list.wz image whose compressed length is a multiple of 4; any other list.wz image throws EndOfStream |
| PngProperty.CompressPngCorrected | MapleLib/WzLib/WzProperties/WzPngProperty.cs:512-529 | CompressPng with only the written bytes stored: the same fields, and framing obfuscated exactly when listWzUsed is set |
| PngProperty.CompressPngCorrectedRoundTrip | MapleLib/WzLib/WzProperties/WzPngProperty.cs:492-532 | parsing what the corrected encoder stored always gives back the bitmap and keeps listWzUsed |
| PngProperty.SetPNG | MapleLib/WzLib/WzProperties/WzPngProperty.cs:233-237 | the property becomes format 2 (format2 0) of the bitmap's size holding the bytes CompressPng stores; afterwards every GetPNG returns the bitmap and changes nothing |
| PngProperty.SetListWzUsed | MapleLib/WzLib/WzProperties/WzPngProperty.cs:139-150 | setting the current value changes nothing. After a change, the stored bytes read as obfuscated exactly when the final flag is set |
| PngProperty.SetListWzUsedReverts | MapleLib/WzLib/WzProperties/WzPngProperty.cs:139-150 | as written, on an uncached property the flag and the framing afterwards are those of the stored header, whatever value was set |
| PngProperty.SetListWzUsedCorrected | MapleLib/WzLib/WzProperties/WzPngProperty.cs:139-150 | the corrected setter leaves the flag at the value set, and after a change the stored bytes are framed by that value |

## Left out

- DEFLATE compression and decompression: these are parameters. A single `zlib.Read` is taken to return everything it can, up to the buffer size. .NET may return fewer bytes from one call, which the model does not represent. `inflate` takes no read size either, so rejected data gives InvalidData even where the buffer to read is empty (format 517 with width*height below 128), where .NET may return 0 bytes without inflating.
- System.Drawing: a Bitmap is a flat buffer. LockBits, Marshal.Copy and the stride of 16-bit bitmaps are not modelled. A 16-bit row of odd width is padded to 4 bytes in GDI+, and here it is not.
- ReadCompressedInt, the WZ key generation (WzMutableKey, GetIvByMapleVersion) and the parent-image lookup behind `imgParent.reader`: these are parameters or are not part of this model.
- PixelFormats.DecodeImage: for format 3 it returns the per-tile values (`PixelFormats.Tiles3`) and not the `argb2` buffer the placement loop (lines 378-413) leaves. That loop tests counters `x` and `y` that are never advanced. The model keeps only the loop's write indices, which decide when it throws (`PixelFormats.Tile3Overruns`), and not the pixel layout it produces.
- Decompress (lines 266-279) is not called by the modelled operations.
- GetPixel's conversion of non-32-bit bitmaps is not modelled.
- PngProperty.CompressPng: requires a 32-bit bitmap whose compressed form fits in a .NET array (`Compressible`).
- PngProperty.CompressPngCorrected: same requirement.
- PngProperty.SetPNG: same requirement.
- PngProperty.SetListWzUsed: same requirement, for the bitmap GetPNG returns.
- PngProperty.SetListWzUsedCorrected: same requirement, for the bitmap GetPNG returns.
- int32 overflow of `width * height * k` in the buffer sizes: sizes are unbounded integers. Format 3 models the negative-size OverflowException.
- The DXT decoders on unaligned dimensions: they throw IndexOutOfRange at the first access past the input or the output buffer. BitConverter throws ArgumentException instead when the overrun hits its two-byte read. Both are folded into `IndexOutOfRange`.
- Logging of unknown formats, the generic WriteValue, Dispose, DeepClone, and the Width/Height/PNG accessors that only forward a field or an operation.
- Concurrency: the save/seek/restore of the stream position is modelled as one step on an immutable stream value.

## Findings

| source | as written | input that shows it | evidently intended | confidence | as-written member | corrected member |
|---|---|---|---|---|---|---|
| MapleLib/WzLib/WzProperties/WzPngProperty.cs:388 | the low alpha nibble of a format-3 tile is taken from the high nibble of the first byte (`decBuf[index]`) | tile bytes 0x00, 0xF0: alpha 0xF0 | alpha = high nibble of the second byte, replicated (0xFF), as for the other channels | high; not executed | PixelFormats.Tile3AlphaDefect | PixelFormats.Tile3IsArgb4444 |
| MapleLib/WzLib/WzProperties/WzPngProperty.cs:529 | `GetBuffer` returns the stream's whole capacity, so the obfuscated record carries trailing zero padding | a 3-byte record 78 9C 03: 11 written bytes padded to 256; the reader then meets 1 byte where a length field is due and throws EndOfStream | store only the written bytes (`ToArray`), which reassemble to the record | high; not executed | PngProperty.CompressPngRoundTrip | PngProperty.CompressPngCorrectedRoundTrip |
| MapleLib/WzLib/WzProperties/WzPngProperty.cs:191 | the eager constructor reads through the field `wzReader`, which is only assigned at line 200 | parseNow with any record of length field L >= 2 (stream bytes 00 00000000 02000000 00 78): NullReferenceException | read through the `reader` argument | high; not executed | PngProperty.LoadEagerThrows | PngProperty.EagerMatchesLazy |
| MapleLib/WzLib/WzProperties/WzPngProperty.cs:144-147 | the setter stores the new flag and then calls GetPNG, whose ParsePng overwrites the flag from the stored header before CompressPng reads it | a lazily loaded property with a plain record: setting ListWzUsed = true leaves it false and re-stores plain bytes | decode first, then set the flag and compress with it | high; not executed | PngProperty.SetListWzUsedReverts | PngProperty.SetListWzUsedCorrected |
