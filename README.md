# fontconverter: the packing codec, the glyph loop and the preview renderer

A Dafny model of the core of `fontconvert.cpp`, the tool that turns the
glyphs FreeType renders for a range of code points into a bit-packed
bitmap stream plus a table of `BitmapFontGlyph` records, and draws a
preview strip of the whole font back from that stream.

The model has six modules:

- `Bits` (`bits.dfy`) defines the C operators the codec uses, `&`, `|`,
  `<<`, `>>` and `(1 << Size) - 1`, bit by bit on natural numbers, with
  their laws. `byte` is the `uint8_t` range 0..255.
- `BitPack` (`bitpack.dfy`) is the packed format as a pure function.
  `Pack(s, size)` is the bytes one encoder run appends for the samples
  `s`, commit included. `SampleAt(bytes, i, size)` is the `i`-th sample a
  decoder started at `bytes[0]` returns. The first sample of a byte sits
  in its lowest bits.
- `BitCodec` (`bitcodec.dfy`) holds the two state machines as classes.
  `BitEncoder` appends to a `ByteBuffer` shared by reference, as the
  source shares its `std::vector<uint8_t>`. `BitDecoder` walks a buffer
  from an offset. Both are proved against `Pack` and `SampleAt`.
- `Rasters` (`raster.dfy`) models the `FT_Bitmap` image and the samples
  `convertBitmap<N>` takes from it: one bit per pixel, leftmost pixel in
  the most significant bit, for 1 bpp; the top N bits of each grey byte
  otherwise.
- `Glyphs` (`glyphs.dfy`) holds what FreeType yields per code point, the
  record built from it, and, as functions of the code points visited, the
  stream and the records the glyph loop appends.
- `Preview` (`preview.dfy`) is the preview canvas as a function:
  - `Paint` draws one glyph at an origin;
  - `Canvas` draws the first `i` glyphs side by side, each on row
    `-minYOffset`.
- `FontConverter` (`converter.dfy`) holds the `Converter` class.
  - Its state is `_bitmap`, `_glyphs` and `_yAdvance`.
  - Its methods are the glyph loop of `operator()`, `convertBitmap<N>`,
    `renderGlyph<N>` and `renderFont`.
  - Each method is proved against the functions above.
  - Lemmas connect what `operator()` writes with what `renderFont` reads
    back.

FreeType enters only as data. `Run` takes an `Option<Face>`:

- `None` when `FT_Init_FreeType` or `FT_New_Face` fails;
- otherwise a `Face`, giving for every code point either `Failed` (when
  `FT_Load_Char`, `FT_Render_Glyph` or `FT_Get_Glyph` reports an error) or
  the rendered bitmap with its advance and bearings, plus the line height.

The main results:

- **Encode then decode.** `DecodeAfterEncode` proves that a decoder
  started at a packed run returns every sample as encoded, masked to
  `Size` bits. It reads only inside the run's `ceil(P * Size / 8)` bytes.
  `PackLength` proves that byte count and `PackPadding` that the unused
  high bits of a last partial byte are zero.
- **The stream and the records.** `Run` ends with:
  - the stream extended by the packed samples of each rendered glyph, in
    code-point order;
  - the records extended by one record per rendered glyph.
  `RecordsTile` and `TiledNext` prove that the first record's offset is
  the stream's old length. Each following offset is the previous offset
  plus `ceil(w * h * bpp / 8)`, and the last run ends with the stream.
- **Preview.** `RenderFont` produces a `sum(xAdvance) x yAdvance` image
  equal to `Canvas`. `PreviewShowsSamples` proves that the pixel
  `renderGlyph` writes for sample (sx, sy) of a converted glyph is the
  quantised source pixel times `255 / ((1 << bpp) - 1)`. `CanvasTop`
  proves that the final image keeps it unless a later glyph covers the
  same index.

`_yAdvance` is `face->size->metrics.height >> 6` stored into a `uint8_t`,
so it is truncated mod 256 (`fontconvert.cpp:175`, `:273`).

## Model

| member | source | states |
|---|---|---|
| BitCodec.BitEncoder.constructor | fontconvert.cpp:30 | a new encoder on the shared vector has an empty buffer at shift 0 and an empty run starting at the vector's current end |
| BitCodec.BitEncoder.Encode | fontconvert.cpp:32-41 | the run grows by the sample. When `shift + Size` reaches 8, exactly one byte, `buf` or-ed with `(value & Mask) << shift`, is appended and buf and shift reset to 0. Otherwise the vector is unchanged and that byte stays in buf at shift + Size. The vector then holds the packing of the run's whole bytes |
| BitCodec.BitEncoder.Commit | fontconvert.cpp:43-49 | a pending partial byte is appended, and nothing is appended at shift 0, so a second commit adds nothing; the vector is its bytes from before the run followed by `Pack` of the run; buf and shift are reset |
| BitCodec.EncodeFlush | fontconvert.cpp:33-39 | the byte formed when a sample fills the buffer fits a `uint8_t` and packs the buffered samples plus the new one |
| BitCodec.EncodeKeep | fontconvert.cpp:33-35 | a sample that does not fill the byte is or-ed in at its slot and the result still fits a `uint8_t` |
| BitCodec.CommitBytes | fontconvert.cpp:43-49 | flushing the buffer when shift is non-zero yields exactly the packed run after the bytes before it |
| BitCodec.EncodeExample | fontconvert.cpp:32-41 | two-bit samples 0, 1, 2, 3 encoded in turn form the byte 0xE4, the first sample in the lowest bits |
| BitCodec.BitDecoder.constructor | fontconvert.cpp:61 | a decoder starts at the given offset at shift 0, before sample 0 |
| BitCodec.BitDecoder.Decode | fontconvert.cpp:63-71 | returns `(*data >> shift) & Mask`, which is sample number `count` of the stream from the start offset. The read position advances exactly when `shift + Size` reaches 8, and shift is then reset. The read byte lies in the vector |
| BitCodec.DecodeAfterEncode | fontconvert.cpp:32-71 | round trip: decoding a packed run from its first byte returns the i-th encoded sample masked to `Size` bits. Only the run's ceil(P * Size / 8) bytes are read, whatever follows them |
| BitPack.RoundTrip | fontconvert.cpp:32-71 | `SampleAt(Pack(s), i) == s[i] & Mask` for every sample of the run |
| BitPack.PackLength | fontconvert.cpp:32-49 | a run of P samples takes ceil(P / (8 / Size)) = ceil(P * Size / 8) bytes |
| BitPack.PackPadding | fontconvert.cpp:43-49 | when the run ends mid-byte, the last byte's bits above the last sample are zero |
| BitPack.PrefixSample | fontconvert.cpp:63-71 | reading inside a run does not depend on the bytes after it |
| BitPack.PackExample | fontconvert.cpp:32-49 | `Pack([0, 1, 2, 3], 2) == [0xE4]` |
| BitPack.OrInStep | fontconvert.cpp:33-34 | or-ing `(x & Mask) << shift` into the byte holding the waiting samples g, shift being their slot count times Size, gives the byte holding g followed by x, and it fits a byte |
| BitPack.ReadStep | fontconvert.cpp:64 | `(b >> shift) & Mask` is the sample in the slot at shift |
| Bits.AndMask | fontconvert.cpp:33 | `x & ((1 << Size) - 1)` keeps the low Size bits |
| Rasters.MonoSample | fontconvert.cpp:105-108 | the 1-bpp sample is 0 or 1. It is 1 exactly when bit `7 - x % 8` of byte `x / 8` is set, so the leftmost pixel is the most significant bit |
| Rasters.GreySample | fontconvert.cpp:116-117 | the grey sample `pixel >> (8 - N)` fits N bits and is the byte itself at N = 8 |
| Rasters.Quantise | fontconvert.cpp:103-119 | the sample for pixel (x, y) fits `depth` bits |
| Rasters.PixelIndex | fontconvert.cpp:105-117 | the byte `y * pitch + x / 8` (1 bpp) or `y * pitch + x` read for a pixel lies in the buffer |
| Rasters.SampleOrder | fontconvert.cpp:103-110 | the samples are in row-major order: pixel (x, y) is sample number `y * width + x` |
| FontConverter.Converter.ConvertBitmap | fontconvert.cpp:99-122 | the destination ends as its old bytes followed by `Pack` of the image's samples, row by row and left to right |
| FontConverter.Converter.EncodeRows | fontconvert.cpp:103-110 | the encoder's run becomes all the samples, top to bottom; the bytes before the run are untouched |
| FontConverter.Converter.EncodeRow | fontconvert.cpp:104-109 | the run grows by the samples of row y, left to right; the vector only grows |
| FontConverter.Converter.constructor | fontconvert.cpp:83-97 | a converter for bpp, first and last starts with an empty stream and no records |
| FontConverter.Converter.Run | fontconvert.cpp:124-176 | if FreeType or the face fails to open, nothing changes. Otherwise the stream grows by the bytes of each code point first..last in order. The records grow by one record per rendered code point, in order, each offset being the stream length before its bytes. `_yAdvance` becomes `height >> 6` truncated to a byte |
| FontConverter.Converter.ConvertRange | fontconvert.cpp:140-173 | the glyph loop appends, for the code points first..last in order, their chunks to the stream and their records to the table, and leaves `_yAdvance` alone |
| FontConverter.Converter.ConvertGlyph | fontconvert.cpp:140-172 | a failed glyph adds nothing. A rendered one adds its record, with offset the stream's length before, then its packed samples when bpp is 1, 2, 4 or 8, and nothing for any other bpp |
| Glyphs.Record | fontconvert.cpp:158-164 | the record has the bitmap's width and rows and the given offset. `xAdvance` is `advance >> 6`, that is `xAdvance * 64 <= advance < xAdvance * 64 + 64`. `xOffset` is left, and `yOffset == 1 - top` |
| Glyphs.Entry | fontconvert.cpp:140-165 | a failed code point contributes no record, a rendered one exactly one |
| Glyphs.Shr6 | fontconvert.cpp:162 | `v >> 6` on a signed value rounds down: `r * 64 <= v < r * 64 + 64` |
| Glyphs.Bytes | fontconvert.cpp:159-172 | the bytes the glyph loop appends for one code point: none for a failed glyph and none when bpp is not 1, 2, 4 or 8 (the `switch` has no other case). A rendered glyph with a sound bitmap gets exactly ceil(width * rows * bpp / 8) bytes |
| Glyphs.ConvertedFits | fontconvert.cpp:159-171 | for a face with sound bitmaps each code point's bytes are as long as its record claims, and a failed one has none |
| Glyphs.RecordsTile | fontconvert.cpp:159-171 | the records' runs tile the appended stream end to end, from its old length to its new one |
| Glyphs.TiledNext | fontconvert.cpp:159-171 | `offset[j + 1] == offset[j] + ceil(w_j * h_j * bpp / 8)`, the last run ends with the stream, and the first starts at its old length |
| Glyphs.TiledOrdered | fontconvert.cpp:159 | record offsets never decrease and every run lies within the stream |
| Glyphs.RecordsInStream | fontconvert.cpp:159-171 | every record's run lies within the appended part of the stream |
| Glyphs.RecordOfCode | fontconvert.cpp:158-165 | every rendered code point has its record among the records, with offset where its bytes begin |
| Glyphs.ChunkOfCode | fontconvert.cpp:159-171 | the bytes of code point c sit in the stream at the offset its record gets |
| Glyphs.ChunkAfter | fontconvert.cpp:159-171 | the same after any bytes already in the stream |
| FontConverter.ConvertedReadable | fontconvert.cpp:159-171 | on a fresh converter, every record the glyph loop appends has its run of ceil(w * h * bpp / 8) bytes inside the stream, so `renderGlyph` (line 224) decodes only bytes the loop wrote |
| FontConverter.PreviewShowsSamples | fontconvert.cpp:159-171 | after conversion, the record of code point c is readable in the stream. The pixel `renderGlyph` writes for its sample (sx, sy) is the quantised source pixel times `255 / ((1 << bpp) - 1)` |
| FontConverter.DecodedSample | fontconvert.cpp:224-229 | a glyph whose run holds the packed samples of an image decodes pixel (sx, sy) to that image's sample, scaled |
| FontConverter.Converter.RenderGlyph | fontconvert.cpp:222-235 | the image becomes the old image with every pixel of the glyph painted at its origin plus offsets, and no other pixel changed |
| FontConverter.Converter.RenderRow | fontconvert.cpp:227-233 | one row of the glyph is decoded in order and painted; the decoder advances by the row's width |
| Preview.Scale | fontconvert.cpp:225 | `255 / ((1 << N) - 1)`, and the integer division is exact at 1, 2, 4 and 8 bpp: scale times the largest sample `(1 << N) - 1` is exactly 255 |
| Preview.ScaleFits | fontconvert.cpp:225-229 | a scaled sample fits a `uint8_t`, so the store loses nothing, and the largest sample maps to 255 |
| Preview.ScaleValues | fontconvert.cpp:225 | the scale is 255, 85, 17 and 1 for 1, 2, 4 and 8 bits per pixel |
| Preview.TargetCovered | fontconvert.cpp:230-232 | the index `(y + sy + yOffset) * width + (x + sx + xOffset)` lies in the canvas and maps back to pixel (sx, sy) of the glyph |
| Preview.CoveredOnce | fontconvert.cpp:230-232 | no other canvas index maps back to pixel (sx, sy) |
| Preview.PaintStep | fontconvert.cpp:229-232 | painting one more pixel writes exactly the target index and nothing else |
| Preview.PaintAll | fontconvert.cpp:226-234 | after a whole glyph, a canvas pixel shows the glyph pixel it covers, or keeps its old value |
| Preview.BaselineClears | fontconvert.cpp:240-249 | the baseline `-minYOffset` is at least 0, no glyph starts above row 0, and it is 0 or minus some glyph's y offset |
| Preview.CanvasBlank | fontconvert.cpp:246-258 | a canvas pixel no glyph covers stays 0 |
| Preview.CanvasTop | fontconvert.cpp:250-258 | a canvas pixel shows the last glyph drawn over it |
| FontConverter.Converter.RenderFont | fontconvert.cpp:237-259 | the width is the sum of the `xAdvance` values and the height `_yAdvance`. A fresh zeroed image receives every glyph, left to right from x = 0 on row `-minYOffset`, and equals `Canvas`. For a bpp outside 1, 2, 4 and 8 it stays all zero |

## Left out

- FreeType is an input, not a computation. This covers `FT_Init_FreeType`, `FT_New_Face`, `FT_Set_Char_Size` with the size and DPI, `FT_Load_Char`, `FT_Render_Glyph` and `FT_Get_Glyph`, and the choice of mono or normal render mode by bpp. Their results are the `Option<Face>` and per-code-point `Outcome`. The `FT_Glyph` returned by `FT_Get_Glyph` is never released in the source, and the model has no such resource.
- The error messages printed through `tfm::printfln` are I/O and are left out; only the skip (`continue`) or return they lead to is modelled.
- `header()` and `toUpperCase` (C source text generation), `stbi_write_bmp` (writing the preview file) and `main` (argument parsing, the 1/2/4/8 check, file output) are I/O around the core. `bpp` is a natural number and every member that depends on it checks `ValidDepth`.
- `BitmapFont.h` is not part of this model, so the field widths of `BitmapFontGlyph` are unknown. Offsets, sizes, advances and bearings are unbounded integers, and a narrowing store into a smaller field is not modelled.
- C `int` overflow is not modelled: `++i` at `INT_MAX` in the glyph loop, `width * height` and the index arithmetic in `renderGlyph`. The code point range is an unbounded integer range.
- A negative `pitch` (bottom-up bitmaps) is not modelled; `pitch` is a natural number covering its row.
- FontConverter.Converter.ConvertRange: requires every rendered bitmap to be laid out as FreeType guarantees (`RasterOk`: each row within its pitch, all rows within the buffer). The source reads the buffer unchecked.
- FontConverter.Converter.RenderGlyph: requires the glyph's box to lie inside the canvas (`InCanvas`) and its run inside the stream. The source clips nothing. A sideways overhang lands in the neighbouring row, except on row 0 (left) or the last row (right), where the flat index `dy * width + dx` leaves the vector; a glyph below the bottom writes outside the image. Both are undefined there. No glyph starts above row 0 (`BaselineClears`). `InCanvas` excludes every overhang, so neither the wrap into a neighbouring row nor the out-of-bounds store is modelled.
- FontConverter.Converter.RenderFont: requires `SumAdvance >= 0` (a negative total width would make the vector size wrap), and, for the supported depths, that every glyph is placed inside the canvas, as for `RenderGlyph`. It also requires every glyph to be readable; this is not a strengthening, since `ConvertedReadable` proves it for the records and stream the glyph loop leaves on a fresh converter.
- The decoder is an index into the shared buffer rather than a raw address. Constructing it at `&_bitmap[g.offset]` with `g.offset == _bitmap.size()` (an empty trailing glyph) is fine in the model, because an empty glyph decodes nothing.
- `_yAdvance` is not initialised by the C++ constructor and is not assigned when FreeType fails. The model starts it at 0 and leaves it unchanged on failure.
- `Bytes` is empty for a bitmap whose layout is malformed or whose depth the switch does not handle. The first case never arises under `ConvertRange`'s precondition.
- Loop nests are split into helper methods: `ConvertRange` and `ConvertGlyph` for the glyph loop, `EncodeRows` and `EncodeRow` for `convertBitmap`, and `RenderRow` for `renderGlyph`. The two template branches of `convertBitmap<N>` are one loop nest over `Quantise`, which selects the 1-bpp or grey sample. The `renderGlyph<N>` instances are one method with the depth as a parameter.
- Concurrency and floating point do not arise.
