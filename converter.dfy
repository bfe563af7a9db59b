/**
 * The `Converter` of fontconvert.cpp: it walks the code points
 * first..last, packs each rendered glyph image into the shared bitmap
 * stream and records its metrics, and draws a preview of the whole font
 * from that stream and those records.
 *
 * FreeType is abstracted as an `Option<Face>`: `None` when the library or
 * the font file cannot be opened, otherwise the outcome for every code
 * point at the requested size and render mode.
 */
module FontConverter {
  import opened Bits
  import opened BitPack
  import opened BitCodec
  import opened Rasters
  import opened Glyphs
  import opened Preview

  class Converter {
    /** Bits per sample of the stream; the header is only emitted for 1, 2, 4 and 8. */
    const bpp: nat
    const first: int
    const last: int
    /** `_bitmap`: the packed samples of every glyph, in code point order. */
    const bitmap: ByteBuffer
    /** `_glyphs`: one record per rendered code point. */
    var glyphs: seq<Glyph>
    /** `_yAdvance`: the line height in pixels, as a `uint8_t`. */
    var yAdvance: byte

    constructor(bpp: nat, first: int, last: int)
      ensures this.bpp == bpp && this.first == first && this.last == last
      ensures fresh(bitmap) && bitmap.bytes == [] && glyphs == [] && yAdvance == 0
    {
      this.bpp := bpp;
      this.first := first;
      this.last := last;
      bitmap := new ByteBuffer();
      glyphs := [];
      yAdvance := 0;
    }

    /**
     * `operator()`: nothing happens when FreeType cannot be started or the
     * font cannot be opened. Otherwise, for each code point from first to
     * last, a glyph FreeType fails to load, render or fetch is skipped;
     * for the others the record is appended, its offset the stream's
     * length at that moment, and, when bpp is 1, 2, 4 or 8, the packed
     * image. Finally the line height is stored, truncated to a byte.
     */
    method Run(face: Option<Face>)
      requires face.Some? ==> FaceOk(face.value, bpp, first, last + 1)
      modifies this, bitmap
      ensures face.None? ==> bitmap.bytes == old(bitmap.bytes) && glyphs == old(glyphs) && yAdvance == old(yAdvance)
      ensures face.Some? ==>
        && bitmap.bytes == old(bitmap.bytes) + Stream(Converted(face.value, bpp), first, last + 1)
        && glyphs == old(glyphs) + Records(face.value.load, Converted(face.value, bpp), first, last + 1, |old(bitmap.bytes)|)
        && yAdvance == Shr6(face.value.height) % 256
    {
      if face.None? {
        return;
      }
      var f := face.value;
      ConvertRange(f.load, Converted(f, bpp));
      yAdvance := Shr6(f.height) % 256;
    }

    /**
     * The glyph loop of `operator()` for the code points first..last, the
     * bytes appended for code point c being `chunk(c)`.
     */
    method ConvertRange(load: int -> Outcome, ghost chunk: int -> seq<byte>)
      requires forall c {:trigger RasterOk(load(c).bitmap, bpp)} :: first <= c <= last ==> load(c).Rendered? && ValidDepth(bpp) ==> RasterOk(load(c).bitmap, bpp)
      requires forall c {:trigger Bytes(load(c), bpp)} :: first <= c <= last ==> chunk(c) == Bytes(load(c), bpp)
      modifies this, bitmap
      ensures bitmap.bytes == old(bitmap.bytes) + Stream(chunk, first, last + 1)
      ensures glyphs == old(glyphs) + Records(load, chunk, first, last + 1, |old(bitmap.bytes)|)
      ensures yAdvance == old(yAdvance)
    {
      ghost var base := |bitmap.bytes|;
      var i := first;
      while i <= last
        invariant i == first || first < i <= last + 1
        invariant bitmap.bytes == old(bitmap.bytes) + Stream(chunk, first, i)
        invariant glyphs == old(glyphs) + Records(load, chunk, first, i, base)
        invariant yAdvance == old(yAdvance)
        decreases last - i
      {
        ghost var bytes := bitmap.bytes;
        ghost var records := glyphs;
        ghost var at := base + |Stream(chunk, first, i)|;
        assert |bytes| == at;
        ConvertGlyph(load(i));
        StreamGrows(old(bitmap.bytes), bytes, bitmap.bytes, chunk, first, i);
        RecordsGrow(old(glyphs), records, glyphs, load, chunk, first, i, base, at);
        i := i + 1;
      }
    }

    /**
     * One turn of the glyph loop of `operator()`, for what FreeType yields
     * for the code point: nothing for a failure; otherwise the record,
     * whose offset is the stream's length before the image is packed, then
     * the packed image, when bpp is one the switch handles.
     */
    method ConvertGlyph(o: Outcome)
      requires o.Rendered? && ValidDepth(bpp) ==> RasterOk(o.bitmap, bpp)
      modifies this, bitmap
      ensures bitmap.bytes == old(bitmap.bytes) + Bytes(o, bpp)
      ensures glyphs == old(glyphs) + Entry(o, |old(bitmap.bytes)|)
      ensures yAdvance == old(yAdvance)
    {
      if o.Rendered? {
        glyphs := glyphs + [Record(o, |bitmap.bytes|)];
        if bpp == 1 || bpp == 2 || bpp == 4 || bpp == 8 {
          ConvertBitmap(o.bitmap, bpp, bitmap);
        }
      }
    }

    /**
     * `convertBitmap<depth>`: feed the image's samples, row by row and
     * left to right, to a fresh encoder on `dst`, then commit. `dst` ends
     * with its old bytes followed by the packed samples.
     */
    method ConvertBitmap(r: Raster, depth: nat, dst: ByteBuffer)
      requires RasterOk(r, depth)
      modifies dst
      ensures dst.bytes == old(dst.bytes) + Pack(Samples(r, depth, r.rows), depth)
    {
      var encoder := new BitEncoder(depth, dst);
      EncodeRows(encoder, r, depth);
      ghost var before := dst.bytes;
      encoder.Commit();
      assert dst.bytes == before[..|old(dst.bytes)|] + Pack(Samples(r, depth, r.rows), depth);
    }

    /**
     * The loops of `convertBitmap`: the samples of every row, top to
     * bottom, go to the encoder, and the vector keeps its bytes from before.
     */
    static method EncodeRows(encoder: BitEncoder, r: Raster, depth: nat)
      requires RasterOk(r, depth)
      requires encoder.Valid() && encoder.size == depth && encoder.Run() == []
      modifies encoder, encoder.data
      ensures encoder.Valid() && encoder.start == old(encoder.start)
      ensures encoder.data.bytes[..encoder.start] == old(encoder.data.bytes)[..encoder.start]
      ensures encoder.Run() == Samples(r, depth, r.rows)
    {
      var y := 0;
      while y < r.rows
        invariant 0 <= y <= r.rows
        invariant encoder.Valid() && encoder.start == old(encoder.start)
        invariant old(encoder.data.bytes) <= encoder.data.bytes
        invariant encoder.Run() == Samples(r, depth, y)
      {
        EncodeRow(encoder, r, depth, y);
        y := y + 1;
      }
      assert encoder.start <= |old(encoder.data.bytes)|;
    }

    /**
     * The inner loop of `convertBitmap`: the samples of row y, left to
     * right, go to the encoder.
     */
    static method EncodeRow(encoder: BitEncoder, r: Raster, depth: nat, y: nat)
      requires RasterOk(r, depth) && y < r.rows
      requires encoder.Valid() && encoder.size == depth
      modifies encoder, encoder.data
      ensures encoder.Valid() && encoder.start == old(encoder.start)
      ensures old(encoder.data.bytes) <= encoder.data.bytes
      ensures encoder.Run() == old(encoder.Run()) + Row(r, depth, y, r.width)
    {
      var x := 0;
      while x < r.width
        invariant 0 <= x <= r.width
        invariant encoder.Valid() && encoder.start == old(encoder.start)
        invariant old(encoder.data.bytes) <= encoder.data.bytes
        invariant encoder.Run() == old(encoder.Run()) + Row(r, depth, y, x)
      {
        encoder.Encode(Quantise(r, depth, y, x));
        x := x + 1;
      }
    }

    /**
     * `renderGlyph<depth>`: a decoder starts at the glyph's offset in the
     * stream; row by row and left to right, each decoded sample times
     * `255 / ((1 << depth) - 1)` is written at the glyph's origin (x, y)
     * plus its offsets plus the sample's column and row. The image ends as
     * the old one with the whole glyph painted over it.
     */
    method RenderGlyph(depth: nat, g: Glyph, x: int, y: int, image: array<byte>, width: int, height: int)
      requires ValidDepth(depth) && Readable(g, bitmap.bytes, depth)
      requires width >= 0 && height >= 0 && image.Length == width * height && InCanvas(g, x, y, width, height)
      modifies image
      ensures image[..] == Paint(old(image[..]), bitmap.bytes, g, x, y, width, depth, g.width * g.height)
    {
      var decoder := new BitDecoder(depth, bitmap, g.offset);
      var scale := Scale(depth);
      ghost var n := 0;
      var sy := 0;
      while sy < g.height
        invariant 0 <= sy <= g.height && n == sy * g.width
        invariant decoder.Valid() && decoder.size == depth && decoder.data == bitmap && decoder.start == g.offset
        invariant decoder.count == n
        invariant image[..] == Paint(old(image[..]), bitmap.bytes, g, x, y, width, depth, n)
      {
        RenderRow(decoder, scale, g, x, y, sy, image, width, height, old(image[..]));
        NextRow(sy, g.width);
        sy := sy + 1;
        n := n + g.width;
      }
      Area(g.height, g.width);
    }

    /**
     * The inner loop of `renderGlyph`: the samples of row sy of the glyph,
     * decoded in turn, scaled and written to the image; `base` is the image
     * before the glyph was begun.
     */
    static method RenderRow(decoder: BitDecoder, scale: nat, g: Glyph, x: int, y: int, sy: nat, image: array<byte>, width: int, height: int, ghost base: seq<byte>)
      requires decoder.Valid() && decoder.start == g.offset && decoder.count == sy * g.width
      requires scale == Scale(decoder.size) && Readable(g, decoder.data.bytes, decoder.size) && sy < g.height
      requires width >= 0 && height >= 0 && |base| == width * height && InCanvas(g, x, y, width, height)
      requires image.Length == |base|
      requires image[..] == Paint(base, decoder.data.bytes, g, x, y, width, decoder.size, sy * g.width)
      modifies decoder, image
      ensures decoder.Valid() && decoder.start == g.offset && decoder.count == sy * g.width + g.width
      ensures image[..] == Paint(base, decoder.data.bytes, g, x, y, width, decoder.size, sy * g.width + g.width)
    {
      ghost var bytes := decoder.data.bytes;
      ghost var depth := decoder.size;
      ghost var n := sy * g.width;
      var sx := 0;
      while sx < g.width
        invariant 0 <= sx <= g.width && n == sy * g.width + sx
        invariant decoder.Valid() && decoder.start == g.offset && decoder.count == n
        invariant image[..] == Paint(base, bytes, g, x, y, width, depth, n)
      {
        ghost var before := image[..];
        SampleInRun(g, depth, sy, sx);
        var value := decoder.Decode();
        DecodedPixel(bytes, g, depth, sy, sx, n, value);
        var pixel := (value * scale) as byte;
        var dx := x + sx + g.xOffset;
        var dy := y + sy + g.yOffset;
        PaintStep(base, bytes, g, x, y, width, height, depth, sy, sx, n);
        TargetAt(g, x, y, width, sy, sx, dy, dx);
        image[dy * width + dx] := pixel;
        assert image[..] == before[Target(g, x, y, width, sy, sx) := pixel];
        sx := sx + 1;
        n := n + 1;
      }
    }

    /**
     * `renderFont`: the canvas is as wide as the advances add up to and as
     * high as the line height; every glyph is drawn, when bpp is one the
     * switch handles, with its origin at the sum of the advances before it
     * and at row `-minYOffset`, on an image that starts blank. Writing the
     * image to a file is not modelled.
     */
    method RenderFont() returns (image: array<byte>, width: int, height: int)
      requires SumAdvance(glyphs) >= 0
      requires ValidDepth(bpp) ==> AllReadable(glyphs, bitmap.bytes, bpp)
      requires ValidDepth(bpp) ==> Placed(glyphs, SumAdvance(glyphs), yAdvance)
      ensures width == SumAdvance(glyphs) && height == yAdvance
      ensures fresh(image) && image.Length == width * height
      ensures ValidDepth(bpp) ==> image[..] == Canvas(glyphs, bitmap.bytes, bpp, width, height, |glyphs|)
      ensures !ValidDepth(bpp) ==> forall k :: 0 <= k < image.Length ==> image[k] == 0
    {
      width := 0;
      height := yAdvance;
      var minYOffset := 0;
      var i := 0;
      while i < |glyphs|
        invariant 0 <= i <= |glyphs|
        invariant width == SumAdvance(glyphs[..i]) && minYOffset == MinYOffset(glyphs[..i])
      {
        SumAdvanceStep(glyphs, i);
        MinYOffsetStep(glyphs, i);
        width := width + glyphs[i].xAdvance;
        minYOffset := if glyphs[i].yOffset < minYOffset then glyphs[i].yOffset else minYOffset;
        i := i + 1;
      }
      assert glyphs[..i] == glyphs;
      image := new byte[width * height](k => 0);
      var x := 0;
      var y := -minYOffset;
      assert y == Baseline(glyphs);
      assert ValidDepth(bpp) ==> image[..] == Canvas(glyphs, bitmap.bytes, bpp, width, height, 0);
      i := 0;
      while i < |glyphs|
        invariant 0 <= i <= |glyphs| && x == SumAdvance(glyphs[..i])
        invariant ValidDepth(bpp) ==> image[..] == Canvas(glyphs, bitmap.bytes, bpp, width, height, i)
        invariant !ValidDepth(bpp) ==> forall k :: 0 <= k < image.Length ==> image[k] == 0
      {
        if bpp == 1 || bpp == 2 || bpp == 4 || bpp == 8 {
          CanvasStep(glyphs, bitmap.bytes, bpp, width, height, i);
          RenderGlyph(bpp, glyphs[i], x, y, image, width, height);
        }
        SumAdvanceStep(glyphs, i);
        x := x + glyphs[i].xAdvance;
        i := i + 1;
      }
    }
  }

  /**
   * What the glyph loop leaves for `renderFont` to read: on a fresh
   * converter, every record's run lies within the stream, so every glyph
   * `renderGlyph` decodes is readable.
   */
  lemma ConvertedReadable(face: Face, bpp: nat, first: int, last: int)
    requires ValidDepth(bpp) && FaceOk(face, bpp, first, last + 1)
    ensures AllReadable(Records(face.load, Converted(face, bpp), first, last + 1, 0), Stream(Converted(face, bpp), first, last + 1), bpp)
  {
    ConvertedFits(face, bpp, first, last + 1);
    RecordsInStream(face.load, Converted(face, bpp), bpp, first, last + 1, 0);
  }

  /** One more code point: the bytes of the next chunk come after those of the earlier ones. */
  lemma StreamGrows(prior: seq<byte>, now: seq<byte>, next: seq<byte>, chunk: int -> seq<byte>, first: int, i: int)
    requires first <= i
    requires now == prior + Stream(chunk, first, i) && next == now + chunk(i)
    ensures next == prior + Stream(chunk, first, i + 1)
  {
    assert Stream(chunk, first, i + 1) == Stream(chunk, first, i) + chunk(i);
  }

  /** One more code point: its record, if any, comes after those of the earlier ones, its offset where its chunk begins. */
  lemma RecordsGrow(prior: seq<Glyph>, now: seq<Glyph>, next: seq<Glyph>, load: int -> Outcome, chunk: int -> seq<byte>, first: int, i: int, base: nat, at: nat)
    requires first <= i && at == base + |Stream(chunk, first, i)|
    requires now == prior + Records(load, chunk, first, i, base) && next == now + Entry(load(i), at)
    ensures next == prior + Records(load, chunk, first, i + 1, base)
  {
    assert Records(load, chunk, first, i + 1, base) == Records(load, chunk, first, i, base) + Entry(load(i), at);
  }

  /**
   * What the preview draws is what was converted: for a rendered code
   * point c whose bytes are its packed samples, once the glyph loop has
   * run over [first, end) after `prior`, the record made for c reads
   * within the stream, and the preview pixel (sx, sy) it yields is the
   * sample `convertBitmap` took from that pixel of the FreeType image,
   * stretched by the scale.
   */
  lemma PreviewShowsSamples(load: int -> Outcome, chunk: int -> seq<byte>, depth: nat, first: int, end: int, prior: seq<byte>, c: int, sy: nat, sx: nat)
    requires first <= c < end && load(c).Rendered? && RasterOk(load(c).bitmap, depth) && chunk(c) == Bytes(load(c), depth)
    requires sy < load(c).bitmap.rows && sx < load(c).bitmap.width
    ensures var bytes := prior + Stream(chunk, first, end);
      var g := Record(load(c), |prior| + |Stream(chunk, first, c)|);
      && Readable(g, bytes, depth)
      && Pixel(bytes, g, depth, sy, sx) == Quantise(load(c).bitmap, depth, sy, sx) * Scale(depth)
  {
    ChunkAfter(prior, chunk, first, end, c);
    DecodedSample(prior + Stream(chunk, first, end), Record(load(c), |prior| + |Stream(chunk, first, c)|), load(c).bitmap, depth, sy, sx);
  }

  /**
   * A glyph whose run is the packed samples of image r reads within the
   * bytes, and its pixel (sx, sy) is the sample taken from pixel (sx, sy)
   * of r, stretched by the scale.
   */
  lemma DecodedSample(bytes: seq<byte>, g: Glyph, r: Raster, depth: nat, sy: nat, sx: nat)
    requires RasterOk(r, depth) && sy < r.rows && sx < r.width && g.width == r.width && g.height == r.rows
    requires var run := Pack(Samples(r, depth, r.rows), depth);
      g.offset + |run| <= |bytes| && bytes[g.offset..g.offset + |run|] == run
    ensures Readable(g, bytes, depth)
    ensures Pixel(bytes, g, depth, sy, sx) == Quantise(r, depth, sy, sx) * Scale(depth)
  {
    var s := Samples(r, depth, r.rows);
    PackLength(s, depth);
    var i := Flat(sy, sx, r.width);
    SampleOrder(r, depth, r.rows, sy, sx);
    DecodeAfterEncode(bytes, g.offset, s, i, depth);
    LowSmall(Quantise(r, depth, sy, sx), depth);
    DecodedPixel(bytes, g, depth, sy, sx, i, SampleAt(bytes[g.offset..], i, depth));
  }
}
