/**
 * The glyph table and the bitmap stream the converter builds: what
 * FreeType yields for each code point, the `BitmapFontGlyph` record made
 * from it, and, as functions of the code points visited so far, the
 * records and the bytes the glyph loop of `Converter::operator()` has
 * appended.
 */
module Glyphs {
  import opened Bits
  import opened BitPack
  import opened Rasters

  datatype Option<T> = None | Some(value: T)

  /** A `BitmapFontGlyph`: where its samples start in the stream, its box, and its metrics. */
  datatype Glyph = Glyph(offset: nat, width: nat, height: nat, xAdvance: int, xOffset: int, yOffset: int)

  /**
   * What FreeType yields for one code point: `Failed` when loading,
   * rendering or fetching the glyph reports an error; otherwise the
   * rendered image, the horizontal advance in 26.6 fixed point, and the
   * bitmap's left and top bearings in pixels.
   */
  datatype Outcome = Failed | Rendered(bitmap: Raster, advance: int, left: int, top: int)

  /** An opened face at the requested size: the outcome for each code point and the line height in 26.6 fixed point. */
  datatype Face = Face(load: int -> Outcome, height: int)

  /** `v >> 6` on a signed value: Dafny's division by a positive divisor rounds down, as an arithmetic shift does. */
  function Shr6(v: int): (r: int)
    ensures r * 64 <= v < r * 64 + 64
  {
    v / 64
  }

  /** Every image FreeType renders for the code points in [first, end) has a sound layout, when the depth is one the converter encodes. */
  predicate FaceOk(face: Face, depth: nat, first: int, end: int)
  {
    forall c :: first <= c < end && face.load(c).Rendered? && ValidDepth(depth) ==> RasterOk(face.load(c).bitmap, depth)
  }

  /** The record the loop makes for a rendered glyph whose samples start at `offset`. */
  function Record(o: Outcome, offset: nat): (g: Glyph)
    requires o.Rendered?
    ensures g.width == o.bitmap.width && g.height == o.bitmap.rows && g.offset == offset
    ensures g.xAdvance * 64 <= o.advance < g.xAdvance * 64 + 64
    ensures g.xOffset == o.left && g.yOffset + o.top == 1
  {
    Glyph(offset, o.bitmap.width, o.bitmap.rows, Shr6(o.advance), o.left, 1 - o.top)
  }

  /** The records the loop appends for an outcome whose samples would start at `offset`: one for a rendered glyph, none for a failure. */
  function Entry(o: Outcome, offset: nat): (es: seq<Glyph>)
    ensures |es| <= 1 && (es == [] <==> o.Failed?)
  {
    if o.Rendered? then [Record(o, offset)] else []
  }

  /**
   * The bytes `convertBitmap` appends for one outcome: the packed samples
   * of a rendered image, none for a failure or a depth the switch does not
   * handle (`RasterOk` includes the depth check).
   */
  function Bytes(o: Outcome, depth: nat): (b: seq<byte>)
    ensures o.Failed? || !ValidDepth(depth) ==> b == []
    ensures o.Rendered? && RasterOk(o.bitmap, depth) ==> |b| == PackedLen(o.bitmap.width * o.bitmap.rows, depth)
  {
    if o.Rendered? && RasterOk(o.bitmap, depth) then
      var s := Samples(o.bitmap, depth, o.bitmap.rows);
      PackLength(s, depth);
      Pack(s, depth)
    else []
  }

  /** The bytes appended for each code point of a face. */
  function Converted(face: Face, depth: nat): int -> seq<byte>
  {
    c => Bytes(face.load(c), depth)
  }

  /** The chunks of the code points in [first, end), in order. */
  function Stream(chunk: int -> seq<byte>, first: int, end: int): seq<byte>
    decreases end - first
  {
    if end <= first then [] else Stream(chunk, first, end - 1) + chunk(end - 1)
  }

  /** The records appended for the code points in [first, end), when the stream began `base` bytes in. */
  function Records(load: int -> Outcome, chunk: int -> seq<byte>, first: int, end: int, base: nat): seq<Glyph>
    decreases end - first
  {
    if end <= first then []
    else
      Records(load, chunk, first, end - 1, base) + Entry(load(end - 1), base + |Stream(chunk, first, end - 1)|)
  }

  /** Bytes of a glyph's run: ceil(width * height * depth / 8). */
  function RunLen(g: Glyph, depth: nat): nat
    requires ValidDepth(depth)
  {
    PackedLen(g.width * g.height, depth)
  }

  /** Each code point's chunk is as long as the run its record will claim; a failed one has none. */
  predicate Fits(load: int -> Outcome, chunk: int -> seq<byte>, depth: nat, first: int, end: int)
    requires ValidDepth(depth)
  {
    forall c :: first <= c < end ==>
      |chunk(c)| == (if load(c).Rendered? then PackedLen(load(c).bitmap.width * load(c).bitmap.rows, depth) else 0)
  }

  /** Every record's run lies within [lo, hi). */
  predicate Within(rs: seq<Glyph>, depth: nat, lo: int, hi: int)
    requires ValidDepth(depth)
  {
    forall j :: 0 <= j < |rs| ==> lo <= rs[j].offset && rs[j].offset + RunLen(rs[j], depth) <= hi
  }

  /**
   * The records' runs cover [lo, hi) end to end: the last one's run ends
   * at hi and the others tile [lo, its offset); without records the range
   * is empty.
   */
  predicate Tiled(rs: seq<Glyph>, depth: nat, lo: int, hi: int)
    requires ValidDepth(depth)
    decreases |rs|
  {
    if rs == [] then lo == hi
    else
      var g := rs[|rs| - 1];
      g.offset + RunLen(g, depth) == hi && Tiled(rs[..|rs| - 1], depth, lo, g.offset)
  }

  // ---------------------------------------------------------------------
  // Lemmas

  /** A record's run is as long as the rendered image's packed samples. */
  lemma RecordRun(o: Outcome, offset: nat, depth: nat)
    requires o.Rendered? && ValidDepth(depth)
    ensures RunLen(Record(o, offset), depth) == PackedLen(o.bitmap.width * o.bitmap.rows, depth)
  {
  }

  /** The bytes of a sound face fit the records made for it. */
  lemma ConvertedFits(face: Face, depth: nat, first: int, end: int)
    requires FaceOk(face, depth, first, end) && ValidDepth(depth)
    ensures Fits(face.load, Converted(face, depth), depth, first, end)
  {
  }

  /**
   * The records tile the stream: the first starts where the stream began,
   * each starts where the previous one's run of
   * ceil(width * height * depth / 8) bytes ends, and the last one's run
   * ends with the stream. Without records the stream is empty.
   */
  lemma {:induction false} RecordsTile(load: int -> Outcome, chunk: int -> seq<byte>, depth: nat, first: int, end: int, base: nat)
    requires ValidDepth(depth) && Fits(load, chunk, depth, first, end)
    ensures Tiled(Records(load, chunk, first, end, base), depth, base, base + |Stream(chunk, first, end)|)
    decreases end - first
  {
    if end > first {
      RecordsTile(load, chunk, depth, first, end - 1, base);
      var o := load(end - 1);
      var mid := base + |Stream(chunk, first, end - 1)|;
      assert |Stream(chunk, first, end)| == |Stream(chunk, first, end - 1)| + |chunk(end - 1)|;
      if o.Rendered? {
        RecordRun(o, mid, depth);
      }
      assert Records(load, chunk, first, end, base) == Records(load, chunk, first, end - 1, base) + Entry(o, mid);
      TiledSnoc(Records(load, chunk, first, end - 1, base), Entry(o, mid), depth, base, mid, mid + |chunk(end - 1)|);
    }
  }

  /**
   * In tiled records each run ends where the next record's run starts
   * (the last one's at hi), and the first starts at lo; so
   * `offset[j + 1] == offset[j] + ceil(w_j * h_j * depth / 8)`.
   */
  lemma {:induction false} TiledNext(rs: seq<Glyph>, depth: nat, lo: int, hi: int, j: nat)
    requires ValidDepth(depth) && Tiled(rs, depth, lo, hi) && j < |rs|
    ensures rs[j].offset + RunLen(rs[j], depth) == (if j + 1 < |rs| then rs[j + 1].offset else hi)
    ensures j == 0 ==> rs[0].offset == lo
    decreases |rs|
  {
    var k := |rs| - 1;
    if j < k {
      TiledNext(rs[..k], depth, lo, rs[k].offset, j);
    }
  }

  /** Offsets of tiled records never decrease, and all of them lie in [lo, hi]. */
  lemma {:induction false} TiledOrdered(rs: seq<Glyph>, depth: nat, lo: int, hi: int, i: nat, j: nat)
    requires ValidDepth(depth) && Tiled(rs, depth, lo, hi) && i <= j < |rs|
    ensures lo <= rs[i].offset <= rs[j].offset && rs[j].offset + RunLen(rs[j], depth) <= hi
    decreases |rs|
  {
    var k := |rs| - 1;
    if j < k {
      TiledOrdered(rs[..k], depth, lo, rs[k].offset, i, j);
    } else if i < k {
      TiledOrdered(rs[..k], depth, lo, rs[k].offset, i, k - 1);
      TiledNext(rs[..k], depth, lo, rs[k].offset, k - 1);
    } else if k > 0 {
      TiledOrdered(rs[..k], depth, lo, rs[k].offset, k - 1, k - 1);
    }
  }

  /** Runs that tile [lo, mid), followed by at most one run that covers [mid, hi), tile [lo, hi). */
  lemma TiledSnoc(rs: seq<Glyph>, es: seq<Glyph>, depth: nat, lo: int, mid: int, hi: int)
    requires ValidDepth(depth) && Tiled(rs, depth, lo, mid) && |es| <= 1
    requires es == [] ==> mid == hi
    requires es != [] ==> es[0].offset == mid && mid + RunLen(es[0], depth) == hi
    ensures Tiled(rs + es, depth, lo, hi)
  {
    if es == [] {
      assert rs + es == rs;
    } else {
      assert (rs + es)[..|rs|] == rs;
    }
  }

  /** Every record's run lies within the stream. */
  lemma {:induction false} RecordsInStream(load: int -> Outcome, chunk: int -> seq<byte>, depth: nat, first: int, end: int, base: nat)
    requires ValidDepth(depth) && Fits(load, chunk, depth, first, end)
    ensures Within(Records(load, chunk, first, end, base), depth, base, base + |Stream(chunk, first, end)|)
    decreases end - first
  {
    if end > first {
      RecordsInStream(load, chunk, depth, first, end - 1, base);
      var o := load(end - 1);
      var before := Records(load, chunk, first, end - 1, base);
      var rs := Records(load, chunk, first, end, base);
      var tail := Stream(chunk, first, end - 1);
      var all := Stream(chunk, first, end);
      assert all == tail + chunk(end - 1);
      assert |tail| <= |all|;
      forall j | 0 <= j < |rs|
        ensures base <= rs[j].offset && rs[j].offset + RunLen(rs[j], depth) <= base + |all|
      {
        if j < |before| {
          assert rs[j] == before[j];
          assert before[j].offset + RunLen(before[j], depth) <= base + |tail|;
        } else {
          assert o.Rendered? && rs[j] == Record(o, base + |tail|);
          RecordRun(o, base + |tail|, depth);
        }
      }
    }
  }

  /** The record of a rendered code point c is among the records, with its offset where the bytes for c begin. */
  lemma {:induction false} RecordOfCode(load: int -> Outcome, chunk: int -> seq<byte>, first: int, end: int, base: nat, c: int)
    requires first <= c < end && load(c).Rendered?
    ensures Record(load(c), base + |Stream(chunk, first, c)|) in Records(load, chunk, first, end, base)
    decreases end - first
  {
    if c < end - 1 {
      RecordOfCode(load, chunk, first, end - 1, base, c);
    }
  }

  /** The chunk for code point c sits in the stream where its record's offset points. */
  lemma {:induction false} ChunkOfCode(chunk: int -> seq<byte>, first: int, end: int, c: int)
    requires first <= c < end
    ensures var at := |Stream(chunk, first, c)|;
      at + |chunk(c)| <= |Stream(chunk, first, end)| && Stream(chunk, first, end)[at..at + |chunk(c)|] == chunk(c)
    decreases end - first
  {
    var before := Stream(chunk, first, end - 1);
    var at := |Stream(chunk, first, c)|;
    var b := chunk(c);
    assert Stream(chunk, first, end) == before + chunk(end - 1);
    if c < end - 1 {
      ChunkOfCode(chunk, first, end - 1, c);
      assert before[at..at + |b|] == b;
    } else {
      assert at == |before|;
    }
  }

  /** After `prior`, the chunk for code point c sits where its record's offset points. */
  lemma ChunkAfter(prior: seq<byte>, chunk: int -> seq<byte>, first: int, end: int, c: int)
    requires first <= c < end
    ensures var bytes := prior + Stream(chunk, first, end);
      var at := |prior| + |Stream(chunk, first, c)|;
      at + |chunk(c)| <= |bytes| && bytes[at..at + |chunk(c)|] == chunk(c)
  {
    var k := |Stream(chunk, first, c)|;
    ChunkOfCode(chunk, first, end, c);
    SliceAfter(prior, Stream(chunk, first, end), k, k + |chunk(c)|);
  }

  /** A slice of q, found again after p. */
  lemma SliceAfter<T>(p: seq<T>, q: seq<T>, a: nat, b: nat)
    requires a <= b <= |q|
    ensures (p + q)[|p| + a..|p| + b] == q[a..b]
  {
  }
}
