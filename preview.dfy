/**
 * The preview image `renderFont` draws: the glyphs side by side on a
 * canvas `width` pixels wide (the sum of the advances) and `height` rows
 * high (the line height), each glyph's samples scaled up to 0..255 and
 * written at its origin plus its offsets. Nothing is clipped, so a glyph
 * must lie inside the canvas.
 */
module Preview {
  import opened Bits
  import opened BitPack
  import opened Rasters
  import opened Glyphs

  /**
   * `255 / ((1 << N) - 1)`: the factor that stretches an N-bit sample to a
   * byte. At 1, 2, 4 and 8 bits the division is exact, so the largest
   * sample becomes 255.
   */
  function Scale(depth: nat): (s: nat)
    requires ValidDepth(depth)
    ensures Mask(depth) * s == 255
  {
    ShlGrow(1, depth);
    if depth == 8 then
      ShlEight();
      255 / Mask(depth)
    else
      assert Shl(1, 1) == 2 && Shl(1, 2) == 4 && Shl(1, 4) == 16;
      255 / Mask(depth)
  }

  /**
   * A scaled sample fits a byte, so storing it in a `uint8_t` loses
   * nothing, and the largest sample becomes 255, full intensity.
   */
  lemma ScaleFits(v: nat, depth: nat)
    requires ValidDepth(depth) && v < Shl(1, depth)
    ensures v * Scale(depth) <= 255
    ensures Mask(depth) * Scale(depth) == 255
  {
    if depth == 1 {
      assert Shl(1, 1) == 2;
      assert Scale(depth) == 255 && v <= 1;
    } else if depth == 2 {
      assert Shl(1, 2) == 4;
      assert Scale(depth) == 85 && v <= 3;
    } else if depth == 4 {
      assert Shl(1, 4) == 16;
      assert Scale(depth) == 17 && v <= 15;
    } else {
      assert Shl(1, 8) == 256 by {
        ShlEight();
      }
      assert Scale(depth) == 1 && v <= 255;
    }
  }

  /** The factors for 1, 2, 4 and 8 bits per pixel. */
  lemma ScaleValues()
    ensures Scale(1) == 255 && Scale(2) == 85 && Scale(4) == 17 && Scale(8) == 1
  {
    assert Shl(1, 1) == 2 && Shl(1, 2) == 4 && Shl(1, 4) == 16;
    ShlEight();
  }

  /** The glyph's run of samples lies within the stream. */
  predicate Readable(g: Glyph, bytes: seq<byte>, depth: nat)
    requires ValidDepth(depth)
  {
    g.offset + RunLen(g, depth) <= |bytes|
  }

  /** The glyph's box, placed at origin (x, y) plus its offsets, lies inside a width x height canvas; an empty box fits anywhere. */
  predicate InCanvas(g: Glyph, x: int, y: int, width: int, height: int)
  {
    g.width == 0 || g.height == 0 ||
    (0 <= x + g.xOffset && x + g.xOffset + g.width <= width && 0 <= y + g.yOffset && y + g.yOffset + g.height <= height)
  }

  /** Pixel (sx, sy) of a glyph, as `renderGlyph` writes it: the decoded sample times the scale. */
  function Pixel(bytes: seq<byte>, g: Glyph, depth: nat, sy: nat, sx: nat): (p: byte)
    requires ValidDepth(depth) && Readable(g, bytes, depth) && sy < g.height && sx < g.width
  {
    var i := sy * g.width + sx;
    SampleInRun(g, depth, sy, sx);
    SlotFits(bytes[g.offset..][ByteIndex(i, depth)], SlotIndex(i, depth), depth);
    ScaleFits(SampleAt(bytes[g.offset..], i, depth), depth);
    SampleAt(bytes[g.offset..], i, depth) * Scale(depth)
  }

  /** The sample a decoder reads as number sy * width + sx of the glyph's run, times the scale, is pixel (sx, sy). */
  lemma DecodedPixel(bytes: seq<byte>, g: Glyph, depth: nat, sy: nat, sx: nat, n: nat, v: nat)
    requires ValidDepth(depth) && Readable(g, bytes, depth) && sy < g.height && sx < g.width && n == sy * g.width + sx
    requires g.offset + ByteIndex(n, depth) < |bytes| && v == SampleAt(bytes[g.offset..], n, depth)
    ensures v * Scale(depth) == Pixel(bytes, g, depth, sy, sx)
  {
  }

  /** Canvas pixel k is pixel (k % width - x - xOffset, k / width - y - yOffset) of the glyph placed at (x, y). */
  predicate Covers(g: Glyph, x: int, y: int, width: int, k: int)
  {
    width > 0 && 0 <= k / width - y - g.yOffset < g.height && 0 <= k % width - x - g.xOffset < g.width
  }

  /** Where among the glyph's pixels, counted row by row, the one drawn at canvas pixel k comes. */
  function PixelNo(g: Glyph, x: int, y: int, width: int, k: int): nat
    requires Covers(g, x, y, width, k)
  {
    (k / width - y - g.yOffset) * g.width + (k % width - x - g.xOffset)
  }

  /** The glyph pixel that lands on canvas pixel k. */
  function PixelAt(bytes: seq<byte>, g: Glyph, x: int, y: int, width: int, depth: nat, k: int): byte
    requires ValidDepth(depth) && Readable(g, bytes, depth) && Covers(g, x, y, width, k)
  {
    Pixel(bytes, g, depth, k / width - y - g.yOffset, k % width - x - g.xOffset)
  }

  /** The canvas `img` with the first n pixels of the glyph, counted row by row, drawn at origin (x, y). */
  function Paint(img: seq<byte>, bytes: seq<byte>, g: Glyph, x: int, y: int, width: int, depth: nat, n: nat): (r: seq<byte>)
    requires ValidDepth(depth) && Readable(g, bytes, depth)
    ensures |r| == |img|
  {
    seq(|img|, k requires 0 <= k < |img| =>
      if Covers(g, x, y, width, k) && PixelNo(g, x, y, width, k) < n
      then PixelAt(bytes, g, x, y, width, depth, k)
      else img[k])
  }

  /** The sum of the advances: the canvas width, and glyph i's x origin when taken over the glyphs before it. */
  function SumAdvance(gs: seq<Glyph>): int
  {
    if gs == [] then 0 else SumAdvance(gs[..|gs| - 1]) + gs[|gs| - 1].xAdvance
  }

  /** The least y offset, starting from 0. */
  function MinYOffset(gs: seq<Glyph>): int
  {
    if gs == [] then 0
    else if gs[|gs| - 1].yOffset < MinYOffset(gs[..|gs| - 1]) then gs[|gs| - 1].yOffset
    else MinYOffset(gs[..|gs| - 1])
  }

  /** The row every glyph's origin is placed on, `-minYOffset`. */
  function Baseline(gs: seq<Glyph>): int
  {
    -MinYOffset(gs)
  }

  /** Every glyph's run of samples lies within the stream. */
  predicate AllReadable(gs: seq<Glyph>, bytes: seq<byte>, depth: nat)
    requires ValidDepth(depth)
  {
    forall j {:trigger Readable(gs[j], bytes, depth)} :: 0 <= j < |gs| ==> Readable(gs[j], bytes, depth)
  }

  /** Every glyph, placed at the sum of the advances before it on row `-minYOffset`, lies inside a width x height canvas. */
  predicate Placed(gs: seq<Glyph>, width: int, height: int)
  {
    forall j {:trigger InCanvas(gs[j], SumAdvance(gs[..j]), Baseline(gs), width, height)} :: 0 <= j < |gs| ==>
      InCanvas(gs[j], SumAdvance(gs[..j]), Baseline(gs), width, height)
  }

  /** The canvas after the first i glyphs are drawn, each at its origin, on a blank width x height image. */
  function Canvas(gs: seq<Glyph>, bytes: seq<byte>, depth: nat, width: nat, height: nat, i: nat): (c: seq<byte>)
    requires ValidDepth(depth) && AllReadable(gs, bytes, depth) && i <= |gs|
    ensures |c| == width * height
  {
    if i == 0 then seq(width * height, k => 0)
    else
      var g := gs[i - 1];
      Paint(Canvas(gs, bytes, depth, width, height, i - 1), bytes, g, SumAdvance(gs[..i - 1]), Baseline(gs), width, depth, g.width * g.height)
  }

  // ---------------------------------------------------------------------
  // Arithmetic on flat indices

  /** Sample number sy * width + sx of a glyph is one of its width * height samples and lies in its run. */
  lemma SampleInRun(g: Glyph, depth: nat, sy: nat, sx: nat)
    requires ValidDepth(depth) && sy < g.height && sx < g.width
    ensures sy * g.width + sx < g.width * g.height
    ensures ByteIndex(sy * g.width + sx, depth) < RunLen(g, depth)
  {
    RowEnd(sy, g.height, g.width);
    assert g.height * g.width == g.width * g.height;
    IndexInRun(sy * g.width + sx, g.width * g.height, depth);
  }

  /** A sample before the end of a run lies in one of the run's bytes. */
  lemma IndexInRun(i: nat, n: nat, depth: nat)
    requires ValidDepth(depth) && i < n
    ensures ByteIndex(i, depth) < PackedLen(n, depth)
  {
  }

  /** The next row starts a row's width further on. */
  lemma NextRow(sy: nat, w: nat)
    ensures (sy + 1) * w == sy * w + w
  {
  }

  /** Rows times width is width times rows. */
  lemma Area(h: nat, w: nat)
    ensures h * w == w * h
  {
  }

  /** A row and a column inside it are recovered from their flat index. */
  lemma FlatUnique(q1: int, r1: int, q2: int, r2: int, w: int)
    requires w > 0 && 0 <= r1 < w && 0 <= r2 < w && q1 * w + r1 == q2 * w + r2
    ensures q1 == q2 && r1 == r2
  {
    if q1 < q2 {
      MulStep(q1, q2, w);
    } else if q2 < q1 {
      MulStep(q2, q1, w);
    }
  }

  /** A larger row index starts at least a whole row further on. */
  lemma MulStep(a: int, b: int, w: int)
    requires a < b && w > 0
    ensures a * w + w <= b * w
  {
    var d := b - a - 1;
    assert d * w >= 0;
    assert b * w == (a + 1 + d) * w;
    assert (a + 1 + d) * w == a * w + w + d * w;
  }

  /** Flat index dy * w + dx, with dx a column, has row dy and column dx. */
  lemma FlatIndex(dy: int, dx: int, w: int)
    requires w > 0 && 0 <= dx < w
    ensures (dy * w + dx) / w == dy && (dy * w + dx) % w == dx
  {
    var k := dy * w + dx;
    assert k == (k / w) * w + k % w;
    FlatUnique(k / w, k % w, dy, dx, w);
  }

  // ---------------------------------------------------------------------
  // Lemmas about painting

  /** The canvas index `(y + sy + yOffset) * width + (x + sx + xOffset)` that `renderGlyph` writes pixel (sx, sy) to. */
  function Target(g: Glyph, x: int, y: int, width: int, sy: int, sx: int): int
  {
    (y + sy + g.yOffset) * width + (x + sx + g.xOffset)
  }

  /** The target is the flat index of canvas column dx and row dy, the glyph's origin plus its offsets plus (sx, sy). */
  lemma TargetAt(g: Glyph, x: int, y: int, width: int, sy: int, sx: int, dy: int, dx: int)
    requires dx == x + sx + g.xOffset && dy == y + sy + g.yOffset
    ensures Target(g, x, y, width, sy, sx) == dy * width + dx
  {
  }

  /** Inside the canvas, the index pixel (sx, sy) is written to is covered by that very pixel. */
  lemma TargetCovered(g: Glyph, x: int, y: int, width: int, height: int, sy: nat, sx: nat)
    requires sy < g.height && sx < g.width && width >= 0 && height >= 0 && InCanvas(g, x, y, width, height)
    ensures var t := Target(g, x, y, width, sy, sx);
      0 <= t < width * height && Covers(g, x, y, width, t)
      && t / width - y - g.yOffset == sy && t % width - x - g.xOffset == sx
      && PixelNo(g, x, y, width, t) == sy * g.width + sx
  {
    var dx := x + sx + g.xOffset;
    var dy := y + sy + g.yOffset;
    assert 0 <= dy * width + dx < width * height by {
      RowEnd(dy, height, width);
      assert height * width == width * height;
    }
    FlatIndex(dy, dx, width);
  }

  /** Only the index pixel (sx, sy) is written to is covered by that pixel. */
  lemma CoveredOnce(g: Glyph, x: int, y: int, width: int, k: int, sy: nat, sx: nat)
    requires sx < g.width && Covers(g, x, y, width, k) && PixelNo(g, x, y, width, k) == sy * g.width + sx
    ensures k == Target(g, x, y, width, sy, sx)
  {
    assert k == (k / width) * width + k % width;
    FlatUnique(k / width - y - g.yOffset, k % width - x - g.xOffset, sy, sx, g.width);
  }

  /** Canvas pixel k after painting pixel number sy * width + sx as well. */
  lemma PaintStepAt(img: seq<byte>, bytes: seq<byte>, g: Glyph, x: int, y: int, width: int, height: int, depth: nat, sy: nat, sx: nat, k: int)
    requires ValidDepth(depth) && Readable(g, bytes, depth) && sy < g.height && sx < g.width
    requires width >= 0 && height >= 0 && |img| == width * height && InCanvas(g, x, y, width, height)
    requires 0 <= k < |img|
    ensures Paint(img, bytes, g, x, y, width, depth, sy * g.width + sx + 1)[k]
      == if k == Target(g, x, y, width, sy, sx) then Pixel(bytes, g, depth, sy, sx)
         else Paint(img, bytes, g, x, y, width, depth, sy * g.width + sx)[k]
  {
    TargetCovered(g, x, y, width, height, sy, sx);
    if k != Target(g, x, y, width, sy, sx) && Covers(g, x, y, width, k) {
      if PixelNo(g, x, y, width, k) == sy * g.width + sx {
        CoveredOnce(g, x, y, width, k, sy, sx);
      }
    }
  }

  /**
   * Painting the glyph's pixel number sy * width + sx as well writes that
   * one pixel, at canvas index `(y + sy + yOffset) * width + (x + sx + xOffset)`,
   * and changes nothing else.
   */
  lemma PaintStep(img: seq<byte>, bytes: seq<byte>, g: Glyph, x: int, y: int, width: int, height: int, depth: nat, sy: nat, sx: nat, n: nat)
    requires ValidDepth(depth) && Readable(g, bytes, depth) && sy < g.height && sx < g.width && n == sy * g.width + sx
    requires width >= 0 && height >= 0 && |img| == width * height && InCanvas(g, x, y, width, height)
    ensures var t := Target(g, x, y, width, sy, sx);
      0 <= t < |img|
      && Paint(img, bytes, g, x, y, width, depth, n + 1)
         == Paint(img, bytes, g, x, y, width, depth, n)[t := Pixel(bytes, g, depth, sy, sx)]
  {
    var t := Target(g, x, y, width, sy, sx);
    TargetCovered(g, x, y, width, height, sy, sx);
    var before := Paint(img, bytes, g, x, y, width, depth, n);
    var after := Paint(img, bytes, g, x, y, width, depth, n + 1);
    forall k | 0 <= k < |img|
      ensures after[k] == before[t := Pixel(bytes, g, depth, sy, sx)][k]
    {
      PaintStepAt(img, bytes, g, x, y, width, height, depth, sy, sx, k);
    }
  }

  /** Once all its pixels are painted, a glyph shows exactly on the canvas pixels it covers. */
  lemma PaintAll(img: seq<byte>, bytes: seq<byte>, g: Glyph, x: int, y: int, width: int, depth: nat, k: int)
    requires ValidDepth(depth) && Readable(g, bytes, depth) && 0 <= k < |img|
    ensures var r := Paint(img, bytes, g, x, y, width, depth, g.width * g.height);
      if Covers(g, x, y, width, k) then r[k] == PixelAt(bytes, g, x, y, width, depth, k) else r[k] == img[k]
  {
    if Covers(g, x, y, width, k) {
      SampleInRun(g, depth, k / width - y - g.yOffset, k % width - x - g.xOffset);
    }
  }

  /** The x origins advance by each glyph's advance. */
  lemma SumAdvanceStep(gs: seq<Glyph>, i: nat)
    requires i < |gs|
    ensures SumAdvance(gs[..i + 1]) == SumAdvance(gs[..i]) + gs[i].xAdvance
  {
    assert gs[..i + 1][..i] == gs[..i];
  }

  /** The running minimum over one more glyph. */
  lemma MinYOffsetStep(gs: seq<Glyph>, i: nat)
    requires i < |gs|
    ensures MinYOffset(gs[..i + 1]) == if gs[i].yOffset < MinYOffset(gs[..i]) then gs[i].yOffset else MinYOffset(gs[..i])
  {
    assert gs[..i + 1][..i] == gs[..i];
  }

  /**
   * `-minYOffset` is a row at or below the top of the canvas from which no
   * glyph starts above the top: it is 0 or minus some glyph's y offset, and
   * at least minus every glyph's y offset.
   */
  lemma {:induction false} BaselineClears(gs: seq<Glyph>)
    ensures Baseline(gs) >= 0
    ensures forall j :: 0 <= j < |gs| ==> Baseline(gs) + gs[j].yOffset >= 0
    ensures Baseline(gs) == 0 || exists j :: 0 <= j < |gs| && Baseline(gs) + gs[j].yOffset == 0
    decreases |gs|
  {
    if gs != [] {
      var front := gs[..|gs| - 1];
      BaselineClears(front);
      assert forall j :: 0 <= j < |front| ==> front[j] == gs[j];
      if Baseline(front) != 0 && Baseline(gs) == Baseline(front) {
        var j :| 0 <= j < |front| && Baseline(front) + front[j].yOffset == 0;
        assert Baseline(gs) + gs[j].yOffset == 0;
      }
    }
  }

  /** Drawing glyph i on the canvas of the glyphs before it gives the canvas of the first i + 1 glyphs. */
  lemma CanvasStep(gs: seq<Glyph>, bytes: seq<byte>, depth: nat, width: nat, height: nat, i: nat)
    requires ValidDepth(depth) && AllReadable(gs, bytes, depth) && i < |gs|
    ensures Canvas(gs, bytes, depth, width, height, i + 1)
      == Paint(Canvas(gs, bytes, depth, width, height, i), bytes, gs[i], SumAdvance(gs[..i]), Baseline(gs), width, depth, gs[i].width * gs[i].height)
  {
  }

  /** A canvas pixel no glyph covers keeps the blank image's 0. */
  lemma {:induction false} CanvasBlank(gs: seq<Glyph>, bytes: seq<byte>, depth: nat, width: nat, height: nat, i: nat, k: int)
    requires ValidDepth(depth) && AllReadable(gs, bytes, depth) && i <= |gs| && 0 <= k < width * height
    requires forall j :: 0 <= j < i ==> !Covers(gs[j], SumAdvance(gs[..j]), Baseline(gs), width, k)
    ensures Canvas(gs, bytes, depth, width, height, i)[k] == 0
    decreases i
  {
    if i > 0 {
      var g := gs[i - 1];
      CanvasBlank(gs, bytes, depth, width, height, i - 1, k);
      PaintAll(Canvas(gs, bytes, depth, width, height, i - 1), bytes, g, SumAdvance(gs[..i - 1]), Baseline(gs), width, depth, k);
    }
  }

  /** A canvas pixel shows the last glyph drawn over it: glyph j, when no later glyph covers it. */
  lemma {:induction false} CanvasTop(gs: seq<Glyph>, bytes: seq<byte>, depth: nat, width: nat, height: nat, i: nat, j: nat, k: int)
    requires ValidDepth(depth) && AllReadable(gs, bytes, depth) && j < i <= |gs| && 0 <= k < width * height
    requires Covers(gs[j], SumAdvance(gs[..j]), Baseline(gs), width, k)
    requires forall l :: j < l < i ==> !Covers(gs[l], SumAdvance(gs[..l]), Baseline(gs), width, k)
    ensures Canvas(gs, bytes, depth, width, height, i)[k] == PixelAt(bytes, gs[j], SumAdvance(gs[..j]), Baseline(gs), width, depth, k)
    decreases i
  {
    var g := gs[i - 1];
    var before := Canvas(gs, bytes, depth, width, height, i - 1);
    PaintAll(before, bytes, g, SumAdvance(gs[..i - 1]), Baseline(gs), width, depth, k);
    if j < i - 1 {
      assert !Covers(g, SumAdvance(gs[..i - 1]), Baseline(gs), width, k);
      CanvasTop(gs, bytes, depth, width, height, i - 1, j, k);
      assert Canvas(gs, bytes, depth, width, height, i)[k] == before[k];
    }
  }
}
