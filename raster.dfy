/**
 * The glyph images FreeType renders (`FT_Bitmap`) and the samples
 * `convertBitmap<N>` takes from them: one per pixel, row by row, each
 * reduced to N bits. A 1-bit image stores eight pixels per byte, the
 * leftmost in the most significant bit; a grey image stores one byte per
 * pixel, of which the N most significant bits are kept.
 */
module Rasters {
  import opened Bits

  /** An `FT_Bitmap`: `rows` rows of `width` pixels, row y starting at byte `y * pitch`. */
  datatype Raster = Raster(rows: nat, width: nat, pitch: nat, buffer: seq<byte>)

  /** Bytes a row of the image occupies when rendered for `depth` bits per pixel. */
  function RowBytes(width: nat, depth: nat): nat
  {
    if depth == 1 then (width + 7) / 8 else width
  }

  /** The layout FreeType guarantees: each row fits its pitch, every row lies in the buffer. */
  predicate RasterOk(r: Raster, depth: nat)
  {
    ValidDepth(depth) && RowBytes(r.width, depth) <= r.pitch && r.rows * r.pitch <= |r.buffer|
  }

  /** The byte of the buffer that holds pixel (x, y) lies inside the buffer. */
  lemma PixelIndex(r: Raster, depth: nat, y: nat, x: nat)
    requires RasterOk(r, depth) && y < r.rows && x < r.width
    ensures y * r.pitch + (if depth == 1 then x / 8 else x) < |r.buffer|
  {
    RowEnd(y, r.rows, r.pitch);
  }

  /** Row y ends where row y + 1 begins, at or before the end of the last row. */
  lemma {:induction false} RowEnd(y: nat, rows: nat, pitch: nat)
    requires y < rows
    ensures y * pitch + pitch <= rows * pitch
    decreases rows
  {
    if y + 1 < rows {
      RowEnd(y, rows - 1, pitch);
      assert (rows - 1) * pitch + pitch == rows * pitch;
    }
  }

  /**
   * The sample `convertBitmap<1>` encodes for the pixel in column x of a
   * row whose byte `x / 8` is b: whether bit `0x80 >> (x & 7)` of it is
   * set, that is bit `7 - x % 8`, the leftmost pixel being the most
   * significant bit.
   */
  function MonoSample(b: byte, x: nat): (q: byte)
    ensures q < 2
    ensures q == 1 <==> Shr(b, 7 - x % 8) % 2 == 1
  {
    MonoPixel(b, x);
    if And(b, Shr(0x80, And(x, 7))) != 0 then 1 else 0
  }

  /**
   * The sample `convertBitmap<depth>` encodes for a grey pixel b, depth
   * above 1: `b >> (8 - depth)`, its `depth` most significant bits. At
   * depth 8 that is the byte itself.
   */
  function GreySample(b: byte, depth: nat): (q: byte)
    requires ValidDepth(depth)
    ensures q < Shl(1, depth)
    ensures depth == 8 ==> q == b
  {
    GreyFits(b, depth);
    Shr(b, 8 - depth)
  }

  /** The sample `convertBitmap<depth>` encodes for pixel (x, y); it fits `depth` bits. */
  function Quantise(r: Raster, depth: nat, y: nat, x: nat): (q: byte)
    requires RasterOk(r, depth) && y < r.rows && x < r.width
    ensures q < Shl(1, depth)
  {
    PixelIndex(r, depth, y, x);
    if depth == 1 then MonoSample(r.buffer[y * r.pitch + x / 8], x)
    else GreySample(r.buffer[y * r.pitch + x], depth)
  }

  /** The samples of the first n pixels of row y, left to right. */
  function Row(r: Raster, depth: nat, y: nat, n: nat): (row: seq<byte>)
    requires RasterOk(r, depth) && y < r.rows && n <= r.width
    ensures |row| == n
  {
    if n == 0 then [] else Row(r, depth, y, n - 1) + [Quantise(r, depth, y, n - 1)]
  }

  /** The samples of the first n rows, in the order the encoder receives them. */
  function Samples(r: Raster, depth: nat, n: nat): (s: seq<byte>)
    requires RasterOk(r, depth) && n <= r.rows
    ensures |s| == n * r.width
  {
    if n == 0 then [] else Samples(r, depth, n - 1) + Row(r, depth, n - 1, r.width)
  }

  // ---------------------------------------------------------------------
  // Lemmas

  /** The number of pixel (x, y) in row-major order. */
  function Flat(y: nat, x: nat, width: nat): nat
  {
    y * width + x
  }

  /** Pixel x of a row is sample x of the row. */
  lemma {:induction false} RowAt(r: Raster, depth: nat, y: nat, n: nat, x: nat)
    requires RasterOk(r, depth) && y < r.rows && x < n <= r.width
    ensures Row(r, depth, y, n)[x] == Quantise(r, depth, y, x)
    decreases n
  {
    if x < n - 1 {
      RowAt(r, depth, y, n - 1, x);
    }
  }

  /** Row-major order: pixel (x, y) is sample number y * width + x. */
  lemma {:induction false} SampleOrder(r: Raster, depth: nat, n: nat, y: nat, x: nat)
    requires RasterOk(r, depth) && n <= r.rows && y < n && x < r.width
    ensures Flat(y, x, r.width) < |Samples(r, depth, n)| && Samples(r, depth, n)[Flat(y, x, r.width)] == Quantise(r, depth, y, x)
    decreases n
  {
    var front := Samples(r, depth, n - 1);
    assert Samples(r, depth, n) == front + Row(r, depth, n - 1, r.width);
    if y < n - 1 {
      SampleOrder(r, depth, n - 1, y, x);
    } else {
      assert front == Samples(r, depth, y);
      RowAt(r, depth, y, r.width, x);
    }
  }

  /** The pixel mask `0x80 >> (x & 7)` selects bit `7 - x % 8`. */
  lemma MonoPixel(b: nat, x: nat)
    ensures And(b, Shr(0x80, And(x, 7))) != 0 <==> Shr(b, 7 - x % 8) % 2 == 1
  {
    var k := x % 8;
    assert And(x, 7) == k by {
      AndSeven(x);
    }
    assert Shr(0x80, k) == Shl(1, 7 - k) by {
      ShrHigh(k);
    }
    AndBit(b, 7 - k);
  }

  /** `x & 7` is `x % 8`. */
  lemma AndSeven(x: nat)
    ensures And(x, 7) == x % 8
  {
    assert Mask(3) == 7 by {
      assert Shl(1, 3) == 8;
    }
    AndMask(x, 3);
    LowThree(x);
  }

  /** The three low bits of x are x % 8. */
  lemma LowThree(x: nat)
    ensures Low(x, 3) == x % 8
  {
    var a := x / 2;
    var b := a / 2;
    assert Low(b, 1) == b % 2;
    assert Low(a, 2) == 2 * (b % 2) + a % 2;
    assert Low(x, 3) == 2 * Low(a, 2) + x % 2;
  }

  /** `0x80 >> k` is the single bit `7 - k`. */
  lemma ShrHigh(k: nat)
    requires k < 8
    ensures Shr(0x80, k) == Shl(1, 7 - k)
  {
    if k == 0 {
      assert Shr(0x80, 0) == 128 == Shl(1, 7);
    } else if k == 1 {
      assert Shr(0x80, 1) == 64 == Shl(1, 6);
    } else if k == 2 {
      assert Shr(0x80, 2) == 32 == Shl(1, 5);
    } else if k == 3 {
      assert Shr(0x80, 3) == 16 == Shl(1, 4);
    } else if k == 4 {
      assert Shr(0x80, 4) == 8 == Shl(1, 3);
    } else if k == 5 {
      assert Shr(0x80, 5) == 4 == Shl(1, 2);
    } else if k == 6 {
      assert Shr(0x80, 6) == 2 == Shl(1, 1);
    } else {
      assert Shr(0x80, 7) == 1 == Shl(1, 0);
    }
  }

  /** And with the single bit j is nonzero exactly when bit j is set. */
  lemma {:induction false} AndBit(b: nat, j: nat)
    ensures And(b, Shl(1, j)) != 0 <==> Shr(b, j) % 2 == 1
    decreases j
  {
    if j > 0 {
      if b == 0 {
        assert Shr(0, j) == 0 by {
          ShlGrow(0, j);
          ShrSmall(0, j);
        }
      } else {
        assert Shl(1, j) / 2 == Shl(1, j - 1) && Shl(1, j) % 2 == 0;
        AndBit(b / 2, j - 1);
      }
    }
  }

  /** A byte shifted right by 8 - depth keeps depth bits. */
  lemma GreyFits(b: byte, depth: nat)
    requires ValidDepth(depth)
    ensures Shr(b, 8 - depth) < Shl(1, depth) <= 256
  {
    ShlGrow(depth, 8);
    assert b < Shl(1, (8 - depth) + depth) by {
      ShlEight();
    }
    ShrBound(b, 8 - depth, depth);
  }

  /** A value below 2^(k + n) shifted right by k is below 2^n. */
  lemma {:induction false} ShrBound(b: nat, k: nat, n: nat)
    requires b < Shl(1, k + n)
    ensures Shr(b, k) < Shl(1, n)
    decreases k
  {
    if k > 0 {
      assert Shl(1, k + n) == 2 * Shl(1, (k - 1) + n);
      ShrBound(b / 2, k - 1, n);
    }
  }

  /** A sample that already fits `depth` bits passes the encoder's mask unchanged. */
  lemma LowSmall(q: nat, k: nat)
    requires q < Shl(1, k)
    ensures Low(q, k) == q
  {
    ShlZero(k);
    LowShl(q, 0, k);
  }
}
