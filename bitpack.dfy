/**
 * The packed sample format shared by the encoder and the decoder:
 * `size`-bit samples (size in {1, 2, 4, 8}) packed least-significant-bits
 * first into bytes, `8 / size` samples per byte, with only the last byte of
 * a run possibly partial (its unused high bits zero).
 */
module BitPack {
  import opened Bits

  /** Bytes needed for `count` samples: ceil(count / PerByte(size)). */
  function PackedLen(count: nat, size: nat): nat
    requires ValidDepth(size)
  {
    if size == 1 then (count + 7) / 8
    else if size == 2 then (count + 3) / 4
    else if size == 4 then (count + 1) / 2
    else count
  }

  /** The sample in slot j of byte b: drop j samples from the bottom, keep the next `size` bits. */
  function Slot(b: nat, j: nat, size: nat): nat
    decreases j
  {
    if j == 0 then Low(b, size) else Slot(Shr(b, size), j - 1, size)
  }

  /** A byte whose slot 0 holds m, masked, and whose higher slots hold p. */
  function Cons(m: nat, p: nat, size: nat): nat
  {
    Low(m, size) + Shl(p, size)
  }

  /**
   * The byte holding the samples `g` (at most one byte's worth): the first
   * sample in slot 0, the lowest bits, the others above it in order.
   */
  function PackByte(g: seq<byte>, size: nat): nat
  {
    if g == [] then 0 else Cons(g[0], PackByte(g[1..], size), size)
  }

  /** The samples of `s` that fill whole bytes. */
  function Whole(s: seq<byte>, size: nat): (w: seq<byte>)
    requires ValidDepth(size)
    ensures SlotIndex(|w|, size) == 0 && |w| <= |s|
  {
    WholeIndex(|s|, size);
    s[..|s| - SlotIndex(|s|, size)]
  }

  /** The samples of `s` after its last whole byte: fewer than a byte's worth. */
  function Part(s: seq<byte>, size: nat): (p: seq<byte>)
    requires ValidDepth(size)
    ensures |p| < PerByte(size)
  {
    s[|s| - SlotIndex(|s|, size)..]
  }

  /** The bytes of a run of whole bytes, built byte by byte from the end. */
  function Packed(w: seq<byte>, size: nat): seq<byte>
    requires ValidDepth(size) && SlotIndex(|w|, size) == 0
    decreases |w|
  {
    if w == [] then []
    else
      IndexBack(|w|, size);
      var k := PerByte(size);
      PackByteFits(w[|w| - k..], size);
      Packed(w[..|w| - k], size) + [PackByte(w[|w| - k..], size)]
  }

  /** The bytes one encoder run appends for the samples `s`, commit included. */
  function Pack(s: seq<byte>, size: nat): seq<byte>
    requires ValidDepth(size)
  {
    PackByteFits(Part(s, size), size);
    Packed(Whole(s, size), size) + (if Part(s, size) == [] then [] else [PackByte(Part(s, size), size)])
  }

  /** The `i`-th sample a decoder started at `bytes[0]` returns, counting from 0. */
  function SampleAt(bytes: seq<byte>, i: nat, size: nat): nat
    requires ValidDepth(size) && ByteIndex(i, size) < |bytes|
  {
    Slot(bytes[ByteIndex(i, size)], SlotIndex(i, size), size)
  }

  // ---------------------------------------------------------------------
  // Arithmetic helpers

  /** Dropping the samples of a partial byte leaves whole bytes. */
  lemma WholeIndex(m: nat, size: nat)
    requires ValidDepth(size)
    ensures SlotIndex(m - SlotIndex(m, size), size) == 0
  {
  }

  /** A byte's worth more of samples after whole bytes still ends on a byte boundary. */
  lemma CountWhole(m: nat, size: nat)
    requires ValidDepth(size) && SlotIndex(m, size) == 0
    ensures SlotIndex(m + PerByte(size), size) == 0
  {
  }

  /** A nonempty whole run ends with a whole byte. */
  lemma IndexBack(m: nat, size: nat)
    requires ValidDepth(size) && SlotIndex(m, size) == 0 && m > 0
    ensures m >= PerByte(size) && SlotIndex(m - PerByte(size), size) == 0
    ensures ByteIndex(m - PerByte(size), size) + 1 == ByteIndex(m, size)
  {
  }

  /** Within the byte that starts at sample m, sample i sits in slot i - m. */
  lemma IndexWithin(m: nat, i: nat, size: nat)
    requires ValidDepth(size) && SlotIndex(m, size) == 0 && m <= i < m + PerByte(size)
    ensures ByteIndex(i, size) == ByteIndex(m, size) && SlotIndex(i, size) == i - m
  {
  }

  /** Counting one more sample: the next slot, or slot 0 of the next byte after the last slot. */
  lemma CountStep(c: nat, size: nat)
    requires ValidDepth(size)
    ensures SlotIndex(c, size) + 1 < PerByte(size) ==>
              ByteIndex(c + 1, size) == ByteIndex(c, size) && SlotIndex(c + 1, size) == SlotIndex(c, size) + 1
    ensures SlotIndex(c, size) + 1 == PerByte(size) ==>
              ByteIndex(c + 1, size) == ByteIndex(c, size) + 1 && SlotIndex(c + 1, size) == 0
  {
  }

  /** The byte count in stream-index form, and as ceil(m * size / 8). */
  lemma LenIndex(m: nat, size: nat)
    requires ValidDepth(size)
    ensures SlotIndex(m, size) == 0 ==> PackedLen(m, size) == ByteIndex(m, size)
    ensures SlotIndex(m, size) != 0 ==> PackedLen(m, size) == ByteIndex(m, size) + 1
  {
  }

  /** The byte count in bits: ceil(count * size / 8). */
  lemma PackedLenBits(count: nat, size: nat)
    requires ValidDepth(size)
    ensures PackedLen(count, size) == (count * size + 7) / 8
  {
  }

  // ---------------------------------------------------------------------
  // Laws of a single packed byte

  /** Slot 0 of Cons(m, p) is m, masked. */
  lemma ConsFirst(m: nat, p: nat, size: nat)
    ensures Slot(Cons(m, p, size), 0, size) == Low(m, size)
  {
    assert Low(m, size) < Shl(1, size) by {
      LowBound(m, size);
    }
    LowShl(Low(m, size), p, size);
  }

  /** Shifting slot 0 out of Cons(m, p) leaves p. */
  lemma ConsRest(m: nat, p: nat, size: nat)
    ensures Shr(Cons(m, p, size), size) == p
  {
    assert Low(m, size) < Shl(1, size) by {
      LowBound(m, size);
    }
    ShrShl(Low(m, size), p, size);
  }

  /** Slot i of the byte holding g reads back as g[i], masked. */
  lemma {:induction false} PackByteBits(g: seq<byte>, i: nat, size: nat)
    requires i < |g|
    ensures Slot(PackByte(g, size), i, size) == Low(g[i], size)
    decreases |g|
  {
    var p := PackByte(g[1..], size);
    if i == 0 {
      ConsFirst(g[0], p, size);
    } else {
      ConsRest(g[0], p, size);
      PackByteBits(g[1..], i - 1, size);
      assert g[1..][i - 1] == g[i];
    }
  }

  /** The byte holding g is below 2^(|g| * size): its slots from |g| on are clear. */
  lemma {:induction false} PackByteBound(g: seq<byte>, size: nat)
    ensures PackByte(g, size) < Shl(1, Pos(|g|, size))
    decreases |g|
  {
    if g != [] {
      var p := PackByte(g[1..], size);
      var q := Pos(|g| - 1, size);
      PackByteBound(g[1..], size);
      LowBound(g[0], size);
      ShlMono(p + 1, Shl(1, q), size);
      ShlPlus(p, 1, size);
      ShlAdd(1, q, size);
    }
  }

  /** A byte's worth of samples fits a byte. */
  lemma PackByteFits(g: seq<byte>, size: nat)
    requires ValidDepth(size) && |g| <= PerByte(size)
    ensures PackByte(g, size) < 256
  {
    PackByteBound(g, size);
    PosValue(|g|, size);
    ShlGrow(Pos(|g|, size), 8);
    ShlEight();
  }

  /** When a byte holds |g| samples, nothing is left above them. */
  lemma PackByteHigh(g: seq<byte>, size: nat)
    ensures Shr(PackByte(g, size), Pos(|g|, size)) == 0
  {
    PackByteBound(g, size);
    ShrSmall(PackByte(g, size), Pos(|g|, size));
  }

  /** Appending a sample adds it, masked, in the next free slot. */
  lemma {:induction false} PackByteSnoc(g: seq<byte>, x: byte, size: nat)
    ensures PackByte(g + [x], size) == PackByte(g, size) + Shl(Low(x, size), Pos(|g|, size))
    decreases |g|
  {
    if g == [] {
      assert [x][1..] == [];
      ShlZero(size);
    } else {
      var r := g[1..];
      assert (g + [x])[1..] == r + [x];
      PackByteSnoc(r, x, size);
      ShlPlus(PackByte(r, size), Shl(Low(x, size), Pos(|r|, size)), size);
      ShlAdd(Low(x, size), Pos(|r|, size), size);
    }
  }

  // ---------------------------------------------------------------------
  // Laws of a packed run

  /** A run of whole bytes takes one byte per PerByte(size) samples. */
  lemma {:induction false} PackedLength(w: seq<byte>, size: nat)
    requires ValidDepth(size) && SlotIndex(|w|, size) == 0
    ensures |Packed(w, size)| == ByteIndex(|w|, size)
    decreases |w|
  {
    if w != [] {
      IndexBack(|w|, size);
      PackedLength(w[..|w| - PerByte(size)], size);
    }
  }

  /** Byte-count law: P samples take ceil(P / PerByte(size)) bytes, ceil(P * size / 8). */
  lemma PackLength(s: seq<byte>, size: nat)
    requires ValidDepth(size)
    ensures |Pack(s, size)| == PackedLen(|s|, size) == (|s| * size + 7) / 8
  {
    var w := Whole(s, size);
    assert |Packed(w, size)| == ByteIndex(|s|, size) by {
      IndexWithin(|w|, |s|, size);
      PackedLength(w, size);
    }
    assert |Pack(s, size)| == PackedLen(|s|, size) by {
      LenIndex(|s|, size);
    }
    PackedLenBits(|s|, size);
  }

  /** Sample i of a run of whole bytes reads back as the i-th sample, masked. */
  lemma {:induction false} PackedSample(w: seq<byte>, i: nat, size: nat)
    requires ValidDepth(size) && SlotIndex(|w|, size) == 0 && i < |w|
    ensures ByteIndex(i, size) < |Packed(w, size)|
    ensures SampleAt(Packed(w, size), i, size) == Low(w[i], size)
    decreases |w|
  {
    var k := PerByte(size);
    IndexBack(|w|, size);
    var m := |w| - k;
    var front := w[..m];
    PackedLength(front, size);
    if i < m {
      PackedSample(front, i, size);
      assert w[i] == front[i];
    } else {
      IndexWithin(m, i, size);
      PackByteBits(w[m..], i - m, size);
      assert w[m..][i - m] == w[i];
    }
  }

  /**
   * Round trip: the i-th sample a decoder reads from the start of a run is
   * the i-th sample encoded, masked to `size` bits, and it lies within the
   * run's bytes.
   */
  lemma RoundTrip(s: seq<byte>, i: nat, size: nat)
    requires ValidDepth(size) && i < |s|
    ensures ByteIndex(i, size) < |Pack(s, size)|
    ensures SampleAt(Pack(s, size), i, size) == Low(s[i], size)
  {
    var w := Whole(s, size);
    var m := |w|;
    IndexWithin(m, |s|, size);
    PackedLength(w, size);
    if i < m {
      PackedSample(w, i, size);
      assert w[i] == s[i];
    } else {
      IndexWithin(m, i, size);
      PackByteBits(Part(s, size), i - m, size);
      assert Part(s, size)[i - m] == s[i];
    }
  }

  /** When a run ends mid-byte, the unused high bits of its last byte are zero. */
  lemma PackPadding(s: seq<byte>, size: nat)
    requires ValidDepth(size) && SlotIndex(|s|, size) != 0
    ensures |Pack(s, size)| > 0
    ensures Shr(Pack(s, size)[|Pack(s, size)| - 1], Pos(SlotIndex(|s|, size), size)) == 0
  {
    var p := Part(s, size);
    var bytes := Pack(s, size);
    assert |p| == SlotIndex(|s|, size) && p != [];
    assert bytes[|bytes| - 1] == PackByte(p, size);
    PackByteHigh(p, size);
  }

  /** Reading within a run does not depend on the bytes that follow it. */
  lemma PrefixSample(run: seq<byte>, rest: seq<byte>, i: nat, size: nat)
    requires ValidDepth(size) && ByteIndex(i, size) < |run|
    ensures SampleAt(run + rest, i, size) == SampleAt(run, i, size)
  {
  }

  // ---------------------------------------------------------------------
  // The encoder's and the decoder's steps

  /** A run of whole bytes followed by one more byte's worth: one more byte. */
  lemma PackedSnoc(w: seq<byte>, g: seq<byte>, size: nat)
    requires ValidDepth(size) && SlotIndex(|w|, size) == 0 && |g| == PerByte(size)
    ensures SlotIndex(|w + g|, size) == 0
    ensures Packed(w + g, size) == Packed(w, size) + [PackByte(g, size)]
  {
    var t := w + g;
    CountWhole(|w|, size);
    IndexBack(|t|, size);
    assert t[..|t| - |g|] == w;
    assert t[|t| - |g|..] == g;
  }

  /** Whole bytes followed by less than a byte's worth split back into the two. */
  lemma SplitRun(w: seq<byte>, p: seq<byte>, size: nat)
    requires ValidDepth(size) && SlotIndex(|w|, size) == 0 && |p| < PerByte(size)
    ensures Whole(w + p, size) == w && Part(w + p, size) == p
  {
    var t := w + p;
    IndexWithin(|w|, |t|, size);
    assert t[..|w|] == w;
    assert t[|w|..] == p;
  }

  /**
   * The encoder's or-in step, `buf |= (value & Mask) << shift`, on the byte
   * holding the waiting samples g, with shift at slot |g|: the byte holding
   * g and the new sample; it still fits a byte.
   */
  lemma OrInStep(g: seq<byte>, x: byte, size: nat)
    requires ValidDepth(size) && |g| < PerByte(size)
    ensures Or(PackByte(g, size), Shl(And(x, Mask(size)), Pos(|g|, size))) == PackByte(g + [x], size)
    ensures PackByte(g + [x], size) < 256
  {
    var b := PackByte(g, size);
    var p := Pos(|g|, size);
    var v := Low(x, size);
    assert And(x, Mask(size)) == v by {
      AndMask(x, size);
    }
    assert Or(b, Shl(v, p)) == b + Shl(v, p) by {
      PackByteBound(g, size);
      OrShl(b, v, p);
    }
    assert b + Shl(v, p) == PackByte(g + [x], size) by {
      PackByteSnoc(g, x, size);
    }
    PackByteFits(g + [x], size);
  }

  /** The decoder's read, `(*ptr >> shift) & Mask`, is the sample in the slot at `shift`. */
  lemma ReadStep(b: nat, j: nat, size: nat)
    ensures And(Shr(b, Pos(j, size)), Mask(size)) == Slot(b, j, size)
  {
    SlotShift(b, j, size);
    AndMask(Shr(b, Pos(j, size)), size);
  }

  /** Slot j starts at bit j * size. */
  lemma {:induction false} SlotShift(b: nat, j: nat, size: nat)
    ensures Slot(b, j, size) == Low(Shr(b, Pos(j, size)), size)
    decreases j
  {
    if j > 0 {
      SlotShift(Shr(b, size), j - 1, size);
      ShrAdd(b, size, Pos(j - 1, size));
    }
  }

  /** A slot holds fewer than 2^size values, so it fits a byte. */
  lemma SlotFits(b: nat, j: nat, size: nat)
    requires ValidDepth(size)
    ensures Slot(b, j, size) < Shl(1, size) <= 256
  {
    SlotShift(b, j, size);
    LowBound(Shr(b, Pos(j, size)), size);
    ShlGrow(size, 8);
    ShlEight();
  }

  /** Two-bit samples 0, 1, 2, 3 pack to the single byte 0b11100100, the first sample lowest. */
  lemma PackExample(s: seq<byte>)
    requires s == [0, 1, 2, 3]
    ensures Pack(s, 2) == [0xE4]
  {
    assert Whole(s, 2) == s && Part(s, 2) == [] by {
      assert SlotIndex(4, 2) == 0;
      assert s[..4] == s && s[4..] == [];
    }
    PackByteExample(s);
    assert Packed(s, 2) == Packed(s[..0], 2) + [PackByte(s[0..], 2)] by {
      assert PerByte(2) == 4;
    }
    assert s[..0] == [] && s[0..] == s;
  }

  /** The byte built from 0, 1, 2, 3 at two bits each. */
  lemma PackByteExample(s: seq<byte>)
    requires s == [0, 1, 2, 3]
    ensures PackByte(s, 2) == 0xE4
  {
    ConsExample(s[3..], 3, 0, 3);
    ConsExample(s[2..], 2, 3, 14);
    ConsExample(s[1..], 1, 14, 57);
    ConsExample(s, 0, 57, 228);
  }

  /** One step of building the example byte: a two-bit sample below the byte built from the rest. */
  lemma ConsExample(g: seq<byte>, m: byte, p: nat, b: nat)
    requires g != [] && g[0] == m < 4 && PackByte(g[1..], 2) == p && b == m + 4 * p
    ensures PackByte(g, 2) == b
  {
    assert Shl(1, 2) == 4;
    ShlZero(2);
    LowShl(m, 0, 2);
    assert Shl(p, 1) == 2 * p;
  }
}
