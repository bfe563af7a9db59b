/**
 * The `BitEncoder<Size>` and `BitDecoder<Size>` state machines of
 * fontconvert.cpp. The encoder appends to a byte vector it shares by
 * reference with its owner; the decoder walks a byte vector from an offset.
 * Both are proved against the packed format of module BitPack.
 */
module BitCodec {
  import opened Bits
  import opened BitPack

  /** A `std::vector<uint8_t>` that several objects hold by reference. */
  class ByteBuffer {
    var bytes: seq<byte>

    constructor()
      ensures bytes == []
    {
      bytes := [];
    }
  }

  /**
   * The encoder's state against the samples it has been given since the
   * run began, split into `whole`, those already appended as full bytes,
   * and `part`, those waiting in the buffer: `tail`, the bytes appended
   * since the run began, packs `whole`; `buf` holds `part`; `shift` is the
   * slot of the next sample.
   */
  ghost predicate Encoded(tail: seq<byte>, whole: seq<byte>, part: seq<byte>, buf: nat, shift: nat, size: nat)
    requires ValidDepth(size)
  {
    SlotIndex(|whole|, size) == 0
    && |part| < PerByte(size)
    && tail == Packed(whole, size)
    && buf == PackByte(part, size)
    && shift == Pos(|part|, size)
  }

  /** A run with no samples: nothing appended, nothing waiting. */
  lemma EncodedEmpty(tail: seq<byte>, whole: seq<byte>, part: seq<byte>, buf: nat, shift: nat, size: nat)
    requires ValidDepth(size) && tail == [] && whole == [] && part == [] && buf == 0 && shift == 0
    ensures Encoded(tail, whole, part, buf, shift, size)
  {
  }

  /** The byte `encode` forms from the buffer and a new sample: `_buf | ((value & Mask) << _shift)`. */
  function OrIn(buf: nat, value: byte, shift: nat, size: nat): nat
    requires ValidDepth(size)
  {
    Or(buf, Shl(And(value, Mask(size)), shift))
  }

  /** A sample that fills the byte: the byte formed is appended and the buffer restarts empty. */
  lemma EncodeFlush(tail: seq<byte>, whole: seq<byte>, part: seq<byte>, buf: nat, shift: nat, value: byte, size: nat)
    requires ValidDepth(size) && Encoded(tail, whole, part, buf, shift, size) && shift + size >= 8
    ensures OrIn(buf, value, shift, size) < 256
    ensures Encoded(tail + [OrIn(buf, value, shift, size) as byte], whole + (part + [value]), [], 0, 0, size)
  {
    PosLimit(|part|, size);
    OrInStep(part, value, size);
    PackedSnoc(whole, part + [value], size);
  }

  /** A sample that does not fill the byte: the byte formed waits in the buffer, one slot further on. */
  lemma EncodeKeep(tail: seq<byte>, whole: seq<byte>, part: seq<byte>, buf: nat, shift: nat, value: byte, size: nat)
    requires ValidDepth(size) && Encoded(tail, whole, part, buf, shift, size) && shift + size < 8
    ensures OrIn(buf, value, shift, size) < 256
    ensures Encoded(tail, whole, part + [value], OrIn(buf, value, shift, size), shift + size, size)
  {
    PosLimit(|part|, size);
    OrInStep(part, value, size);
    assert Pos(|part + [value]|, size) == Pos(|part|, size) + size;
  }

  /**
   * At a commit, the vector holding `bytes` (the run began at `start`),
   * with the buffer appended if it holds a sample, is its bytes from before
   * the run followed by the packed run.
   */
  lemma CommitBytes(bytes: seq<byte>, start: nat, whole: seq<byte>, part: seq<byte>, buf: nat, shift: nat, size: nat)
    requires ValidDepth(size) && start <= |bytes| && Encoded(bytes[start..], whole, part, buf, shift, size)
    ensures shift != 0 ==> buf < 256 && bytes + [buf as byte] == bytes[..start] + Pack(whole + part, size)
    ensures shift == 0 ==> bytes == bytes[..start] + Pack(whole + part, size)
  {
    var tail := bytes[start..];
    assert bytes == bytes[..start] + tail;
    SplitRun(whole, part, size);
    PosZero(|part|, size);
    PackByteFits(part, size);
  }

  /**
   * The encoder. Ghost state: `start` is the length of the shared vector
   * when the current run began, `whole` the samples of the run already
   * appended as full bytes, `part` the samples waiting in `buf`.
   */
  class BitEncoder {
    const size: nat
    const mask: nat
    const data: ByteBuffer
    var buf: byte
    var shift: nat
    ghost var start: nat
    ghost var whole: seq<byte>
    ghost var part: seq<byte>

    /** The bytes since `start` are the packed whole bytes of the run; `buf` and `shift` hold the rest. */
    ghost predicate Valid()
      reads this, data
    {
      ValidDepth(size)
      && mask == Mask(size)
      && start <= |data.bytes|
      && Encoded(data.bytes[start..], whole, part, buf, shift, size)
    }

    /** The samples encoded since the run began. */
    ghost function Run(): seq<byte>
      reads this
    {
      whole + part
    }

    constructor(size: nat, data: ByteBuffer)
      requires ValidDepth(size)
      ensures Valid()
      ensures this.size == size && this.data == data
      ensures buf == 0 && shift == 0
      ensures start == |data.bytes| && Run() == []
    {
      this.size := size;
      this.mask := Mask(size);
      this.data := data;
      buf := 0;
      shift := 0;
      start := |data.bytes|;
      whole := [];
      part := [];
      new;
      EncodedEmpty(data.bytes[start..], whole, part, buf, shift, size);
    }

    /**
     * `encode`: mask the sample, or it in at `shift`, advance `shift`; a
     * full byte is appended and the buffer cleared, otherwise the vector is
     * left alone. Either way the run grows by the sample. The or-ed byte
     * always fits, so storing it back into the `uint8_t` buffer loses nothing.
     */
    method Encode(value: byte)
      requires Valid()
      modifies this, data
      ensures Valid()
      ensures start == old(start) && Run() == old(Run()) + [value]
      ensures old(shift) + size >= 8 ==>
                data.bytes == old(data.bytes) + [OrIn(old(buf), value, old(shift), size)]
                && buf == 0 && shift == 0
      ensures old(shift) + size < 8 ==>
                data.bytes == old(data.bytes)
                && buf == OrIn(old(buf), value, old(shift), size) && shift == old(shift) + size
    {
      ghost var tail := data.bytes[start..];
      ghost var next := whole + part + [value];
      assert whole + (part + [value]) == next;
      assert whole + (part + [value]) + [] == next;
      if shift + size >= 8 {
        EncodeFlush(tail, whole, part, buf, shift, value, size);
      } else {
        EncodeKeep(tail, whole, part, buf, shift, value, size);
      }
      var v := And(value, mask);
      buf := Or(buf, Shl(v, shift)) as byte;
      shift := shift + size;
      if shift >= 8 {
        assert (data.bytes + [buf])[start..] == tail + [buf];
        data.bytes := data.bytes + [buf];
        buf := 0;
        shift := 0;
        whole := whole + (part + [value]);
        part := [];
      } else {
        part := part + [value];
      }
    }

    /**
     * `commit`: flush a partial byte, then clear the buffer. The vector
     * then holds its bytes from before the run followed by the packed run,
     * and a new run begins.
     */
    method Commit()
      requires Valid()
      modifies this, data
      ensures Valid()
      ensures old(shift) != 0 ==> data.bytes == old(data.bytes) + [old(buf)]
      ensures old(shift) == 0 ==> data.bytes == old(data.bytes)
      ensures data.bytes == old(data.bytes)[..old(start)] + Pack(old(Run()), size)
      ensures buf == 0 && shift == 0
      ensures start == |data.bytes| && Run() == []
    {
      CommitBytes(data.bytes, start, whole, part, buf, shift, size);
      if shift != 0 {
        data.bytes := data.bytes + [buf];
      }
      buf := 0;
      shift := 0;
      start := |data.bytes|;
      whole := [];
      part := [];
      EncodedEmpty(data.bytes[start..], whole, part, buf, shift, size);
    }
  }

  /**
   * The decoder, with the source's byte address as an index `pos` into the
   * vector. Ghost state: `start` is where it began and `count` how many
   * samples it has returned.
   */
  class BitDecoder {
    const size: nat
    const mask: nat
    const data: ByteBuffer
    var pos: nat
    var shift: nat
    ghost const start: nat
    ghost var count: nat

    /** Position and shift are those of sample number `count` of the stream from `start`. */
    ghost predicate Valid()
      reads this
    {
      ValidDepth(size)
      && mask == Mask(size)
      && pos == start + ByteIndex(count, size)
      && shift == Pos(SlotIndex(count, size), size)
    }

    constructor(size: nat, data: ByteBuffer, offset: nat)
      requires ValidDepth(size)
      ensures Valid()
      ensures this.size == size && this.data == data
      ensures start == offset && pos == offset && shift == 0 && count == 0
    {
      this.size := size;
      this.mask := Mask(size);
      this.data := data;
      start := offset;
      pos := offset;
      shift := 0;
      count := 0;
    }

    /**
     * `decode`: the sample at `shift` of the current byte, masked; the
     * read position moves on after the last slot of a byte. The result is sample
     * number `count` of the stream from `start`.
     */
    method Decode() returns (value: byte)
      requires Valid() && pos < |data.bytes|
      modifies this
      ensures Valid() && count == old(count) + 1
      ensures value == And(Shr(data.bytes[old(pos)], old(shift)), mask)
      ensures old(shift) + size >= 8 ==> pos == old(pos) + 1 && shift == 0
      ensures old(shift) + size < 8 ==> pos == old(pos) && shift == old(shift) + size
      ensures start <= |data.bytes| && ByteIndex(old(count), size) < |data.bytes| - start
      ensures value == SampleAt(data.bytes[start..], old(count), size)
    {
      ReadStep(data.bytes[pos], SlotIndex(count, size), size);
      SlotFits(data.bytes[pos], SlotIndex(count, size), size);
      assert data.bytes[start..][ByteIndex(count, size)] == data.bytes[pos];
      PosLimit(SlotIndex(count, size), size);
      CountStep(count, size);
      value := And(Shr(data.bytes[pos], shift), mask) as byte;
      shift := shift + size;
      if shift >= 8 {
        pos := pos + 1;
        shift := 0;
      }
      count := count + 1;
    }
  }

  /**
   * Decode after encode: a decoder started at the first byte of a packed
   * run returns, as its i-th sample, the i-th sample encoded, masked, and
   * it reads only within the run's ceil(P * size / 8) bytes.
   */
  lemma DecodeAfterEncode(bytes: seq<byte>, start: nat, s: seq<byte>, i: nat, size: nat)
    requires ValidDepth(size) && i < |s|
    requires start + |Pack(s, size)| <= |bytes|
    requires bytes[start..start + |Pack(s, size)|] == Pack(s, size)
    ensures ByteIndex(i, size) < PackedLen(|s|, size)
    ensures start + ByteIndex(i, size) < |bytes|
    ensures SampleAt(bytes[start..], i, size) == Low(s[i], size)
  {
    var run := Pack(s, size);
    RoundTrip(s, i, size);
    PackLength(s, size);
    assert bytes[start..] == run + bytes[start + |run|..];
    PrefixSample(run, bytes[start + |run|..], i, size);
  }

  /** Two-bit samples 0, 1, 2, 3 fill one byte, the first in the lowest bits: 0b11100100. */
  lemma EncodeExample()
    ensures OrIn(OrIn(OrIn(OrIn(0, 0, 0, 2), 1, 2, 2), 2, 4, 2), 3, 6, 2) == 0xE4
  {
    OrInExample(0, 0, 0, 0);
    OrInExample(0, 1, 2, 4);
    OrInExample(4, 2, 4, 32);
    OrInExample(36, 3, 6, 192);
  }

  /** A two-bit sample or-ed in above the bits already in the buffer adds it at its place. */
  lemma OrInExample(buf: nat, value: byte, shift: nat, placed: nat)
    requires value < 4 && buf < Shl(1, shift) && placed == Shl(value, shift)
    ensures OrIn(buf, value, shift, 2) == buf + placed
  {
    assert Mask(2) == 3 by {
      assert Shl(1, 2) == 4;
    }
    AndMask(value, 2);
    assert Low(value, 2) == value;
    OrShl(buf, value, shift);
  }
}
