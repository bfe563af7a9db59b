/**
 * Bytes and the C bit operations the codec uses (`&`, `|`, `<<`, `>>`),
 * defined bit by bit on non-negative integers, with the laws the codec
 * relies on. A byte is split into `8 / size` slots of `size` bits, slot 0
 * being the least significant.
 */
module Bits {

  /** A `uint8_t`. */
  type byte = x: int | 0 <= x < 256

  /** `a & b`, from the least significant bit up. */
  function And(a: nat, b: nat): nat
    decreases a
  {
    if a == 0 || b == 0 then 0
    else 2 * And(a / 2, b / 2) + (if a % 2 == 1 && b % 2 == 1 then 1 else 0)
  }

  /** `a | b`, from the least significant bit up. */
  function Or(a: nat, b: nat): nat
    decreases a + b
  {
    if a == 0 then b
    else if b == 0 then a
    else 2 * Or(a / 2, b / 2) + (if a % 2 == 1 || b % 2 == 1 then 1 else 0)
  }

  /** `a << k`, before any truncation. */
  function Shl(a: nat, k: nat): (r: nat)
    ensures r >= a
  {
    if k == 0 then a else 2 * Shl(a, k - 1)
  }

  /** `a >> k`. */
  function Shr(a: nat, k: nat): nat
  {
    if k == 0 then a else Shr(a / 2, k - 1)
  }

  /** The value of the k low bits of x. */
  function Low(x: nat, k: nat): nat
  {
    if k == 0 then 0 else 2 * Low(x / 2, k - 1) + x % 2
  }

  /** The codec's `Mask`, `(1 << Size) - 1`. */
  function Mask(size: nat): nat
  {
    Shl(1, size) - 1
  }

  // ---------------------------------------------------------------------
  // Laws of the operations

  /** And with k low ones keeps the k low bits: `x & Mask`. */
  lemma {:induction false} AndMask(a: nat, k: nat)
    ensures And(a, Mask(k)) == Low(a, k)
    decreases k
  {
    if k > 0 {
      AndMask(a / 2, k - 1);
      if a == 0 {
        LowZero(k);
      }
    }
  }

  lemma {:induction false} LowZero(k: nat)
    ensures Low(0, k) == 0
  {
    if k > 0 {
      LowZero(k - 1);
    }
  }

  /** Or with a value shifted clear of a's bits adds it. */
  lemma {:induction false} OrShl(a: nat, b: nat, k: nat)
    requires a < Shl(1, k)
    ensures Or(a, Shl(b, k)) == a + Shl(b, k)
    decreases k
  {
    if k > 0 && a > 0 && Shl(b, k) > 0 {
      OrShl(a / 2, b, k - 1);
    }
  }

  /** Shifting a value past the k low bits and back. */
  lemma {:induction false} ShrShl(a: nat, b: nat, k: nat)
    requires a < Shl(1, k)
    ensures Shr(a + Shl(b, k), k) == b
    decreases k
  {
    if k > 0 {
      ShrShl(a / 2, b, k - 1);
    }
  }

  /** The k low bits of a value plus a multiple of 2^k. */
  lemma {:induction false} LowShl(a: nat, b: nat, k: nat)
    requires a < Shl(1, k)
    ensures Low(a + Shl(b, k), k) == a
    decreases k
  {
    if k > 0 {
      LowShl(a / 2, b, k - 1);
    }
  }

  /** The k low bits are below 2^k. */
  lemma {:induction false} LowBound(x: nat, k: nat)
    ensures Low(x, k) < Shl(1, k)
    decreases k
  {
    if k > 0 {
      LowBound(x / 2, k - 1);
    }
  }

  /** Shifting right by a + b is shifting by a, then by b. */
  lemma {:induction false} ShrAdd(x: nat, a: nat, b: nat)
    ensures Shr(x, a + b) == Shr(Shr(x, a), b)
    decreases a
  {
    if a > 0 {
      ShrAdd(x / 2, a - 1, b);
    }
  }

  /** Shifting left by a + b is shifting by a, then by b. */
  lemma {:induction false} ShlAdd(x: nat, a: nat, b: nat)
    ensures Shl(x, a + b) == Shl(Shl(x, a), b)
    decreases b
  {
    if b > 0 {
      ShlAdd(x, a, b - 1);
    }
  }

  /** Shifting left distributes over addition. */
  lemma {:induction false} ShlPlus(x: nat, y: nat, k: nat)
    ensures Shl(x + y, k) == Shl(x, k) + Shl(y, k)
    decreases k
  {
    if k > 0 {
      ShlPlus(x, y, k - 1);
    }
  }

  /** Zero shifted is zero. */
  lemma {:induction false} ShlZero(k: nat)
    ensures Shl(0, k) == 0
  {
    if k > 0 {
      ShlZero(k - 1);
    }
  }

  /** A value below 2^k has nothing left after shifting right by k. */
  lemma {:induction false} ShrSmall(x: nat, k: nat)
    requires x < Shl(1, k)
    ensures Shr(x, k) == 0
    decreases k
  {
    if k > 0 {
      ShrSmall(x / 2, k - 1);
    }
  }

  // ---------------------------------------------------------------------
  // Sample depths and slot positions

  /** The depths the codec accepts: those that divide a byte evenly. */
  predicate ValidDepth(size: nat)
  {
    size == 1 || size == 2 || size == 4 || size == 8
  }

  /** Samples per byte, 8 / size. */
  function PerByte(size: nat): (k: nat)
    requires ValidDepth(size)
    ensures 1 <= k <= 8
  {
    if size == 1 then 8 else if size == 2 then 4 else if size == 4 then 2 else 1
  }

  /** The byte that sample i of a stream lies in: i / PerByte(size). */
  function ByteIndex(i: nat, size: nat): nat
    requires ValidDepth(size)
  {
    if size == 1 then i / 8 else if size == 2 then i / 4 else if size == 4 then i / 2 else i
  }

  /** The slot that sample i of a stream lies in: i % PerByte(size). */
  function SlotIndex(i: nat, size: nat): (j: nat)
    requires ValidDepth(size)
    ensures j < PerByte(size)
  {
    if size == 1 then i % 8 else if size == 2 then i % 4 else if size == 4 then i % 2 else 0
  }

  /** ByteIndex and SlotIndex are quotient and remainder by PerByte(size). */
  lemma IndexDivMod(i: nat, size: nat)
    requires ValidDepth(size)
    ensures ByteIndex(i, size) == i / PerByte(size) && SlotIndex(i, size) == i % PerByte(size)
    ensures i == ByteIndex(i, size) * PerByte(size) + SlotIndex(i, size)
  {
  }

  /** The shift of slot j: `size` added once per slot, as the codec advances `_shift`. */
  function Pos(j: nat, size: nat): nat
  {
    if j == 0 then 0 else Pos(j - 1, size) + size
  }

  lemma {:induction false} PosValue(j: nat, size: nat)
    ensures Pos(j, size) == j * size
  {
    if j > 0 {
      PosValue(j - 1, size);
    }
  }

  /** The shift stays below 8 inside a byte and reaches 8 exactly after the last slot. */
  lemma PosLimit(n: nat, size: nat)
    requires ValidDepth(size) && n < PerByte(size)
    ensures Pos(n, size) + size <= 8
    ensures Pos(n, size) + size >= 8 <==> n + 1 == PerByte(size)
  {
    PosValue(n, size);
  }

  /** A full byte's worth of slots spans 8 bits. */
  lemma PosFull(size: nat)
    requires ValidDepth(size)
    ensures Pos(PerByte(size), size) == 8
  {
    PosValue(PerByte(size), size);
  }

  /** Shifting left is monotonic in the value. */
  lemma {:induction false} ShlMono(x: nat, y: nat, k: nat)
    requires x <= y
    ensures Shl(x, k) <= Shl(y, k)
    decreases k
  {
    if k > 0 {
      ShlMono(x, y, k - 1);
    }
  }

  /** Shifting 1 left is monotonic in the amount. */
  lemma {:induction false} ShlGrow(a: nat, b: nat)
    requires a <= b
    ensures Shl(1, a) <= Shl(1, b)
    decreases b
  {
    if a < b {
      ShlGrow(a, b - 1);
    }
  }

  /** 1 << 8 is 256. */
  lemma ShlEight()
    ensures Shl(1, 8) == 256
  {
    assert Shl(1, 1) == 2;
    assert Shl(1, 2) == 4;
    assert Shl(1, 3) == 8;
    assert Shl(1, 4) == 16;
    assert Shl(1, 5) == 32;
    assert Shl(1, 6) == 64;
    assert Shl(1, 7) == 128;
  }

  /** Only slot 0 starts at bit 0. */
  lemma PosZero(n: nat, size: nat)
    requires size >= 1
    ensures Pos(n, size) == 0 <==> n == 0
  {
  }
}
