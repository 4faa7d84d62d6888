/**
 * Machine-word helpers: the slot index type, powers of two, and the unsigned
 * value of a 32-bit word as a mathematical integer.
 *
 * The unsigned value is computed bit by bit (`Unsigned`) rather than with
 * Dafny's `as int` conversion, so that every fact about it is proved by
 * induction over the bits and stays within bit-vector reasoning.
 */
module Words {

  /**
   * A slot index within one bucket, and equally a nibble index within a
   * recency register. A bucket has 8 slots (`soltNum` in intcache.go); the
   * literal is written out wherever it bounds a slot index.
   */
  type Slot = i: int | 0 <= i < 8

  /** Every slot index, as a finite set. */
  const AllSlots: set<Slot> := {0, 1, 2, 3, 4, 5, 6, 7}

  function Pow2(n: nat): (p: nat)
    ensures p >= 1
  {
    if n == 0 then 1 else 2 * Pow2(n - 1)
  }

  /** The value of the low `n` bits of `x`, least significant bit first. */
  function LowBits(x: bv32, n: bv8): (v: nat)
    requires n <= 32
    ensures v < Pow2(n as nat)
    decreases n
  {
    if n == 0 then 0
    else
      assert (n - 1) as nat == n as nat - 1;
      (if x & 1 == 1 then 1 else 0) + 2 * LowBits(x >> 1, n - 1)
  }

  /** The unsigned value of a 32-bit word (Go's implicit `uint32` to `int` widening). */
  function Unsigned(x: bv32): nat
  {
    LowBits(x, 32)
  }

  lemma {:induction false} LowBitsOfZero(n: bv8)
    requires n <= 32
    ensures LowBits(0, n) == 0
    decreases n
  {
    if n > 0 {
      LowBitsOfZero(n - 1);
    }
  }

  /** Bits at or above position `n` that are all zero contribute nothing. */
  lemma {:induction false} LowBitsOfNarrow(x: bv32, n: bv8, m: bv8)
    requires n <= m <= 32
    requires x >> n == 0
    ensures LowBits(x, m) == LowBits(x, n)
    decreases n
  {
    if n == 0 {
      assert x == 0;
      LowBitsOfZero(m);
    } else {
      assert (x >> 1) >> (n - 1) == x >> n;
      LowBitsOfNarrow(x >> 1, n - 1, m - 1);
    }
  }

  /** A word whose bits from position `n` upwards are zero is below 2^n. */
  lemma UnsignedBelow(x: bv32, n: bv8)
    requires n <= 32
    requires x >> n == 0
    ensures Unsigned(x) < Pow2(n as nat)
  {
    LowBitsOfNarrow(x, n, 32);
  }

  /** A subset is no larger than its superset. */
  lemma {:induction false} SubsetSize<T>(a: set<T>, b: set<T>)
    requires a <= b
    ensures |a| <= |b|
    decreases a
  {
    if a != {} {
      var x :| x in a;
      SubsetSize(a - {x}, b - {x});
    }
  }

  /** A set of slot indices has at most 8 elements, and at most 7 if it misses one. */
  lemma SlotSetSize(t: set<Slot>, missing: Slot)
    ensures |t| <= 8
    ensures missing !in t ==> |t| <= 7
  {
    assert |AllSlots| == 8;
    assert forall x: Slot :: x in AllSlots;
    SubsetSize(t + {missing}, AllSlots);
    SubsetSize(t, t + {missing});
  }
}
