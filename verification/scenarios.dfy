/**
 * The unit tests of intcache_test.go restated as lemmas about the model:
 * `TestUpdLru`, `TestSimpleSet` and `TestSet`.
 */
module Scenarios {
  import opened Words
  import opened SlotCodec
  import opened Recency
  import opened IntCache

  /** `TestUpdLru`, first case: touching slot 1 of register 0x765 gives 0x675. */
  lemma UpdLruFirstCase()
    ensures UpdLru(0x765, 1) == 0x675
  {
    UpdFromStep(0x765, 1, 6, 0, 0x765);
    UpdFromStep(0x765, 1, 6, 1, 0x775);
    UpdFromStep(0x775, 1, 6, 2, 0x675);
    UpdFromStep(0x675, 1, 6, 3, 0x675);
    UpdFromStep(0x675, 1, 6, 4, 0x675);
    UpdFromStep(0x675, 1, 6, 5, 0x675);
    UpdFromStep(0x675, 1, 6, 6, 0x675);
    UpdFromStep(0x675, 1, 6, 7, 0x675);
  }

  /** `TestUpdLru`, second case: on the permutation 0x36217504, touching slot 1 gives the permutation 0x25106473. */
  lemma UpdLruSecondCase()
    ensures UpdLru(0x3621_7504, 1) == 0x2510_6473
  {
    SecondCaseSlots0To3();
    SecondCaseSlots4To7();
  }

  lemma SecondCaseSlots0To3()
    ensures UpdFrom(0x3621_7504, 1, 0, 0) == UpdFrom(0x3621_6473, 1, 0, 4)
  {
    UpdFromStep(0x3621_7504, 1, 0, 0, 0x3621_7503);
    UpdFromStep(0x3621_7503, 1, 0, 1, 0x3621_7573);
    UpdFromStep(0x3621_7573, 1, 0, 2, 0x3621_7473);
    UpdFromStep(0x3621_7473, 1, 0, 3, 0x3621_6473);
  }

  lemma SecondCaseSlots4To7()
    ensures UpdFrom(0x3621_6473, 1, 0, 4) == 0x2510_6473
  {
    UpdFromStep(0x3621_6473, 1, 0, 4, 0x3620_6473);
    UpdFromStep(0x3620_6473, 1, 0, 5, 0x3610_6473);
    UpdFromStep(0x3610_6473, 1, 0, 6, 0x3510_6473);
    UpdFromStep(0x3510_6473, 1, 0, 7, 0x2510_6473);
  }

  /**
   * When the scan of the key's bucket stops at slot `s` (a hit or an empty
   * slot), `Set` overwrites exactly that slot of that bucket.
   */
  lemma SetWritesScanned(c: Cache, key: bv32, value: bv32, bi: nat, s: Slot)
    requires WellFormed(c) && !(key == 0 && value == 0)
    requires BucketIndex(c.b, key) == bi
    requires Scan(c.buckets[bi], key, 0) in {Hit(s), Vacant(s)}
    ensures Set(c, key, value).value.buckets == c.buckets[bi := c.buckets[bi][s := Pack(key, value)]]
  {
  }

  /** When the scan of the key's bucket hits slot `j`, `Get` returns that slot's value. */
  lemma GetReadsScanned(c: Cache, key: bv32, bi: nat, j: Slot)
    requires WellFormed(c)
    requires BucketIndex(c.b, key) == bi
    requires Scan(c.buckets[bi], key, 0) == Hit(j)
    ensures Get(c, key).present && Get(c, key).value == ValueOf(c.buckets[bi][j])
  {
  }

  /** With one bucket bit, keys 1, 3 and 5 all land in bucket 1. */
  lemma SimpleSetBuckets()
    ensures New(1).buckets == [EmptyBucket, EmptyBucket]
    ensures BucketIndex(1, 1) == 1 && BucketIndex(1, 3) == 1 && BucketIndex(1, 5) == 1
  {
    assert Pow2(1) == 2;
  }

  /**
   * One round of `TestSimpleSet` on bucket 1: `Set(key, value)` writes the
   * slot `s` its scan stops at, then `Get(readKey)` reads `v` from the slot
   * `j` its scan hits.
   */
  lemma SimpleRound(c: Cache, key: bv32, value: bv32, before: seq<bv64>, s: Slot, readKey: bv32, j: Slot, v: bv32)
    requires WellFormed(c) && c.b == 1 && |before| == 8 && c.buckets == [EmptyBucket, before]
    requires !(key == 0 && value == 0) && BucketIndex(1, key) == 1 && BucketIndex(1, readKey) == 1
    requires Scan(before, key, 0) in {Hit(s), Vacant(s)}
    requires Scan(before[s := Pack(key, value)], readKey, 0) == Hit(j)
    requires before[s := Pack(key, value)][j] == Pack(readKey, v)
    ensures var g := Get(Set(c, key, value).value, readKey);
            && WellFormed(g.cache) && g.cache.b == 1 && g.cache.buckets == [EmptyBucket, before[s := Pack(key, value)]]
            && g.value == v
  {
    SetWritesScanned(c, key, value, 1, s);
    GetReadsScanned(Set(c, key, value).value, readKey, 1, j);
  }

  const SimpleAfter1: seq<bv64> := EmptyBucket[0 := Pack(1, 1)]
  const SimpleAfter3: seq<bv64> := SimpleAfter1[1 := Pack(3, 3)]
  const SimpleAfter5: seq<bv64> := SimpleAfter3[2 := Pack(5, 5)]
  const SimpleAfter30: seq<bv64> := SimpleAfter5[1 := Pack(3, 30)]

  lemma SimpleScans()
    ensures Scan(EmptyBucket, 1, 0) == Vacant(0) && Scan(SimpleAfter1, 1, 0) == Hit(0)
    ensures Scan(SimpleAfter1, 3, 0) == Vacant(1) && Scan(SimpleAfter3, 3, 0) == Hit(1)
    ensures Scan(SimpleAfter3, 5, 0) == Vacant(2) && Scan(SimpleAfter5, 3, 0) == Hit(1)
    ensures Scan(SimpleAfter30, 3, 0) == Hit(1)
  {
  }

  /** The first round of `TestSimpleSet`: `Set(1, 1)`, then `Get(1)`, on a fresh one-bit cache. */
  lemma SimpleFirstRound(c: Cache)
    requires WellFormed(c) && c.b == 1 && c.buckets == [EmptyBucket, EmptyBucket]
    ensures var g1 := Get(Set(c, 1, 1).value, 1);
            && g1.value == 1
            && WellFormed(g1.cache) && g1.cache.b == 1 && g1.cache.buckets == [EmptyBucket, SimpleAfter1]
  {
    SimpleSetBuckets();
    SimpleScans();
    SimpleRound(c, 1, 1, EmptyBucket, 0, 1, 0, 1);
  }

  /** The second round: `Set(3, 3)`, then `Get(3)`, on the bucket the first left. */
  lemma SimpleSecondRound(c: Cache)
    requires WellFormed(c) && c.b == 1 && c.buckets == [EmptyBucket, SimpleAfter1]
    ensures var g2 := Get(Set(c, 3, 3).value, 3);
            && g2.value == 3
            && WellFormed(g2.cache) && g2.cache.b == 1 && g2.cache.buckets == [EmptyBucket, SimpleAfter3]
  {
    SimpleSetBuckets();
    SimpleScans();
    SimpleRound(c, 3, 3, SimpleAfter1, 1, 3, 1, 3);
  }

  /** The last two rounds: `Set(5, 5)`, `Get(3)`, `Set(3, 30)`, `Get(3)`, on the bucket the first two left. */
  lemma SimpleLastRounds(c: Cache)
    requires WellFormed(c) && c.b == 1 && c.buckets == [EmptyBucket, SimpleAfter3]
    ensures var g3 := Get(Set(c, 5, 5).value, 3);
            var g4 := Get(Set(g3.cache, 3, 30).value, 3);
            g3.value == 3 && g4.value == 30
  {
    SimpleSetBuckets();
    SimpleScans();
    SimpleRound(c, 5, 5, SimpleAfter3, 2, 3, 1, 3);
    var g3 := Get(Set(c, 5, 5).value, 3);
    SimpleRound(g3.cache, 3, 30, SimpleAfter5, 1, 3, 1, 30);
  }

  /** `TestSimpleSet`: with one bucket bit, keys 1, 3 and 5 share bucket 1. */
  lemma SimpleSet()
    ensures var c1 := Set(New(1), 1, 1).value;
            var g1 := Get(c1, 1);
            var c2 := Set(g1.cache, 3, 3).value;
            var g2 := Get(c2, 3);
            var c3 := Set(g2.cache, 5, 5).value;
            var g3 := Get(c3, 3);
            var c4 := Set(g3.cache, 3, 30).value;
            var g4 := Get(c4, 3);
            g1.value == 1 && g2.value == 3 && g3.value == 3 && g4.value == 30
  {
    SimpleSetBuckets();
    SimpleFirstRound(New(1));
    var g1 := Get(Set(New(1), 1, 1).value, 1);
    SimpleSecondRound(g1.cache);
    SimpleLastRounds(Get(Set(g1.cache, 3, 3).value, 3).cache);
  }

  /** With 21 bucket bits, 1 and 1 + 2^21 collide in bucket 1, 2 and 2 + 2^21 in bucket 2. */
  lemma BigBuckets()
    ensures BucketIndex(21, 1) == 1 && BucketIndex(21, 0x20_0001) == 1
    ensures BucketIndex(21, 2) == 2 && BucketIndex(21, 0x20_0002) == 2
    ensures BucketIndex(21, 3) == 3
    ensures forall i :: 0 <= i < |New(21).buckets| ==> New(21).buckets[i] == EmptyBucket
  {
    assert Mask(21) == 0x1F_FFFF;
    LowBitsOfNarrow(1, 1, 32);
    LowBitsOfNarrow(2, 2, 32);
    LowBitsOfNarrow(3, 2, 32);
  }

  const BigAfter1: seq<bv64> := EmptyBucket[0 := Pack(1, 1)]
  const BigAfter11: seq<bv64> := BigAfter1[1 := Pack(0x20_0001, 11)]
  const BigAfter2: seq<bv64> := EmptyBucket[0 := Pack(2, 2)]
  const BigAfter21: seq<bv64> := BigAfter2[1 := Pack(0x20_0002, 21)]
  const BigAfter3: seq<bv64> := EmptyBucket[0 := Pack(3, 3)]

  lemma BigScans()
    ensures Scan(EmptyBucket, 1, 0) == Vacant(0) && Scan(BigAfter1, 0x20_0001, 0) == Vacant(1)
    ensures Scan(EmptyBucket, 2, 0) == Vacant(0) && Scan(BigAfter2, 0x20_0002, 0) == Vacant(1)
    ensures Scan(EmptyBucket, 3, 0) == Vacant(0)
    ensures Scan(BigAfter11, 1, 0) == Hit(0) && Scan(BigAfter11, 0x20_0001, 0) == Hit(1)
    ensures Scan(BigAfter21, 2, 0) == Hit(0) && Scan(BigAfter21, 0x20_0002, 0) == Hit(1)
    ensures Scan(BigAfter3, 3, 0) == Hit(0)
  {
  }

  /** One write of `TestSet`: bucket `bi` goes from `before` to `after`, every other bucket is kept. */
  lemma BigWrite(c: Cache, key: bv32, value: bv32, bi: nat, s: Slot, before: seq<bv64>, after: seq<bv64>)
    requires WellFormed(c) && c.b == 21 && bi < |c.buckets|
    requires !(key == 0 && value == 0) && BucketIndex(21, key) == bi
    requires c.buckets[bi] == before && Scan(before, key, 0) in {Hit(s), Vacant(s)}
    requires after == before[s := Pack(key, value)]
    ensures var c' := Set(c, key, value).value;
            && WellFormed(c') && c'.b == 21 && |c'.buckets| == |c.buckets| && c'.buckets[bi] == after
            && forall i :: 0 <= i < |c.buckets| && i != bi ==> c'.buckets[i] == c.buckets[i]
  {
    SetWritesScanned(c, key, value, bi, s);
  }

  /** The first two writes of `TestSet` fill bucket 1. */
  lemma BigWritesBucket1(c0: Cache)
    requires WellFormed(c0) && c0.b == 21 && 4 <= |c0.buckets|
    requires c0.buckets[1] == EmptyBucket && c0.buckets[2] == EmptyBucket && c0.buckets[3] == EmptyBucket
    ensures var c2 := Set(Set(c0, 1, 1).value, 0x20_0001, 11).value;
            && WellFormed(c2) && c2.b == 21 && 4 <= |c2.buckets|
            && c2.buckets[1] == BigAfter11 && c2.buckets[2] == EmptyBucket && c2.buckets[3] == EmptyBucket
  {
    BigBuckets();
    BigScans();
    BigWrite(c0, 1, 1, 1, 0, EmptyBucket, BigAfter1);
    BigWrite(Set(c0, 1, 1).value, 0x20_0001, 11, 1, 1, BigAfter1, BigAfter11);
  }

  /** The next two writes of `TestSet` fill bucket 2. */
  lemma BigWritesBucket2(c2: Cache)
    requires WellFormed(c2) && c2.b == 21 && 4 <= |c2.buckets|
    requires c2.buckets[1] == BigAfter11 && c2.buckets[2] == EmptyBucket && c2.buckets[3] == EmptyBucket
    ensures var c4 := Set(Set(c2, 2, 2).value, 0x20_0002, 21).value;
            && WellFormed(c4) && c4.b == 21 && 4 <= |c4.buckets|
            && c4.buckets[1] == BigAfter11 && c4.buckets[2] == BigAfter21 && c4.buckets[3] == EmptyBucket
  {
    BigBuckets();
    BigScans();
    BigWrite(c2, 2, 2, 2, 0, EmptyBucket, BigAfter2);
    BigWrite(Set(c2, 2, 2).value, 0x20_0002, 21, 2, 1, BigAfter2, BigAfter21);
  }

  /** The last write of `TestSet` fills bucket 3. */
  lemma BigWritesBucket3(c4: Cache)
    requires WellFormed(c4) && c4.b == 21 && 4 <= |c4.buckets|
    requires c4.buckets[1] == BigAfter11 && c4.buckets[2] == BigAfter21 && c4.buckets[3] == EmptyBucket
    ensures var c5 := Set(c4, 3, 3).value;
            && WellFormed(c5) && c5.b == 21 && 4 <= |c5.buckets|
            && c5.buckets[1] == BigAfter11 && c5.buckets[2] == BigAfter21 && c5.buckets[3] == BigAfter3
  {
    BigBuckets();
    BigScans();
    BigWrite(c4, 3, 3, 3, 0, EmptyBucket, BigAfter3);
  }

  /** The five reads of `TestSet` on the buckets the writes left. */
  lemma BigReads(c5: Cache)
    requires WellFormed(c5) && c5.b == 21 && 4 <= |c5.buckets|
    requires c5.buckets[1] == BigAfter11 && c5.buckets[2] == BigAfter21 && c5.buckets[3] == BigAfter3
    ensures var g1 := Get(c5, 1);
            var g2 := Get(g1.cache, 2);
            var g3 := Get(g2.cache, 3);
            var g4 := Get(g3.cache, 0x20_0001);
            var g5 := Get(g4.cache, 0x20_0002);
            g1.value == 1 && g2.value == 2 && g3.value == 3 && g4.value == 11 && g5.value == 21
  {
    BigBuckets();
    BigScans();
    GetReadsScanned(c5, 1, 1, 0);
    var g1 := Get(c5, 1);
    GetReadsScanned(g1.cache, 2, 2, 0);
    var g2 := Get(g1.cache, 2);
    GetReadsScanned(g2.cache, 3, 3, 0);
    var g3 := Get(g2.cache, 3);
    GetReadsScanned(g3.cache, 0x20_0001, 1, 1);
    var g4 := Get(g3.cache, 0x20_0001);
    GetReadsScanned(g4.cache, 0x20_0002, 2, 1);
  }

  /** `TestSet`: five entries, two pairs of colliding keys, all read back. */
  lemma BigSet()
    ensures var c1 := Set(New(21), 1, 1).value;
            var c2 := Set(c1, 0x20_0001, 11).value;
            var c3 := Set(c2, 2, 2).value;
            var c4 := Set(c3, 0x20_0002, 21).value;
            var c5 := Set(c4, 3, 3).value;
            var g1 := Get(c5, 1);
            var g2 := Get(g1.cache, 2);
            var g3 := Get(g2.cache, 3);
            var g4 := Get(g3.cache, 0x20_0001);
            var g5 := Get(g4.cache, 0x20_0002);
            g1.value == 1 && g2.value == 2 && g3.value == 3 && g4.value == 11 && g5.value == 21
  {
    var c0 := New(21);
    BigBuckets();
    BigWritesBucket1(c0);
    var c2 := Set(Set(c0, 1, 1).value, 0x20_0001, 11).value;
    BigWritesBucket2(c2);
    var c4 := Set(Set(c2, 2, 2).value, 0x20_0002, 21).value;
    BigWritesBucket3(c4);
    BigReads(Set(c4, 3, 3).value);
  }
}
