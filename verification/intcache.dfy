/**
 * The cache itself (intcache.go): `2^b` buckets of 8 slot words, one
 * recency register per bucket, and the `New`, `Get` and `Set` operations,
 * with loads and stores read as plain sequential accesses.
 */
module IntCache {
  import opened Wrappers
  import opened Words
  import opened SlotCodec
  import opened Recency

  /** The `IntCache` struct: bucket-index width, slot words, recency registers. */
  datatype Cache = Cache(b: bv8, buckets: seq<seq<bv64>>, lruBuckets: seq<bv32>)

  /** The shape `New` builds: `2^b` buckets of 8 slots and `2^b` registers. */
  ghost predicate WellFormed(c: Cache)
  {
    && c.b < 32
    && |c.buckets| == Pow2(c.b as nat)
    && |c.lruBuckets| == Pow2(c.b as nat)
    && (forall i :: 0 <= i < |c.buckets| ==> |c.buckets[i]| == 8)
  }

  /** `1<<c.b - 1` at the width of a key. */
  function Mask(b: bv8): (m: bv32)
    requires b < 32
    ensures m >> b == 0
    ensures m << (32 - b) == 0xFFFF_FFFF << (32 - b)
  {
    ((1 as bv32) << b) - 1
  }

  /** `key & (1<<c.b - 1)`: the bucket a key belongs to, as a table index. */
  function BucketIndex(b: bv8, key: bv32): (bi: nat)
    requires b < 32
    ensures bi < Pow2(b as nat)
  {
    assert (key & Mask(b)) >> b == 0;
    UnsignedBelow(key & Mask(b), b);
    Unsigned(key & Mask(b))
  }

  /** A bucket of eight empty slots. */
  const EmptyBucket: seq<bv64> := [Empty, Empty, Empty, Empty, Empty, Empty, Empty, Empty]

  /** `New(b)`: every slot empty and every register zero. */
  function New(b: bv8): (c: Cache)
    requires b < 32
    ensures WellFormed(c) && c.b == b
    ensures forall i, j :: 0 <= i < |c.buckets| && 0 <= j < 8 ==> c.buckets[i][j] == Empty
    ensures forall i :: 0 <= i < |c.lruBuckets| ==> c.lruBuckets[i] == 0
  {
    Cache(b, seq(Pow2(b as nat), _ => EmptyBucket), seq(Pow2(b as nat), _ => 0))
  }

  /*
   * Scanning one bucket.
   */

  /** Where the scan of a bucket for a key stops. */
  datatype Probe = Hit(slot: Slot) | Vacant(slot: Slot) | Full

  /** Slots `lo` up to `hi` are occupied by keys other than `key`. */
  ghost predicate Passed(bucket: seq<bv64>, key: bv32, lo: int, hi: int)
    requires |bucket| == 8 && 0 <= lo <= hi <= 8
  {
    forall m :: lo <= m < hi ==> bucket[m] != Empty && KeyOf(bucket[m]) != key
  }

  /**
   * The `for i := 0; i < soltNum; i++` scan shared by `Get` and `Set`, from
   * slot `i` on: stop at the first empty slot or the first slot holding
   * `key`, whichever comes first.
   */
  function Scan(bucket: seq<bv64>, key: bv32, i: int): (p: Probe)
    requires |bucket| == 8 && 0 <= i <= 8
    ensures p.Hit? ==> i <= p.slot && Passed(bucket, key, i, p.slot)
                       && bucket[p.slot] != Empty && KeyOf(bucket[p.slot]) == key
    ensures p.Vacant? ==> i <= p.slot && Passed(bucket, key, i, p.slot) && bucket[p.slot] == Empty
    ensures p.Full? ==> Passed(bucket, key, i, 8)
    decreases 8 - i
  {
    if i == 8 then Full
    else if bucket[i] == Empty then Vacant(i)
    else if KeyOf(bucket[i]) == key then Hit(i)
    else Scan(bucket, key, i + 1)
  }

  /** The scan stops at the first slot holding `key` when every earlier slot is passed. */
  lemma ScanHits(bucket: seq<bv64>, key: bv32, s: Slot)
    requires |bucket| == 8
    requires Passed(bucket, key, 0, s)
    requires bucket[s] != Empty && KeyOf(bucket[s]) == key
    ensures Scan(bucket, key, 0) == Hit(s)
  {
  }

  /*
   * Get.
   */

  /** `Get`'s two results and the cache it leaves behind. */
  datatype Got = Got(value: bv32, present: bool, cache: Cache)

  /** Touch slot `ei` of bucket `bi`: `c.updLru(bucketi, ei)`. */
  function Touch(c: Cache, bi: nat, ei: Slot): (c': Cache)
    requires WellFormed(c) && bi < |c.lruBuckets|
    ensures WellFormed(c') && c'.b == c.b && c'.buckets == c.buckets
    ensures c'.lruBuckets[bi] == UpdLru(c.lruBuckets[bi], ei)
    ensures forall i :: 0 <= i < |c.lruBuckets| && i != bi ==> c'.lruBuckets[i] == c.lruBuckets[i]
  {
    c.(lruBuckets := c.lruBuckets[bi := UpdLru(c.lruBuckets[bi], ei)])
  }

  /**
   * `Get(key)`: a hit returns the value and touches the slot, a miss
   * returns `(0, false)`. No slot word ever changes; a miss changes
   * nothing at all, and a hit changes only the register of the key's
   * bucket, by `updLru` on a slot holding the key.
   */
  function Get(c: Cache, key: bv32): (r: Got)
    requires WellFormed(c)
    ensures r.cache.b == c.b && r.cache.buckets == c.buckets && WellFormed(r.cache)
    ensures !r.present ==> r.value == 0 && r.cache == c
    ensures r.present ==>
              var bi := BucketIndex(c.b, key);
              exists j: Slot :: && c.buckets[bi][j] == Pack(key, r.value)
                                && r.cache.lruBuckets == c.lruBuckets[bi := UpdLru(c.lruBuckets[bi], j)]
  {
    var bi := BucketIndex(c.b, key);
    var bucket := c.buckets[bi];
    match Scan(bucket, key, 0)
    case Hit(j) =>
      UnpackPack(bucket[j]);
      Got(ValueOf(bucket[j]), true, Touch(c, bi, j))
    case _ => Got(0, false, c)
  }

  /*
   * Set.
   */

  /** Why `Set` rejects an entry. */
  datatype SetError = ZeroEntry

  /**
   * The slot `Set` writes: the slot already holding `key`, else the first
   * empty slot, else the victim the `find the min lru` loop picks, which is
   * always slot 0.
   */
  function SetSlot(bucket: seq<bv64>, key: bv32, lrus: bv32): (s: Slot)
    requires |bucket| == 8
    ensures Passed(bucket, key, 0, s)
    ensures bucket[s] == Empty || KeyOf(bucket[s]) == key || Passed(bucket, key, 0, 8)
    ensures Passed(bucket, key, 0, 8) ==> s == 0
  {
    match Scan(bucket, key, 0)
    case Hit(j) => j
    case Vacant(j) => j
    case Full =>
      VictimIsSlotZero(lrus);
      Victim(lrus)
  }

  /** Store word `w` in slot `s` of bucket `bi` and touch that slot. */
  function Store(c: Cache, bi: nat, s: Slot, w: bv64): (c': Cache)
    requires WellFormed(c) && bi < |c.buckets|
    ensures WellFormed(c') && c'.b == c.b
    ensures c'.buckets[bi][s] == w && c'.lruBuckets[bi] == UpdLru(c.lruBuckets[bi], s)
    ensures forall j: Slot :: j != s ==> c'.buckets[bi][j] == c.buckets[bi][j]
    ensures forall i :: 0 <= i < |c.buckets| && i != bi ==>
              c'.buckets[i] == c.buckets[i] && c'.lruBuckets[i] == c.lruBuckets[i]
  {
    Touch(c.(buckets := c.buckets[bi := c.buckets[bi][s := w]]), bi, s)
  }

  /**
   * `Set(key, value)`: the pair (0, 0) is rejected before anything is
   * read, since its word is the empty marker; the caller's cache is then
   * the state, unchanged. Otherwise the word `Pack(key, value)`, which is
   * not the empty marker, goes into `SetSlot` of the key's bucket and that
   * slot is touched.
   */
  function Set(c: Cache, key: bv32, value: bv32): (r: Result<Cache, SetError>)
    requires WellFormed(c)
    ensures r.Failure? <==> key == 0 && value == 0
    ensures r.Success? ==> WellFormed(r.value) && r.value.b == c.b && Pack(key, value) != Empty
  {
    if key == 0 && value == 0 then
      Failure(ZeroEntry)
    else
      var bi := BucketIndex(c.b, key);
      Success(Store(c, bi, SetSlot(c.buckets[bi], key, c.lruBuckets[bi]), Pack(key, value)))
  }

  /*
   * The bucket invariant.
   */

  /** The slots of a bucket that hold a word. */
  function Occupied(bucket: seq<bv64>): set<Slot>
    requires |bucket| == 8
  {
    set j: Slot | j in AllSlots && bucket[j] != Empty
  }

  /** The occupied slots form a prefix: `Get`'s scan may stop at the first empty slot. */
  ghost predicate GapFree(bucket: seq<bv64>)
    requires |bucket| == 8
  {
    forall j: Slot, k: Slot :: j < k && bucket[k] != Empty ==> bucket[j] != Empty
  }

  /** No key is stored twice in a bucket. */
  ghost predicate UniqueKeys(bucket: seq<bv64>)
    requires |bucket| == 8
  {
    forall j: Slot, k: Slot :: j != k && bucket[j] != Empty && bucket[k] != Empty ==> KeyOf(bucket[j]) != KeyOf(bucket[k])
  }

  /** Every key stored in bucket `bi` belongs to bucket `bi`. */
  ghost predicate AtHome(bucket: seq<bv64>, b: bv8, bi: nat)
    requires |bucket| == 8 && b < 32
  {
    forall j: Slot :: bucket[j] != Empty ==> BucketIndex(b, KeyOf(bucket[j])) == bi
  }

  /**
   * What `New`, `Get` and `Set` keep true of bucket `bi` and its register:
   * a gap-free prefix of words with distinct keys of this bucket, and a
   * register whose touched slots are exactly the occupied ones.
   */
  ghost predicate BucketInv(bucket: seq<bv64>, lrus: bv32, b: bv8, bi: nat)
    requires |bucket| == 8 && b < 32
  {
    && GapFree(bucket)
    && UniqueKeys(bucket)
    && AtHome(bucket, b, bi)
    && TouchedRanks(Ranks(lrus), Occupied(bucket))
  }

  /** The invariant of a whole cache. */
  ghost predicate Inv(c: Cache)
  {
    && WellFormed(c)
    && forall bi :: 0 <= bi < |c.buckets| ==> BucketInv(c.buckets[bi], c.lruBuckets[bi], c.b, bi)
  }

  /** A fresh cache satisfies the invariant. */
  lemma NewInv(b: bv8)
    requires b < 32
    ensures Inv(New(b))
  {
    assert Occupied(EmptyBucket) == {};
    ZeroRegisterUntouched();
  }

  /** Storing a word in a slot adds that slot to the occupied ones. */
  lemma OccupiedAfterWrite(bucket: seq<bv64>, s: Slot, w: bv64)
    requires |bucket| == 8 && w != Empty
    ensures Occupied(bucket[s := w]) == Occupied(bucket) + {s}
  {
    assert forall j: Slot :: j in AllSlots;
  }

  /**
   * Writing a word for `key` into slot `s` keeps the bucket invariant when
   * `s` is where a scan for `key` may write: every earlier slot is passed,
   * and `s` is empty, already holds `key`, or the bucket is full without it.
   */
  lemma WriteKeepsBucketInv(bucket: seq<bv64>, lrus: bv32, b: bv8, bi: nat, key: bv32, value: bv32, s: Slot)
    requires |bucket| == 8 && b < 32
    requires BucketInv(bucket, lrus, b, bi)
    requires BucketIndex(b, key) == bi && Pack(key, value) != Empty
    requires Passed(bucket, key, 0, s)
    requires bucket[s] == Empty || KeyOf(bucket[s]) == key || Passed(bucket, key, 0, 8)
    ensures BucketInv(bucket[s := Pack(key, value)], UpdLru(lrus, s), b, bi)
  {
    var w := Pack(key, value);
    var bucket' := bucket[s := w];
    OccupiedAfterWrite(bucket, s, w);
    UpdLruExtends(lrus, Occupied(bucket), s);
    WriteKeepsGapFree(bucket, key, w, s);
    WriteKeepsUniqueKeys(bucket, key, w, s);
    WriteKeepsAtHome(bucket, b, bi, w, s);
  }

  lemma WriteKeepsAtHome(bucket: seq<bv64>, b: bv8, bi: nat, w: bv64, s: Slot)
    requires |bucket| == 8 && b < 32
    requires AtHome(bucket, b, bi) && BucketIndex(b, KeyOf(w)) == bi
    ensures AtHome(bucket[s := w], b, bi)
  {
  }

  lemma WriteKeepsGapFree(bucket: seq<bv64>, key: bv32, w: bv64, s: Slot)
    requires |bucket| == 8 && w != Empty
    requires GapFree(bucket)
    requires Passed(bucket, key, 0, s)
    ensures GapFree(bucket[s := w])
  {
  }

  lemma WriteKeepsUniqueKeys(bucket: seq<bv64>, key: bv32, w: bv64, s: Slot)
    requires |bucket| == 8 && w != Empty && KeyOf(w) == key
    requires GapFree(bucket) && UniqueKeys(bucket)
    requires Passed(bucket, key, 0, s)
    requires bucket[s] == Empty || KeyOf(bucket[s]) == key || Passed(bucket, key, 0, 8)
    ensures UniqueKeys(bucket[s := w])
  {
  }

  /** Replacing one bucket and its register by ones that keep the bucket invariant keeps `Inv`. */
  lemma ReplaceBucketKeepsInv(c: Cache, bi: nat, bucket': seq<bv64>, lrus': bv32)
    requires Inv(c) && bi < |c.buckets|
    requires |bucket'| == 8 && BucketInv(bucket', lrus', c.b, bi)
    ensures Inv(c.(buckets := c.buckets[bi := bucket'], lruBuckets := c.lruBuckets[bi := lrus']))
  {
    var c' := c.(buckets := c.buckets[bi := bucket'], lruBuckets := c.lruBuckets[bi := lrus']);
    forall i | 0 <= i < |c'.buckets|
      ensures BucketInv(c'.buckets[i], c'.lruBuckets[i], c'.b, i)
    {
      if i != bi {
        assert c'.buckets[i] == c.buckets[i] && c'.lruBuckets[i] == c.lruBuckets[i];
      }
    }
  }

  /*
   * What Get and Set do to the invariant and to the stored mapping.
   */

  /** `Set` keeps the invariant. */
  lemma SetPreservesInv(c: Cache, key: bv32, value: bv32)
    requires Inv(c)
    ensures Set(c, key, value).Success? ==> Inv(Set(c, key, value).value)
  {
    if Set(c, key, value).Success? {
      var bi := BucketIndex(c.b, key);
      var s := SetSlot(c.buckets[bi], key, c.lruBuckets[bi]);
      WriteKeepsBucketInv(c.buckets[bi], c.lruBuckets[bi], c.b, bi, key, value, s);
      ReplaceBucketKeepsInv(c, bi, c.buckets[bi][s := Pack(key, value)], UpdLru(c.lruBuckets[bi], s));
    }
  }

  /** Touching an occupied slot keeps the bucket invariant. */
  lemma TouchKeepsBucketInv(bucket: seq<bv64>, lrus: bv32, b: bv8, bi: nat, ei: Slot)
    requires |bucket| == 8 && b < 32
    requires BucketInv(bucket, lrus, b, bi) && bucket[ei] != Empty
    ensures BucketInv(bucket, UpdLru(lrus, ei), b, bi)
  {
    OccupiedAfterWrite(bucket, ei, bucket[ei]);
    assert bucket[ei := bucket[ei]] == bucket;
    UpdLruExtends(lrus, Occupied(bucket), ei);
  }

  /** `Get` keeps the invariant: a hit touches a slot that is already occupied. */
  lemma GetPreservesInv(c: Cache, key: bv32)
    requires Inv(c)
    ensures Inv(Get(c, key).cache)
  {
    var bi := BucketIndex(c.b, key);
    var bucket := c.buckets[bi];
    var p := Scan(bucket, key, 0);
    if p.Hit? {
      TouchKeepsBucketInv(bucket, c.lruBuckets[bi], c.b, bi, p.slot);
      ReplaceBucketKeepsInv(c, bi, bucket, UpdLru(c.lruBuckets[bi], p.slot));
      assert c.buckets[bi := bucket] == c.buckets;
    }
  }

  /** Some slot of `bucket` holds the word `w`. */
  ghost predicate InBucket(bucket: seq<bv64>, w: bv64)
    requires |bucket| == 8
  {
    exists j: Slot :: bucket[j] == w
  }

  /** The cache maps `key` to `value`: some slot of the key's bucket holds their word. */
  ghost predicate Holds(c: Cache, key: bv32, value: bv32)
    requires WellFormed(c)
  {
    InBucket(c.buckets[BucketIndex(c.b, key)], Pack(key, value))
  }

  /** In a gap-free bucket with unique keys, the scan finds the one slot holding the key. */
  lemma ScanFinds(bucket: seq<bv64>, key: bv32, value: bv32)
    requires |bucket| == 8 && GapFree(bucket) && UniqueKeys(bucket)
    requires Pack(key, value) != Empty
    ensures InBucket(bucket, Pack(key, value)) <==>
            Scan(bucket, key, 0).Hit? && bucket[Scan(bucket, key, 0).slot] == Pack(key, value)
  {
    if InBucket(bucket, Pack(key, value)) {
      var j: Slot :| bucket[j] == Pack(key, value);
      assert Passed(bucket, key, 0, j);
      ScanHits(bucket, key, j);
    }
  }

  /**
   * Under the invariant `Get` finds exactly what the cache holds: it
   * returns `(value, true)` if and only if `key` maps to `value`.
   */
  lemma GetFinds(c: Cache, key: bv32, value: bv32)
    requires Inv(c) && Pack(key, value) != Empty
    ensures Get(c, key).present && Get(c, key).value == value <==> Holds(c, key, value)
  {
    var bi := BucketIndex(c.b, key);
    var bucket := c.buckets[bi];
    assert BucketInv(bucket, c.lruBuckets[bi], c.b, bi);
    ScanFinds(bucket, key, value);
    var p := Scan(bucket, key, 0);
    if p.Hit? {
      UnpackPack(bucket[p.slot]);
    }
  }

  /** A word written where a scan for its key may write is where the next scan stops. */
  lemma WriteThenScan(bucket: seq<bv64>, key: bv32, w: bv64, s: Slot)
    requires |bucket| == 8 && w != Empty && KeyOf(w) == key
    requires Passed(bucket, key, 0, s)
    ensures Scan(bucket[s := w], key, 0) == Hit(s)
  {
    assert Passed(bucket[s := w], key, 0, s);
    ScanHits(bucket[s := w], key, s);
  }

  /** After `Set(key, value)`, `Get(key)` returns `(value, true)`. */
  lemma SetThenGet(c: Cache, key: bv32, value: bv32)
    requires WellFormed(c)
    requires !(key == 0 && value == 0)
    ensures Get(Set(c, key, value).value, key).present
    ensures Get(Set(c, key, value).value, key).value == value
  {
    var bi := BucketIndex(c.b, key);
    var s := SetSlot(c.buckets[bi], key, c.lruBuckets[bi]);
    WriteThenScan(c.buckets[bi], key, Pack(key, value), s);
  }

  /**
   * `Set(key, value)` changes one slot word and one register, both of the
   * key's bucket: the slot already holding `key`, else the first empty
   * slot, else slot 0; that slot is touched. Every other bucket and every
   * other register stays as it was.
   */
  lemma SetChangesOneSlot(c: Cache, key: bv32, value: bv32)
    requires WellFormed(c)
    requires !(key == 0 && value == 0)
    ensures var bi := BucketIndex(c.b, key);
            var c' := Set(c, key, value).value;
            && |c'.buckets| == |c.buckets| && |c'.lruBuckets| == |c.lruBuckets|
            && (forall i :: 0 <= i < |c.buckets| && i != bi ==>
                  c'.buckets[i] == c.buckets[i] && c'.lruBuckets[i] == c.lruBuckets[i])
            && exists s: Slot ::
                 && c'.buckets[bi] == c.buckets[bi][s := Pack(key, value)]
                 && c'.lruBuckets[bi] == UpdLru(c.lruBuckets[bi], s)
                 && (forall j: Slot :: j < s ==> c.buckets[bi][j] != Empty && KeyOf(c.buckets[bi][j]) != key)
                 && (c.buckets[bi][s] == Empty || KeyOf(c.buckets[bi][s]) == key
                     || (s == 0 && Passed(c.buckets[bi], key, 0, 8)))
  {
    var bi := BucketIndex(c.b, key);
    var s := SetSlot(c.buckets[bi], key, c.lruBuckets[bi]);
    var c' := Set(c, key, value).value;
    assert c' == Store(c, bi, s, Pack(key, value));
    assert c'.buckets[bi] == c.buckets[bi][s := Pack(key, value)];
    assert c'.lruBuckets[bi] == UpdLru(c.lruBuckets[bi], s);
  }

  /** The word a `Set(key, _)` overwrites when the key's bucket is full without `key`. */
  function Evicted(c: Cache, key: bv32): (e: Option<bv64>)
    requires WellFormed(c)
    ensures e.Some? <==> Passed(c.buckets[BucketIndex(c.b, key)], key, 0, 8)
    ensures e.Some? ==> e.value == c.buckets[BucketIndex(c.b, key)][0]
  {
    var bucket := c.buckets[BucketIndex(c.b, key)];
    var p := Scan(bucket, key, 0);
    assert !p.Full? ==> bucket[p.slot] == Empty || KeyOf(bucket[p.slot]) == key;
    if p.Full? then Some(bucket[0]) else None
  }

  /**
   * Writing a word for `key` where `SetSlot` puts it keeps every word of
   * another key, except slot 0's word when the bucket was full.
   */
  lemma WriteKeepsOtherWords(bucket: seq<bv64>, key: bv32, w: bv64, s: Slot, w2: bv64)
    requires |bucket| == 8 && KeyOf(w) == key && w2 != Empty && KeyOf(w2) != key
    requires Passed(bucket, key, 0, s)
    requires bucket[s] == Empty || KeyOf(bucket[s]) == key || Passed(bucket, key, 0, 8)
    requires Passed(bucket, key, 0, 8) ==> s == 0
    requires UniqueKeys(bucket)
    ensures InBucket(bucket[s := w], w2) <==>
            InBucket(bucket, w2) && !(Passed(bucket, key, 0, 8) && bucket[0] == w2)
  {
    if InBucket(bucket, w2) && !(Passed(bucket, key, 0, 8) && bucket[0] == w2) {
      var j: Slot :| bucket[j] == w2;
      assert bucket[s := w][j] == w2;
    }
    if InBucket(bucket[s := w], w2) {
      var j: Slot :| bucket[s := w][j] == w2;
      assert bucket[j] == w2;
    }
  }

  /**
   * `Set(key, value)` leaves every other key's mapping alone, except the
   * entry in slot 0 of a full bucket, which it evicts.
   */
  lemma SetKeepsOthers(c: Cache, key: bv32, value: bv32, key2: bv32, value2: bv32)
    requires Inv(c)
    requires !(key == 0 && value == 0)
    requires key2 != key && Pack(key2, value2) != Empty
    ensures Holds(Set(c, key, value).value, key2, value2) <==>
            Holds(c, key2, value2) && Evicted(c, key) != Some(Pack(key2, value2))
  {
    WordsKeepOthers(c, key, value, Set(c, key, value).value, key2, value2);
  }

  /** The slot words `Set` leaves behind keep every other key's mapping but the evicted one. */
  lemma WordsKeepOthers(c: Cache, key: bv32, value: bv32, c': Cache, key2: bv32, value2: bv32)
    requires Inv(c) && WellFormed(c') && c'.b == c.b
    requires var bi := BucketIndex(c.b, key);
             c'.buckets == c.buckets[bi := c.buckets[bi][SetSlot(c.buckets[bi], key, c.lruBuckets[bi]) := Pack(key, value)]]
    requires key2 != key && Pack(key2, value2) != Empty
    ensures Holds(c', key2, value2) <==>
            Holds(c, key2, value2) && Evicted(c, key) != Some(Pack(key2, value2))
  {
    var bi := BucketIndex(c.b, key);
    var bucket := c.buckets[bi];
    var s := SetSlot(bucket, key, c.lruBuckets[bi]);
    assert BucketInv(bucket, c.lruBuckets[bi], c.b, bi);
    if BucketIndex(c.b, key2) == bi {
      var w2 := Pack(key2, value2);
      WriteKeepsOtherWords(bucket, key, Pack(key, value), s, w2);
      assert Holds(c', key2, value2) == InBucket(bucket[s := Pack(key, value)], w2);
      assert Holds(c, key2, value2) == InBucket(bucket, w2);
      assert Evicted(c, key) == Some(w2) <==> Passed(bucket, key, 0, 8) && bucket[0] == w2;
    } else {
      OtherBucketKept(c, key, c', key2, value2);
    }
  }

  /** A key of another bucket is neither touched nor evicted. */
  lemma OtherBucketKept(c: Cache, key: bv32, c': Cache, key2: bv32, value2: bv32)
    requires Inv(c) && WellFormed(c') && c'.b == c.b
    requires BucketIndex(c.b, key2) != BucketIndex(c.b, key)
    requires c'.buckets[BucketIndex(c.b, key2)] == c.buckets[BucketIndex(c.b, key2)]
    requires Pack(key2, value2) != Empty
    ensures Holds(c', key2, value2) <==> Holds(c, key2, value2)
    ensures Evicted(c, key) != Some(Pack(key2, value2))
  {
    var bi := BucketIndex(c.b, key);
    assert BucketInv(c.buckets[bi], c.lruBuckets[bi], c.b, bi);
    assert c.buckets[bi][0] != Empty ==> BucketIndex(c.b, KeyOf(c.buckets[bi][0])) == bi;
  }

  /** `Set(key, value)` replaces whatever value `key` had: no other value of `key` remains. */
  lemma SetReplaces(c: Cache, key: bv32, value: bv32, previous: bv32)
    requires Inv(c)
    requires !(key == 0 && value == 0)
    requires previous != value && Pack(key, previous) != Empty
    ensures !Holds(Set(c, key, value).value, key, previous)
  {
    var c' := Set(c, key, value).value;
    SetPreservesInv(c, key, value);
    SetThenGet(c, key, value);
    GetFinds(c', key, previous);
  }

  lemma AllOccupied(bucket: seq<bv64>)
    requires |bucket| == 8
    requires forall j: Slot :: bucket[j] != Empty
    ensures Occupied(bucket) == AllSlots
  {
    assert forall j: Slot :: j in AllSlots;
  }

  /** Once every slot of bucket `bi` is occupied, its register is a permutation of 0..7. */
  lemma FullBucketIsPermutation(c: Cache, bi: nat)
    requires Inv(c) && bi < |c.buckets|
    requires forall j: Slot :: c.buckets[bi][j] != Empty
    ensures IsPermutation(Ranks(c.lruBuckets[bi]))
  {
    var bucket := c.buckets[bi];
    assert BucketInv(bucket, c.lruBuckets[bi], c.b, bi);
    AllOccupied(bucket);
    AllTouchedIsPermutation(Ranks(c.lruBuckets[bi]));
  }

  /**
   * When the bucket of `key` is full without it, `Set` overwrites slot 0,
   * leaves slots 1..7 alone, and makes slot 0 the most recently touched
   * while the other slots keep their relative order: the entry it evicts is
   * whichever one sits in slot 0, however recently it was used.
   */
  lemma SetFullEvictsSlotZero(c: Cache, key: bv32, value: bv32)
    requires Inv(c)
    requires !(key == 0 && value == 0)
    requires Evicted(c, key).Some?
    ensures var bi := BucketIndex(c.b, key);
            var c' := Set(c, key, value).value;
            && c'.buckets[bi][0] == Pack(key, value)
            && (forall j: Slot :: j != 0 ==> c'.buckets[bi][j] == c.buckets[bi][j])
            && Rank(c'.lruBuckets[bi], 0) == 7
            && (forall j: Slot, k: Slot :: j != 0 && k != 0 ==>
                  (Rank(c.lruBuckets[bi], j) < Rank(c.lruBuckets[bi], k) <==>
                   Rank(c'.lruBuckets[bi], j) < Rank(c'.lruBuckets[bi], k)))
  {
    var bi := BucketIndex(c.b, key);
    var lrus := c.lruBuckets[bi];
    assert SetSlot(c.buckets[bi], key, lrus) == 0;
    FullBucketIsPermutation(c, bi);
    UpdLruOnPermutation(lrus, 0);
  }

  /*
   * The evidently intended eviction policy.
   */

  /**
   * The slot the evidently intended policy writes: as `SetSlot`, except that
   * a full bucket gives up its least recently touched slot.
   */
  function IntendedSlot(bucket: seq<bv64>, key: bv32, lrus: bv32): (s: Slot)
    requires |bucket| == 8
    ensures Passed(bucket, key, 0, s)
    ensures bucket[s] == Empty || KeyOf(bucket[s]) == key || Passed(bucket, key, 0, 8)
    ensures Passed(bucket, key, 0, 8) ==> s == LeastRecent(lrus)
  {
    match Scan(bucket, key, 0)
    case Hit(j) => j
    case Vacant(j) => j
    case Full => LeastRecent(lrus)
  }

  /** `Set` with the evidently intended policy: evict the least recently touched slot. */
  function SetEvictingOldest(c: Cache, key: bv32, value: bv32): (r: Result<Cache, SetError>)
    requires WellFormed(c)
    ensures r.Failure? <==> key == 0 && value == 0
    ensures r.Success? ==> WellFormed(r.value) && r.value.b == c.b
  {
    if key == 0 && value == 0 then
      Failure(ZeroEntry)
    else
      var bi := BucketIndex(c.b, key);
      Success(Store(c, bi, IntendedSlot(c.buckets[bi], key, c.lruBuckets[bi]), Pack(key, value)))
  }

  /** The intended policy keeps the invariant too. */
  lemma EvictingOldestPreservesInv(c: Cache, key: bv32, value: bv32)
    requires Inv(c)
    ensures SetEvictingOldest(c, key, value).Success? ==> Inv(SetEvictingOldest(c, key, value).value)
  {
    if SetEvictingOldest(c, key, value).Success? {
      var bi := BucketIndex(c.b, key);
      var s := IntendedSlot(c.buckets[bi], key, c.lruBuckets[bi]);
      WriteKeepsBucketInv(c.buckets[bi], c.lruBuckets[bi], c.b, bi, key, value, s);
      ReplaceBucketKeepsInv(c, bi, c.buckets[bi][s := Pack(key, value)], UpdLru(c.lruBuckets[bi], s));
    }
  }

  /**
   * On a full bucket the intended policy overwrites the slot whose rank is
   * 0, strictly older than every other slot of the bucket.
   */
  lemma EvictingOldestEvictsOldest(c: Cache, key: bv32, value: bv32)
    requires Inv(c)
    requires Evicted(c, key).Some?
    ensures var bi := BucketIndex(c.b, key);
            var s := IntendedSlot(c.buckets[bi], key, c.lruBuckets[bi]);
            && Rank(c.lruBuckets[bi], s) == 0
            && forall j: Slot :: j != s ==> Rank(c.lruBuckets[bi], s) < Rank(c.lruBuckets[bi], j)
  {
    var bi := BucketIndex(c.b, key);
    FullBucketIsPermutation(c, bi);
    LeastRecentIsOldest(c.lruBuckets[bi]);
  }
}
