# IntCache in Dafny

A model of `IntCache` from intcache.go. It is a fixed-capacity, 8-way set-associative map from `uint32` keys to `uint32` values.

- **Slot codec.** Each slot is one 64-bit word. The key is in the high half and the value in the low half. The all-zero word marks an empty slot.
- **Bucket table.** There are `2^b` buckets of 8 slots each. A key belongs to bucket `key & (1<<b - 1)`.
- **Recency register.** Each bucket has one 32-bit register: eight 4-bit nibbles, one rank per slot, 7 being the most recent. `updLru` moves a slot to rank 7 and moves down every rank above the slot's old rank.

The model is purely functional. A cache is a `Cache` value: bucket width `b`, a `seq<seq<bv64>>` of slot words and a `seq<bv32>` of registers. The operations are pure functions over bit-vectors:

- `New` builds a cache;
- `Get` returns the value, whether the key was present, and the cache it leaves (a hit touches the register);
- `Set` returns `Result<Cache, SetError>`.

The module layout:

| file | module | contents |
|---|---|---|
| wrappers.dfy | `Wrappers` | `Option` and `Result` |
| words.dfy | `Words` | the slot index type, `Pow2`, the unsigned value of a 32-bit word |
| slot_codec.dfy | `SlotCodec` | `Pack`, `KeyOf`, `ValueOf` and their round trip |
| recency.dfy | `Recency` | `updLru` at the bit level, ranks, the touched-ranks invariant, the victim loop as written and the least-recent slot it was meant to find |
| intcache.dfy | `IntCache` | the cache, `New`, `Get`, `Set`, the bucket invariant, and the `Set`/`Get` properties |
| scenarios.dfy | `Scenarios` | `TestUpdLru`, `TestSimpleSet` and `TestSet` of intcache_test.go as lemmas |

In two places the code does something other than what its own text says it means to do. The model follows the code in both.

- **Victim choice.** When a bucket is full, `Set` looks for a victim under the comment `// find the min lru` (intcache.go:64). It keeps the candidate in `mini` and stops at the first slot whose value `lru` is 0 (intcache.go:66-75). So the intent is to evict the slot of rank 0, the least recently used one. The loop ORs the register with the mask instead of masking it, so `lru` is never zero and the victim is always slot 0. `Set` is modelled as written. The rank-0 policy appears only as a separate definition (see "## Findings").
- **Permutation invariant.** `New` zero-fills the registers (intcache.go:20), so a register starts with all eight nibbles at 0. The rank arithmetic of `updLru` (intcache.go:88-93) gives rank 7 to the touched slot and lowers only ranks above its old rank. So only the slots touched so far get distinct ranks, and a register is not a permutation of 0..7 from the start. The invariant proved is the general one: after `k` distinct slots have been touched, those slots hold the distinct ranks `8-k .. 7` and every other slot holds 0. A permutation is the case `k = 8`.

The bucket invariant `IntCache.Inv` is preserved by `New`, `Get` and `Set`. It holds for every bucket:

- the occupied slots form a gap-free prefix;
- no key appears twice;
- every stored key belongs to its bucket;
- the register's touched slots are exactly the occupied slots.

A slot counts as occupied exactly when its word is not 0, and `Set` never writes 0.

## Model

| member | source | states |
|---|---|---|
| SlotCodec.Pack | intcache.go:51 | the packed word gives back the key from its high half and the value from its low half; it is the empty word 0 exactly when key and value are both 0 |
| SlotCodec.KeyOf | intcache.go:32 | `uint32(e>>32)`: the key is the high 32 bits of the word, moved down |
| SlotCodec.ValueOf | intcache.go:33 | `uint32(e)`, the low half of the word; what it means is stated by `SlotCodec.Pack` (the value of a packed word is the value packed) and `SlotCodec.UnpackPack` (every word is the packing of its key and value halves) |
| SlotCodec.UnpackPack | intcache.go:32-33 | every word is the packing of its own key and value halves, so the codec is a bijection |
| SlotCodec.PackInjective | intcache.go:57 | two key/value pairs pack to the same word only if they are equal |
| IntCache.BucketIndex | intcache.go:25 | the bucket index `key & (1<<b - 1)` is below `2^b`, so it indexes the tables `New` allocates |
| IntCache.Mask | intcache.go:25 | `1<<b - 1` has its low `b` bits set and every other bit clear |
| IntCache.New | intcache.go:15-22 | `2^b` buckets of 8 slots and `2^b` registers; every slot is empty and every register is 0 |
| IntCache.NewInv | intcache.go:15-22 | a fresh cache satisfies the bucket invariant: no slot occupied, no slot touched |
| IntCache.Scan | intcache.go:26-38 | the shared scan stops at the first slot that is empty or holds the key; every slot before it is occupied by another key; a full scan means all 8 slots hold other keys |
| IntCache.ScanHits | intcache.go:26-37 | when all slots before `s` hold other keys and `s` holds the key, the scan hits `s` |
| IntCache.Touch | intcache.go:35 | `c.updLru(bucketi, i)` replaces only register `bi`, by `updLru` of slot `ei`; slot words and every other register stay as they were |
| IntCache.Store | intcache.go:51-52 | a store of word `w` into slot `s` of bucket `bi` followed by `updLru(bi, s)` (also intcache.go:58-59 and 77-78): slot `s` holds `w`, register `bi` is `updLru` of `s`, and every other slot and every other bucket and register are unchanged |
| IntCache.Get | intcache.go:24-41 | slot words never change; a miss returns (0, false) and changes nothing; a hit returns the value of a slot whose word is the key's packing, and the key's bucket register becomes `updLru` of that slot |
| IntCache.GetFinds | intcache.go:24-41 | under the invariant, `Get(key)` returns (value, true) exactly when some slot of the key's bucket holds `Pack(key, value)` |
| IntCache.ScanFinds | intcache.go:26-38 | in a gap-free bucket with unique keys, a word for `key` is in the bucket exactly when the scan hits a slot holding that word |
| IntCache.GetPreservesInv | intcache.go:24-41 | `Get` keeps the bucket invariant, since it touches only an occupied slot |
| IntCache.TouchKeepsBucketInv | intcache.go:35 | touching an occupied slot keeps the bucket invariant of its bucket |
| IntCache.SetSlot | intcache.go:48-75 | the slot `Set` writes lies after only slots holding other keys; it is empty or holds the key, unless all 8 slots hold other keys, and then it is slot 0 |
| IntCache.Set | intcache.go:43-79 | `Set(0, 0)` is rejected with `ZeroEntry` and is the only rejected call; otherwise the result keeps the shape and width, and the stored word is not the empty word |
| IntCache.SetChangesOneSlot | intcache.go:43-79 | `Set` changes only the key's bucket and register; in that bucket it writes one slot (the key's slot, else the first empty slot, else slot 0), and the register becomes `updLru` of that slot |
| IntCache.WriteKeepsBucketInv | intcache.go:48-78 | writing the key's word where `Set` writes it (the key's slot, the first empty slot, or slot 0 of a bucket whose 8 slots all hold other keys), and touching that slot, keeps gap-freedom, unique keys, home buckets and the touched-ranks invariant |
| IntCache.WriteKeepsGapFree | intcache.go:50-51 | a non-empty word written at or before the first empty slot keeps the occupied slots a prefix |
| IntCache.WriteKeepsUniqueKeys | intcache.go:56-58 | writing the key where it already is, where the scan stopped, or over slot 0 of a full bucket keeps keys unique |
| IntCache.WriteKeepsAtHome | intcache.go:47 | writing a word whose key belongs to the bucket keeps every key in its home bucket |
| IntCache.OccupiedAfterWrite | intcache.go:51 | writing a non-empty word adds its slot to the occupied slots and changes nothing else |
| IntCache.ReplaceBucketKeepsInv | intcache.go:47 | replacing one bucket and its register by a pair that keeps the bucket invariant keeps the whole-cache invariant |
| IntCache.SetPreservesInv | intcache.go:43-79 | `Set` keeps the bucket invariant of every bucket |
| IntCache.WriteThenScan | intcache.go:26-37 | after a word for `key` is written where the scan for `key` stops, the next scan hits that slot |
| IntCache.SetThenGet | intcache.go:43-79 | after `Set(key, value)`, `Get(key)` returns (value, true) |
| IntCache.SetReplaces | intcache.go:56-60 | after `Set(key, value)` the cache holds no other value for `key` |
| IntCache.Evicted | intcache.go:64-77 | `Set(key, _)` overwrites a word of another key exactly when all 8 slots of the key's bucket hold other keys, and that word is slot 0's |
| IntCache.WriteKeepsOtherWords | intcache.go:48-77 | the write keeps every other key's word in the bucket, except slot 0's word when the bucket was full |
| IntCache.SetKeepsOthers | intcache.go:43-79 | after `Set(key, value)`, another key maps to a value exactly when it did before and its word was not the one evicted |
| IntCache.WordsKeepOthers | intcache.go:47-77 | the slot words `Set` leaves map every other key as before, except for the evicted word |
| IntCache.OtherBucketKept | intcache.go:47 | a key of another bucket keeps its mapping and is never the evicted word |
| IntCache.AllOccupied | intcache.go:64 | a bucket with every slot non-empty has all slots occupied |
| IntCache.FullBucketIsPermutation | intcache.go:64-65 | under the invariant, the register of a full bucket holds a permutation of 0..7 |
| IntCache.SetFullEvictsSlotZero | intcache.go:64-78 | on a full bucket without the key, `Set` overwrites slot 0, leaves slots 1..7 alone, gives slot 0 rank 7, and keeps the order of the other slots |
| IntCache.IntendedSlot | intcache.go:64-75 | the corrected slot choice: as `SetSlot`, except that a full bucket gives up its least recently touched slot |
| IntCache.SetEvictingOldest | intcache.go:43-79 | `Set` with the corrected choice: the same rejection of (0, 0) and the same shape |
| IntCache.EvictingOldestPreservesInv | intcache.go:64-78 | the corrected `Set` keeps the bucket invariant too |
| IntCache.EvictingOldestEvictsOldest | intcache.go:64-75 | on a full bucket the corrected choice overwrites the slot of rank 0, strictly older than every other slot |
| Recency.NibbleOfWithNibble | intcache.go:88 | writing a nibble sets that slot's nibble and leaves the other seven alone |
| Recency.OldLru | intcache.go:83-84 | the old rank read before the loop is slot `ei`'s nibble |
| Recency.UpdFrom | intcache.go:85-96 | the `updLru` loop from slot `i` on, one call per iteration; what it computes is stated by `Recency.UpdFromNibble` |
| Recency.UpdLru | intcache.go:81-98 | `updLru` on the register value; what it computes is stated by `Recency.UpdLruNibble` and `Recency.UpdLruTouch` |
| Recency.UpdFromNibble | intcache.go:85-96 | the loop from slot `i` on leaves the slots before `i` alone and rewrites each later slot by the touch rule |
| Recency.UpdLruNibble | intcache.go:81-98 | after `updLru(ei)`, slot `ei`'s nibble is 7; a nibble above `ei`'s old nibble drops by 1; every other nibble is unchanged |
| Recency.NibbleTouchRank | intcache.go:88-93 | the touch rule on nibbles is the touch rule on their integer ranks |
| Recency.UpdLruTouch | intcache.go:81-98 | the ranks of `updLru(lrus, ei)` are the rank-level touch of `ei` applied to the ranks of `lrus` |
| Recency.RankAfterTouchOrder | intcache.go:90-93 | ranks other than the vacated one stay in 0..6 after the touch and keep their order |
| Recency.AllTouchedIsPermutation | intcache.go:81-98 | the touched-ranks invariant with all 8 slots touched is exactly a permutation of 0..7 |
| Recency.ZeroRegisterUntouched | intcache.go:20 | the zero register is the touched-ranks state with no slot touched |
| Recency.TouchExtends | intcache.go:81-98 | a touch adds its slot to the touched set and keeps the touched-ranks invariant |
| Recency.TouchKeepsPermutation | intcache.go:81-98 | a touch on a permutation gives a permutation with the touched slot alone at rank 7 |
| Recency.TouchKeepsOrder | intcache.go:90-93 | a touch keeps the relative order of any two other slots whose ranks differ from the vacated rank |
| Recency.UpdLruExtends | intcache.go:81-98 | `updLru` keeps the touched-ranks invariant, adding the touched slot |
| Recency.UpdLruKeepsPermutation | intcache.go:81-98 | `updLru` keeps a permutation register a permutation, with the touched slot alone at the top |
| Recency.UpdLruKeepsOrder | intcache.go:81-98 | on a permutation, `updLru` keeps the order of any two untouched slots |
| Recency.UpdLruOnPermutation | intcache.go:81-98 | on a permutation, `updLru` puts the touched slot at rank 7 and keeps the order of every pair of other slots |
| Recency.RanksOfReplay | intcache.go:81-98 | the ranks of a register after a history of `updLru` calls are the rank-level replay of that history |
| Recency.CoveringHistory | intcache.go:81-98 | a history that touches every slot touches the set of all 8 slots |
| Recency.ReplayExtends | intcache.go:81-98 | a history grows the touched set by its slots and keeps the touched-ranks invariant |
| Recency.ReplayRanksFromZero | intcache.go:81-98 | from all-zero ranks, a history leaves its slots on distinct top ranks and the others at 0; once every slot is touched, the ranks are a permutation |
| Recency.ReplayFromZero | intcache.go:81-98 | from the zero register `New` builds, any history of `updLru` calls keeps the touched-ranks invariant, and a history touching all 8 slots leaves a permutation |
| Recency.OrNibbleMaskNonZero | intcache.go:70-71 | `lrus OR 0b1111<<i` (Go's `|`) is never zero |
| Recency.VictimFrom | intcache.go:69-75 | the victim loop as written, from slot `i` on; `Recency.VictimFromIsZero` states that it gives 0 |
| Recency.Victim | intcache.go:64-75 | the victim slot of a full bucket as written; `Recency.VictimIsSlotZero` states that it is slot 0 |
| Recency.VictimFromIsZero | intcache.go:69-75 | the victim loop as written never breaks, so `mini` keeps its zero value |
| Recency.VictimIsSlotZero | intcache.go:64-75 | whatever the register holds, the victim of a full bucket is slot 0 |
| Recency.VictimIsNotLeastRecent | intcache.go:64-78 | on the permutation register 0x01234567, slot 0 is the most recent slot (rank 7) and slot 7 the least recent, yet slot 0 is the victim |
| Recency.LeastRecentFromFinds | intcache.go:69-75 | the corrected loop stops at the first slot of rank 0 |
| Recency.PermutationHasZero | intcache.go:69-75 | a permutation register has a slot of rank 0 |
| Recency.LeastRecentIsOldest | intcache.go:69-75 | on a permutation, the corrected loop picks the slot of rank 0, strictly below every other slot |
| Scenarios.UpdLruFirstCase | intcache_test.go:151-153 | touching slot 1 of register 0x765 gives 0x675 |
| Scenarios.UpdLruSecondCase | intcache_test.go:154-156 | touching slot 1 of register 0x36217504 gives 0x25106473 |
| Scenarios.SecondCaseSlots0To3 | intcache_test.go:154-156 | the first four loop steps of that touch |
| Scenarios.SecondCaseSlots4To7 | intcache_test.go:154-156 | the last four loop steps of that touch |
| Scenarios.SimpleSetBuckets | intcache_test.go:15-16 | with `b = 1` the table has two empty buckets, and keys 1, 3 and 5 all go to bucket 1 |
| Scenarios.SimpleScans | intcache_test.go:17-28 | where each scan of `TestSimpleSet` stops |
| Scenarios.SimpleFirstRound | intcache_test.go:15-19 | on a cache with `b = 1` and two empty buckets, as `New(1)` builds, `Set(1, 1)` then `Get(1)` reads 1 and leaves key 1 in slot 0 of bucket 1 |
| Scenarios.SimpleSecondRound | intcache_test.go:20-22 | then `Set(3, 3)` then `Get(3)` reads 3 and leaves key 3 in slot 1 |
| Scenarios.SimpleLastRounds | intcache_test.go:23-28 | then `Get(3)` after `Set(5, 5)` still reads 3, and after `Set(3, 30)` reads 30 |
| Scenarios.SimpleSet | intcache_test.go:14-29 | `TestSimpleSet`: `Get(1)` gives 1, `Get(3)` gives 3 before and after `Set(5, 5)`, and 30 after `Set(3, 30)` |
| Scenarios.BigBuckets | intcache_test.go:32-38 | with `b = 21`, keys 1 and 1 + 2^21 share bucket 1, keys 2 and 2 + 2^21 share bucket 2, key 3 is in bucket 3, and every bucket starts empty |
| Scenarios.BigScans | intcache_test.go:34-43 | where each scan of `TestSet` stops |
| Scenarios.BigWritesBucket1 | intcache_test.go:34-35 | the writes of keys 1 and 1 + 2^21 fill slots 0 and 1 of bucket 1 |
| Scenarios.BigWritesBucket2 | intcache_test.go:36-37 | the writes of keys 2 and 2 + 2^21 fill slots 0 and 1 of bucket 2 |
| Scenarios.BigWritesBucket3 | intcache_test.go:38 | the write of key 3 fills slot 0 of bucket 3 |
| Scenarios.BigReads | intcache_test.go:39-43 | the five reads of `TestSet` on the buckets the writes leave |
| Scenarios.BigSet | intcache_test.go:31-49 | `TestSet`: each of the five keys, including the colliding pairs, reads back its own value |

Some lemmas only unfold one step of an operation to split a long proof: `Recency.UpdFromStep` (one iteration of the `updLru` loop), `Scenarios.SetWritesScanned` and `Scenarios.GetReadsScanned` (one `Set` or `Get` whose scan result is known), `Scenarios.SimpleRound` (one write and read of `TestSimpleSet`) and `Scenarios.BigWrite` (one write of `TestSet`). They have no row of their own.

## Left out

- Atomic loads and stores, and all concurrency. This includes `TestParallelSet` (intcache_test.go:51-94). Every access is modelled as a plain sequential read or write. Races between goroutines can lose register updates or pick the same victim twice. Such interleavings have no sequential statement.
- The benchmarks and the comparison with the `fastcache` library (intcache_test.go:96-146). They measure speed and call a library that is not part of this model.
- IntCache.New: requires `b < 32`. Go accepts any `uint8` width, and the model leaves out three behaviours of wider ones. Widths 32 to 62 allocate `1 << b` buckets and registers; only `2^32` of those can be indexed, because the bucket index `key & (1<<b - 1)` of a `uint32` key is below `2^32`. At `b = 63` the `int` shift `1 << b` (intcache.go:16) is negative, so `make` panics (intcache.go:19). At `b >= 64` the shift gives 0, so the tables are empty and every `Get` and `Set` panics with an index out of range (intcache.go:27, intcache.go:49).
- IntCache.Set: a panic on `(0, 0)` is modelled as a `Failure(ZeroEntry)` result. The caller's cache, passed in unchanged, is the state after the call. Panic and recover mechanics are not modelled.
- `Get` and `Set` are not modelled as methods on a shared mutable object: each call takes a cache value and returns the next one.

## Findings

| source | as written | input that shows it | evidently intended | confidence | as-written member | corrected member |
|---|---|---|---|---|---|---|
| intcache.go:69-75 | `lru := lrus OR 0b1111<<uint32(i)` (a bitwise OR); `if lru == 0 { mini = i }`. The OR sets four bits, so `lru` is never 0, the loop never breaks, and `mini` stays 0: a full bucket always evicts slot 0 | a full bucket with register 0x01234567 (slot 0 at rank 7, most recent; slot 7 at rank 0): `Set` of a new key of that bucket overwrites slot 0 | evict the slot whose 4-bit rank `(lrus >> (i<<2)) & 0xf` is 0, the least recently used slot | not executed | Recency.VictimIsNotLeastRecent | IntCache.EvictingOldestEvictsOldest |

`IntCache.Set` keeps the slot-0 choice of the code; `IntCache.SetFullEvictsSlotZero` states what it does. `IntCache.SetEvictingOldest` is the same operation with the rank-0 choice. It keeps the bucket invariant (`IntCache.EvictingOldestPreservesInv`), and on a full bucket it evicts the slot of rank 0 (`IntCache.EvictingOldestEvictsOldest`, built on `Recency.LeastRecentIsOldest`).
