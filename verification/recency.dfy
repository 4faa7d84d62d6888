/**
 * The recency register of one bucket: a 32-bit word split into eight 4-bit
 * nibbles, nibble `j` holding the rank of slot `j` (7 = most recently
 * touched, 0 = least). `UpdLru` is the bit-level loop of `updLru` in
 * intcache.go; `Ranks` reads a register as eight integer ranks, and the
 * rank-level facts are stated on that reading.
 */
module Recency {
  import opened Words

  /** A slot index as a machine word, the operand of Go's shifts. */
  type SlotBits = i: bv32 | i < 8

  const SlotWords: seq<SlotBits> := [0, 1, 2, 3, 4, 5, 6, 7]

  function SlotWord(i: Slot): SlotBits
  {
    SlotWords[i]
  }

  /** The rank nibble at slot word `j`: `lrus >> (j<<2) & 0xf`. */
  function NibbleAt(r: bv32, j: SlotBits): bv32
  {
    (r >> (j << 2)) & 0xF
  }

  /** `lrus&^(0b1111<<(j<<2)) | x<<(j<<2)`. */
  function WithNibbleAt(r: bv32, j: SlotBits, x: bv32): bv32
  {
    (r & !(0xF << (j << 2))) | (x << (j << 2))
  }

  lemma NibbleAtOfWith(r: bv32, j: SlotBits, x: bv32, k: SlotBits)
    requires x <= 15
    ensures NibbleAt(WithNibbleAt(r, j, x), k) == if k == j then x else NibbleAt(r, k)
  {
  }

  lemma SlotWordInjective(j: Slot, k: Slot)
    ensures SlotWord(j) == SlotWord(k) <==> j == k
  {
  }

  function Nibble(r: bv32, j: Slot): bv32
  {
    NibbleAt(r, SlotWord(j))
  }

  function WithNibble(r: bv32, j: Slot, x: bv32): bv32
  {
    WithNibbleAt(r, SlotWord(j), x)
  }

  lemma NibbleAtBound(r: bv32, j: SlotBits)
    ensures NibbleAt(r, j) <= 15
  {
  }

  lemma NibbleBound(r: bv32, j: Slot)
    ensures Nibble(r, j) <= 15
  {
    NibbleAtBound(r, SlotWord(j));
  }

  /** Writing one nibble sets that nibble and leaves every other one alone. */
  lemma NibbleOfWithNibble(r: bv32, j: Slot, x: bv32, k: Slot)
    requires x <= 15
    ensures Nibble(WithNibble(r, j, x), k) == if k == j then x else Nibble(r, k)
  {
    NibbleAtOfWith(r, SlotWord(j), x, SlotWord(k));
    SlotWordInjective(j, k);
  }

  /**
   * The nibble a slot holds after slot `ei` is touched, given its nibble `n`
   * before and the touched slot's nibble `oldLru` before: the touched slot
   * goes to 7, and every nibble above the vacated one moves down one.
   */
  function NibbleAfterTouch(n: bv32, touched: bool, oldLru: bv32): bv32
  {
    if touched then 7
    else if n > oldLru then n - 1
    else n
  }

  /** The `for i := 0; i < soltNum; i++` loop of `updLru`, from slot `i` on. */
  function UpdFrom(lrus: bv32, ei: Slot, oldLru: bv32, i: int): bv32
    requires 0 <= i <= 8
    decreases 8 - i
  {
    if i == 8 then lrus
    else if ei == i then
      UpdFrom(WithNibble(lrus, i, 7), ei, oldLru, i + 1)
    else
      var lru := Nibble(lrus, i);
      if lru > oldLru then UpdFrom(WithNibble(lrus, i, lru - 1), ei, oldLru, i + 1)
      else UpdFrom(lrus, ei, oldLru, i + 1)
  }

  /** `lrus & (0b1111 << ebiti) >> ebiti`: the nibble of slot `ei` before the touch. */
  function OldLru(lrus: bv32, ei: Slot): (o: bv32)
    ensures o == Nibble(lrus, ei)
  {
    OldLruAt(lrus, SlotWord(ei));
    var ebiti := SlotWord(ei) << 2;
    (lrus & (0xF << ebiti)) >> ebiti
  }

  lemma OldLruAt(lrus: bv32, e: SlotBits)
    ensures (lrus & (0xF << (e << 2))) >> (e << 2) == NibbleAt(lrus, e)
  {
  }

  /** One pass of the loop body: slot `i` of `lrus` rewritten by the touch rule. */
  lemma UpdFromStep(lrus: bv32, ei: Slot, oldLru: bv32, i: Slot, next: bv32)
    requires next == if ei == i then WithNibble(lrus, i, 7)
                     else if Nibble(lrus, i) > oldLru then WithNibble(lrus, i, Nibble(lrus, i) - 1)
                     else lrus
    ensures UpdFrom(lrus, ei, oldLru, i) == UpdFrom(next, ei, oldLru, i + 1)
  {
  }

  /** `updLru` on the register value of one bucket, touching slot `ei`. */
  function UpdLru(lrus: bv32, ei: Slot): bv32
  {
    UpdFrom(lrus, ei, OldLru(lrus, ei), 0)
  }

  /** The loop leaves the nibbles it has not reached alone and rewrites each one it passes. */
  lemma {:induction false} UpdFromNibble(lrus: bv32, ei: Slot, oldLru: bv32, i: int, k: Slot)
    requires 0 <= i <= 8
    ensures Nibble(UpdFrom(lrus, ei, oldLru, i), k) ==
            if k < i then Nibble(lrus, k)
            else NibbleAfterTouch(Nibble(lrus, k), k == ei, oldLru)
    decreases 8 - i
  {
    if i < 8 {
      var next: bv32;
      if ei == i {
        next := WithNibble(lrus, i, 7);
        NibbleOfWithNibble(lrus, i, 7, k);
      } else if Nibble(lrus, i) > oldLru {
        next := WithNibble(lrus, i, Nibble(lrus, i) - 1);
        NibbleBound(lrus, i);
        NibbleOfWithNibble(lrus, i, Nibble(lrus, i) - 1, k);
      } else {
        next := lrus;
      }
      assert UpdFrom(lrus, ei, oldLru, i) == UpdFrom(next, ei, oldLru, i + 1);
      UpdFromNibble(next, ei, oldLru, i + 1, k);
    }
  }

  /** The rank of slot `j`: its nibble as an integer. */
  function Rank(r: bv32, j: Slot): (n: int)
    ensures 0 <= n <= 15
  {
    NibbleBound(r, j);
    Nibble(r, j) as int
  }

  /** The rank of each slot, after a touch, as an integer. */
  function RankAfterTouch(n: int, touched: bool, oldRank: int): int
  {
    if touched then 7
    else if n > oldRank then n - 1
    else n
  }

  lemma NibbleAfterTouchRank(n: bv32, touched: bool, o: bv32)
    requires n <= 15 && o <= 15
    ensures NibbleAfterTouch(n, touched, o) as int == RankAfterTouch(n as int, touched, o as int)
  {
  }

  /** The eight ranks of a register, slot by slot. */
  function Ranks(r: bv32): (s: seq<int>)
    ensures |s| == 8
    ensures forall j: Slot :: s[j] == Rank(r, j)
  {
    seq(8, j requires 0 <= j < 8 => Rank(r, j))
  }

  /**
   * Rank-level reference for a touch: `s'` are the ranks `s` after slot
   * `ei` was touched.
   */
  ghost predicate IsTouch(s: seq<int>, ei: Slot, s': seq<int>)
    requires |s| == 8 && |s'| == 8
  {
    forall k: Slot :: s'[k] == RankAfterTouch(s[k], k == ei, s[ei])
  }

  /** `updLru` rewrites every nibble of the register by the touch rule. */
  lemma UpdLruNibble(lrus: bv32, ei: Slot, k: Slot)
    ensures Nibble(UpdLru(lrus, ei), k) == NibbleAfterTouch(Nibble(lrus, k), k == ei, Nibble(lrus, ei))
  {
    UpdFromNibble(lrus, ei, Nibble(lrus, ei), 0, k);
  }

  /** The touch rule on nibbles is the touch rule on their integer ranks. */
  lemma NibbleTouchRank(r: bv32, ei: Slot, r': bv32, k: Slot)
    requires Nibble(r', k) == NibbleAfterTouch(Nibble(r, k), k == ei, Nibble(r, ei))
    ensures Rank(r', k) == RankAfterTouch(Rank(r, k), k == ei, Rank(r, ei))
  {
    NibbleBound(r, k);
    NibbleBound(r, ei);
    NibbleAfterTouchRank(Nibble(r, k), k == ei, Nibble(r, ei));
  }

  /** The bit-level loop of `updLru` performs exactly the rank-level touch. */
  lemma UpdLruTouch(lrus: bv32, ei: Slot)
    ensures IsTouch(Ranks(lrus), ei, Ranks(UpdLru(lrus, ei)))
  {
    forall k: Slot
      ensures Rank(UpdLru(lrus, ei), k) == RankAfterTouch(Rank(lrus, k), k == ei, Rank(lrus, ei))
    {
      UpdLruNibble(lrus, ei, k);
      NibbleTouchRank(lrus, ei, UpdLru(lrus, ei), k);
    }
  }

  /** Ranks other than the vacated one keep their order and end below the top. */
  lemma RankAfterTouchOrder(a: int, b: int, oldRank: int)
    requires 0 <= a <= 7 && 0 <= b <= 7 && 0 <= oldRank <= 7 && a != oldRank && b != oldRank
    ensures 0 <= RankAfterTouch(a, false, oldRank) <= 6
    ensures a < b <==> RankAfterTouch(a, false, oldRank) < RankAfterTouch(b, false, oldRank)
  {
  }

  /** Every slot holds a rank in 0..7 and no two slots share a rank. */
  ghost predicate IsPermutation(s: seq<int>)
    requires |s| == 8
  {
    && (forall j: Slot :: 0 <= s[j] <= 7)
    && (forall j: Slot, k: Slot :: j != k ==> s[j] != s[k])
  }

  /**
   * The ranks after the slots in `touched` have been touched, starting from
   * all zeroes: the touched slots hold distinct ranks among the top
   * `|touched|` ranks 8-|touched| .. 7, and every untouched slot holds 0.
   */
  ghost predicate TouchedRanks(s: seq<int>, touched: set<Slot>)
    requires |s| == 8
  {
    && |touched| <= 8
    && (forall j: Slot :: j in touched ==> 8 - |touched| <= s[j] <= 7)
    && (forall j: Slot :: j !in touched ==> s[j] == 0)
    && (forall j: Slot, k: Slot :: j in touched && k in touched && j != k ==> s[j] != s[k])
  }

  /** Once every slot has been touched, the ranks are a permutation of 0..7, and conversely. */
  lemma AllTouchedIsPermutation(s: seq<int>)
    requires |s| == 8
    ensures TouchedRanks(s, AllSlots) <==> IsPermutation(s)
  {
    assert |AllSlots| == 8;
    assert forall j: Slot :: j in AllSlots;
  }

  /** The zero register of a fresh cache is the state in which nothing has been touched. */
  lemma ZeroRegisterUntouched()
    ensures TouchedRanks(Ranks(0), {})
  {
    forall j: Slot
      ensures Rank(0, j) == 0
    {
      assert NibbleAt(0, SlotWord(j)) == 0;
    }
  }

  /** Touching a slot adds it to the touched set and keeps the ranks invariant. */
  lemma TouchExtends(s: seq<int>, touched: set<Slot>, ei: Slot, s': seq<int>)
    requires |s| == 8 && |s'| == 8
    requires TouchedRanks(s, touched)
    requires IsTouch(s, ei, s')
    ensures TouchedRanks(s', touched + {ei})
  {
    SlotSetSize(touched, ei);
    SlotSetSize(touched + {ei}, ei);
    if ei !in touched {
      assert |touched + {ei}| == |touched| + 1;
    } else {
      assert touched + {ei} == touched;
    }
  }

  /** Touching a slot of a permutation gives a permutation with that slot alone on top. */
  lemma TouchKeepsPermutation(s: seq<int>, ei: Slot, s': seq<int>)
    requires |s| == 8 && |s'| == 8
    requires IsPermutation(s)
    requires IsTouch(s, ei, s')
    ensures IsPermutation(s')
    ensures s'[ei] == 7
    ensures forall j: Slot :: j != ei ==> s'[j] < 7
  {
    AllTouchedIsPermutation(s);
    TouchExtends(s, AllSlots, ei, s');
    assert AllSlots + {ei} == AllSlots;
    AllTouchedIsPermutation(s');
  }

  /**
   * Touching `ei` keeps the relative order of any two other slots whose
   * ranks differ from the old rank of `ei`, as they all do in a permutation.
   */
  lemma TouchKeepsOrder(s: seq<int>, ei: Slot, s': seq<int>, j: Slot, k: Slot)
    requires |s| == 8 && |s'| == 8
    requires IsTouch(s, ei, s')
    requires j != ei && k != ei
    requires 0 <= s[j] <= 7 && 0 <= s[k] <= 7 && 0 <= s[ei] <= 7
    requires s[j] != s[ei] && s[k] != s[ei]
    ensures s[j] < s[k] <==> s'[j] < s'[k]
  {
    RankAfterTouchOrder(s[j], s[k], s[ei]);
  }

  /** `updLru` keeps the touched-ranks invariant of a register, adding the touched slot. */
  lemma UpdLruExtends(r: bv32, touched: set<Slot>, ei: Slot)
    requires TouchedRanks(Ranks(r), touched)
    ensures TouchedRanks(Ranks(UpdLru(r, ei)), touched + {ei})
  {
    UpdLruTouch(r, ei);
    TouchExtends(Ranks(r), touched, ei, Ranks(UpdLru(r, ei)));
  }

  /** `updLru` keeps a permutation register a permutation and puts the touched slot alone on top. */
  lemma UpdLruKeepsPermutation(r: bv32, ei: Slot)
    requires IsPermutation(Ranks(r))
    ensures IsPermutation(Ranks(UpdLru(r, ei)))
    ensures Rank(UpdLru(r, ei), ei) == 7
    ensures forall j: Slot :: j != ei ==> Rank(UpdLru(r, ei), j) < 7
  {
    UpdLruTouch(r, ei);
    TouchKeepsPermutation(Ranks(r), ei, Ranks(UpdLru(r, ei)));
  }

  /** `updLru` keeps the relative order of the untouched slots of a permutation. */
  lemma UpdLruKeepsOrder(r: bv32, ei: Slot, j: Slot, k: Slot)
    requires IsPermutation(Ranks(r))
    requires j != ei && k != ei
    ensures Rank(r, j) < Rank(r, k) <==> Rank(UpdLru(r, ei), j) < Rank(UpdLru(r, ei), k)
  {
    UpdLruTouch(r, ei);
    TouchKeepsOrder(Ranks(r), ei, Ranks(UpdLru(r, ei)), j, k);
  }

  /**
   * On a permutation register, `updLru` puts the touched slot alone on top
   * and keeps the order of every two other slots.
   */
  lemma UpdLruOnPermutation(r: bv32, ei: Slot)
    requires IsPermutation(Ranks(r))
    ensures Rank(UpdLru(r, ei), ei) == 7
    ensures forall j: Slot, k: Slot :: j != ei && k != ei ==>
              (Rank(r, j) < Rank(r, k) <==> Rank(UpdLru(r, ei), j) < Rank(UpdLru(r, ei), k))
  {
    UpdLruKeepsPermutation(r, ei);
    forall j: Slot, k: Slot | j != ei && k != ei
      ensures Rank(r, j) < Rank(r, k) <==> Rank(UpdLru(r, ei), j) < Rank(UpdLru(r, ei), k)
    {
      UpdLruKeepsOrder(r, ei, j, k);
    }
  }

  /** The touches of a history applied in order to a register. */
  function Replay(r: bv32, touches: seq<Slot>): bv32
    decreases |touches|
  {
    if |touches| == 0 then r else Replay(UpdLru(r, touches[0]), touches[1..])
  }

  /** The slots a history touches. */
  function SlotsOf(touches: seq<Slot>): (t: set<Slot>)
    ensures forall j: Slot :: j in t <==> j in touches
    decreases |touches|
  {
    if |touches| == 0 then {} else {touches[0]} + SlotsOf(touches[1..])
  }

  /** The rank-level touch of slot `ei`. */
  function TouchRanks(s: seq<int>, ei: Slot): (s': seq<int>)
    requires |s| == 8
    ensures |s'| == 8 && IsTouch(s, ei, s')
  {
    seq(8, k requires 0 <= k < 8 => RankAfterTouch(s[k], k == ei, s[ei]))
  }

  /** The rank-level touches of a history applied in order. */
  function ReplayRanks(s: seq<int>, touches: seq<Slot>): (s': seq<int>)
    requires |s| == 8
    ensures |s'| == 8
    decreases |touches|
  {
    if |touches| == 0 then s else ReplayRanks(TouchRanks(s, touches[0]), touches[1..])
  }

  /** The ranks of a replayed register are the replayed ranks. */
  lemma {:induction false} RanksOfReplay(r: bv32, touches: seq<Slot>)
    ensures Ranks(Replay(r, touches)) == ReplayRanks(Ranks(r), touches)
    decreases |touches|
  {
    if |touches| > 0 {
      var r' := UpdLru(r, touches[0]);
      UpdLruTouch(r, touches[0]);
      assert Ranks(r') == TouchRanks(Ranks(r), touches[0]);
      RanksOfReplay(r', touches[1..]);
    }
  }

  /** A history that touches every slot touches the set of all slots. */
  lemma CoveringHistory(touches: seq<Slot>)
    requires forall j: Slot :: j in touches
    ensures SlotsOf(touches) == AllSlots
  {
    assert forall j: Slot :: j in AllSlots;
  }

  /** A history of touches grows the touched set by its slots and keeps the ranks invariant. */
  lemma {:induction false} ReplayExtends(s: seq<int>, touched: set<Slot>, touches: seq<Slot>)
    requires |s| == 8
    requires TouchedRanks(s, touched)
    ensures TouchedRanks(ReplayRanks(s, touches), touched + SlotsOf(touches))
    decreases |touches|
  {
    if |touches| == 0 {
      assert touched + SlotsOf(touches) == touched;
    } else {
      var s' := TouchRanks(s, touches[0]);
      TouchExtends(s, touched, touches[0], s');
      ReplayExtends(s', touched + {touches[0]}, touches[1..]);
      assert touched + {touches[0]} + SlotsOf(touches[1..]) == touched + SlotsOf(touches);
    }
  }

  /** From all-zero ranks, a history leaves its slots on top and, once all are touched, a permutation. */
  lemma ReplayRanksFromZero(zero: seq<int>, touches: seq<Slot>)
    requires |zero| == 8 && TouchedRanks(zero, {})
    ensures TouchedRanks(ReplayRanks(zero, touches), SlotsOf(touches))
    ensures (forall j: Slot :: j in touches) ==> IsPermutation(ReplayRanks(zero, touches))
  {
    ReplayExtends(zero, {}, touches);
    assert {} + SlotsOf(touches) == SlotsOf(touches);
    if forall j: Slot :: j in touches {
      CoveringHistory(touches);
      AllTouchedIsPermutation(ReplayRanks(zero, touches));
    }
  }

  /**
   * From the zero register, any history leaves the touched slots on the top
   * ranks and the rest at 0; once every slot has been touched the register
   * is a permutation of 0..7.
   */
  lemma ReplayFromZero(touches: seq<Slot>)
    ensures TouchedRanks(Ranks(Replay(0, touches)), SlotsOf(touches))
    ensures (forall j: Slot :: j in touches) ==> IsPermutation(Ranks(Replay(0, touches)))
  {
    ZeroRegisterUntouched();
    RanksOfReplay(0, touches);
    ReplayRanksFromZero(Ranks(0), touches);
  }

  /*
   * Choosing a victim when a bucket is full.
   */

  /**
   * The `find the min lru` loop of `Set` as written, from slot `i` on: it
   * stops at the first `i` with `lrus | 0b1111<<i == 0`, and otherwise
   * leaves `mini` at its zero value.
   */
  function VictimFrom(lrus: bv32, i: int): Slot
    requires 0 <= i <= 8
    decreases 8 - i
  {
    if i == 8 then 0
    else if lrus | (0xF << SlotWord(i)) == 0 then i
    else VictimFrom(lrus, i + 1)
  }

  /** The victim slot `Set` overwrites in a full bucket with register `lrus`. */
  function Victim(lrus: bv32): Slot
  {
    VictimFrom(lrus, 0)
  }

  /** Or-ing in four set bits never gives zero. */
  lemma OrNibbleMaskNonZero(lrus: bv32, e: SlotBits)
    ensures lrus | (0xF << e) != 0
  {
  }

  lemma {:induction false} VictimFromIsZero(lrus: bv32, i: int)
    requires 0 <= i <= 8
    ensures VictimFrom(lrus, i) == 0
    decreases 8 - i
  {
    if i < 8 {
      OrNibbleMaskNonZero(lrus, SlotWord(i));
      VictimFromIsZero(lrus, i + 1);
    }
  }

  /** Whatever the register holds, the victim of a full bucket is slot 0. */
  lemma VictimIsSlotZero(lrus: bv32)
    ensures Victim(lrus) == 0
  {
    VictimFromIsZero(lrus, 0);
  }

  /**
   * A full-bucket register on which the victim is the most recently touched
   * slot: slot 0 has rank 7 and slot 7 rank 0, yet slot 0 is evicted.
   */
  lemma VictimIsNotLeastRecent()
    ensures IsPermutation(Ranks(0x0123_4567))
    ensures Rank(0x0123_4567, 0) == 7 && Rank(0x0123_4567, 7) == 0
    ensures Victim(0x0123_4567) == 0
  {
    VictimIsSlotZero(0x0123_4567);
    DescendingRanks();
    DescendingIsPermutation([7, 6, 5, 4, 3, 2, 1, 0]);
  }

  lemma DescendingIsPermutation(s: seq<int>)
    requires s == [7, 6, 5, 4, 3, 2, 1, 0]
    ensures IsPermutation(s)
  {
    assert forall j: Slot :: s[j] == 7 - j;
  }

  lemma DescendingRanks()
    ensures Ranks(0x0123_4567) == [7, 6, 5, 4, 3, 2, 1, 0]
  {
    assert Rank(0x0123_4567, 0) == 7;
  }

  /**
   * The evident intent of the loop: the first slot, from slot `i` on, whose
   * rank nibble is 0 (slot 0 if there is none).
   */
  function LeastRecentFrom(s: seq<int>, i: int): Slot
    requires |s| == 8 && 0 <= i <= 8
    decreases 8 - i
  {
    if i == 8 then 0
    else if s[i] == 0 then i
    else LeastRecentFrom(s, i + 1)
  }

  /** The least recently touched slot of a full bucket with register `lrus`. */
  function LeastRecent(lrus: bv32): Slot
  {
    LeastRecentFrom(Ranks(lrus), 0)
  }

  lemma {:induction false} LeastRecentFromFinds(s: seq<int>, i: int, z: Slot)
    requires |s| == 8 && 0 <= i <= z
    requires s[z] == 0
    ensures i <= LeastRecentFrom(s, i) <= z
    ensures s[LeastRecentFrom(s, i)] == 0
    ensures forall j: Slot :: i <= j < LeastRecentFrom(s, i) ==> s[j] != 0
    decreases 8 - i
  {
    if s[i] != 0 {
      LeastRecentFromFinds(s, i + 1, z);
    }
  }

  /** The number of distinct values among the first `n` entries. */
  lemma {:induction false} DistinctImageSize(s: seq<int>, n: nat)
    requires n <= |s| == 8
    requires forall j: Slot, k: Slot :: j != k ==> s[j] != s[k]
    ensures |set j | 0 <= j < n :: s[j]| == n
  {
    if n > 0 {
      DistinctImageSize(s, n - 1);
      assert (set j | 0 <= j < n :: s[j]) == (set j | 0 <= j < n - 1 :: s[j]) + {s[n - 1]};
    }
  }

  /** Eight distinct ranks in 0..7 include rank 0. */
  lemma PermutationHasZero(s: seq<int>) returns (z: Slot)
    requires |s| == 8 && IsPermutation(s)
    ensures s[z] == 0
  {
    if forall j: Slot :: s[j] != 0 {
      DistinctImageSize(s, 8);
      var image := set j | 0 <= j < 8 :: s[j];
      var above: set<int> := {1, 2, 3, 4, 5, 6, 7};
      assert |above| == 7;
      SubsetSize(image, above);
      assert false;
    }
    z :| s[z] == 0;
  }

  /**
   * On a permutation register the corrected loop finds the slot of rank 0:
   * the least recently touched slot, strictly below every other slot.
   */
  lemma LeastRecentIsOldest(lrus: bv32)
    requires IsPermutation(Ranks(lrus))
    ensures Rank(lrus, LeastRecent(lrus)) == 0
    ensures forall j: Slot :: j != LeastRecent(lrus) ==> Rank(lrus, LeastRecent(lrus)) < Rank(lrus, j)
  {
    var z := PermutationHasZero(Ranks(lrus));
    LeastRecentFromFinds(Ranks(lrus), 0, z);
  }
}
