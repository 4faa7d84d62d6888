/**
 * The slot codec: one 64-bit word holds a key in its high half and a value
 * in its low half, and the all-zero word marks an empty slot
 * (intcache.go lines 28, 32-33, 51 and 57).
 */
module SlotCodec {

  /** The word an empty slot holds. */
  const Empty: bv64 := 0

  /** `uint64(key)<<32 | uint64(value)` */
  function Pack(key: bv32, value: bv32): (w: bv64)
    ensures KeyOf(w) == key && ValueOf(w) == value
    ensures w == Empty <==> key == 0 && value == 0
  {
    ((key as bv64) << 32) | (value as bv64)
  }

  /** `uint32(e>>32)`: the key half of a slot word. */
  function KeyOf(w: bv64): (k: bv32)
    ensures (k as bv64) << 32 == w & 0xFFFF_FFFF_0000_0000
  {
    (w >> 32) as bv32
  }

  /** `uint32(e)`: Go's conversion keeps the low 32 bits. */
  function ValueOf(w: bv64): (v: bv32)
    ensures v as bv64 == w & 0xFFFF_FFFF
  {
    (w & 0xFFFF_FFFF) as bv32
  }

  /** Every word is the packing of its own halves, so the codec is a bijection. */
  lemma UnpackPack(w: bv64)
    ensures Pack(KeyOf(w), ValueOf(w)) == w
  {
  }

  /** Two pairs share a word only if they are the same pair. */
  lemma PackInjective(k1: bv32, v1: bv32, k2: bv32, v2: bv32)
    requires Pack(k1, v1) == Pack(k2, v2)
    ensures k1 == k2 && v1 == v2
  {
  }
}
