/**
 * Fixed-width integers, the capacities of a shard, the bit-packed 64-bit
 * words of its hash table and search index, and the geometry of linear
 * probing over the hash table.
 *
 * A 64-bit word holds two 32-bit numbers.  Shifting left by 32 bits is
 * multiplication by 2^32 and keeping the low 32 bits is the remainder modulo
 * 2^32, so the packed words are modelled as unbounded integers in the
 * range of uint64_t.
 */
module Layout {

  datatype Option<T> = None | Some(value: T)

  type byte = x: int | 0 <= x < 0x100
  type uint32 = x: int | 0 <= x < 0x1_0000_0000
  type uint64 = x: int | 0 <= x < 0x1_0000_0000_0000_0000

  /** 2^32: the weight of the high-order half of a 64-bit word. */
  const Half: int := 0x1_0000_0000

  /** Number of buckets in the hash table (HASH_TABLE_ENTRIES). */
  const HashTableEntries: nat := 262144
  /** Number of 128-bit entries in the search index. */
  const SearchIndexEntries: nat := 1048576
  /** Number of bytes in the data log. */
  const DataSegmentSize: nat := 1073741824

  /** The high-order 32-bit number of a word (w >> 32). */
  function Hi(w: uint64): uint32 {
    w / Half
  }

  /** The low-order 32-bit number of a word (w & 0xffffffff). */
  function Lo(w: uint64): uint32 {
    w % Half
  }

  /** The word whose high-order number is hi and low-order number is lo. */
  function Pack(hi: uint32, lo: uint32): (w: uint64)
    ensures Hi(w) == hi && Lo(w) == lo
  {
    hi * Half + lo
  }

  /** Every word is the packing of its two halves. */
  lemma PackHalves(w: uint64)
    ensures Pack(Hi(w), Lo(w)) == w
  {
  }

  /** Packing is injective: two words are equal exactly when both halves are. */
  lemma PackInjective(h1: uint32, l1: uint32, h2: uint32, l2: uint32)
    ensures Pack(h1, l1) == Pack(h2, l2) <==> h1 == h2 && l1 == l2
  {
    if Pack(h1, l1) == Pack(h2, l2) {
      assert h1 == Hi(Pack(h1, l1)) == Hi(Pack(h2, l2)) == h2;
    }
  }

  // ---------------------------------------------------------------------
  // Hash-table words.  The high-order number is a search-index position,
  // the low-order number the primary hash.  Position 0 is never written
  // (the search index starts at position 1), so a zero high half marks a
  // bucket that was never used; DeadPosition marks a deleted bucket.
  // ---------------------------------------------------------------------

  const EmptyPosition: uint32 := 0
  const DeadPosition: uint32 := 0xFFFF_FFFF

  predicate IsEmpty(w: uint64) {
    Hi(w) == EmptyPosition
  }

  predicate IsDead(w: uint64) {
    Hi(w) == DeadPosition
  }

  predicate IsLive(w: uint64) {
    !IsEmpty(w) && !IsDead(w)
  }

  /** The hash-table word of a live bucket. */
  function LiveWord(position: uint32, primaryHash: uint32): (w: uint64)
    requires position != EmptyPosition && position != DeadPosition
    ensures IsLive(w) && Hi(w) == position && Lo(w) == primaryHash
  {
    Pack(position, primaryHash)
  }

  /** The hash-table word a deletion leaves behind: dead, hash kept. */
  function DeadWord(primaryHash: uint32): (w: uint64)
    ensures IsDead(w) && !IsLive(w) && !IsEmpty(w) && Lo(w) == primaryHash
  {
    Pack(DeadPosition, primaryHash)
  }

  /** A table in which no bucket is empty or dead. */
  predicate TableFull(t: seq<uint64>) {
    forall b | 0 <= b < |t| :: IsLive(t[b])
  }

  /** A table without dead buckets. */
  predicate NoDead(t: seq<uint64>) {
    forall b | 0 <= b < |t| :: !IsDead(t[b])
  }

  // ---------------------------------------------------------------------
  // Linear probing: the probe for a hash starts at its home bucket and
  // visits Slot(home, 0), Slot(home, 1), ... wrapping around the table.
  // ---------------------------------------------------------------------

  /** The first bucket probed for a primary hash. */
  function Home(primaryHash: uint32): (b: nat)
    ensures b < HashTableEntries
  {
    primaryHash % HashTableEntries
  }

  /** The bucket visited j steps after home ((home + j) % HASH_TABLE_ENTRIES). */
  function Slot(home: nat, j: nat): (b: nat)
    requires home < HashTableEntries && j < HashTableEntries
    ensures b < HashTableEntries
    ensures b == (home + j) % HashTableEntries
  {
    if home + j < HashTableEntries then home + j else home + j - HashTableEntries
  }

  /** The number of probe steps from home to bucket b. */
  function Dist(home: nat, b: nat): (d: nat)
    requires home < HashTableEntries && b < HashTableEntries
    ensures d < HashTableEntries && Slot(home, d) == b
  {
    if home <= b then b - home else b + HashTableEntries - home
  }

  /** Distinct steps of one probe visit distinct buckets. */
  lemma DistOfSlot(home: nat, j: nat)
    requires home < HashTableEntries && j < HashTableEntries
    ensures Dist(home, Slot(home, j)) == j
  {
  }

  /** Every bucket on the first d steps of the probe from home is non-empty. */
  predicate PathOccupied(t: seq<uint64>, home: nat, d: nat)
    requires |t| == HashTableEntries && home < HashTableEntries && d <= HashTableEntries
  {
    forall j | 0 <= j < d :: !IsEmpty(t[Slot(home, j)])
  }

  /** Every bucket on the first d steps of the probe from home is live. */
  predicate PathLive(t: seq<uint64>, home: nat, d: nat)
    requires |t| == HashTableEntries && home < HashTableEntries && d <= HashTableEntries
  {
    forall j | 0 <= j < d :: IsLive(t[Slot(home, j)])
  }

  /**
   * The open-addressing invariant: every live bucket is reached from the
   * home bucket of its own hash without crossing an empty bucket.
   */
  predicate Reachable(t: seq<uint64>)
    requires |t| == HashTableEntries
  {
    forall b | 0 <= b < HashTableEntries && IsLive(t[b]) ::
      PathOccupied(t, Home(Lo(t[b])), Dist(Home(Lo(t[b])), b))
  }
}
