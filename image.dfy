/**
 * A shard's three regions and two write cursors taken as values, the
 * fields of its search-index entries, what the shard holds (one optional
 * item per search-index position, and the map they make up), and the
 * invariant that put, del and copy_to keep.
 */
module ShardImage {
  import opened Layout
  import opened DataLog
  import opened KeyMap

  /**
   * The hash table, the search index (two words per entry), the data log,
   * and the cursors m_data_offset and m_search_offset.
   */
  datatype Image = Image(table: seq<uint64>, search: seq<uint64>, data: seq<byte>,
                         dataOffset: nat, searchOffset: nat)

  // ---------------------------------------------------------------------
  // Search-index entries.  Entry p is the words search[2p] and search[2p+1].
  // ---------------------------------------------------------------------

  /** The primary hash: low half of the first word. */
  function EntryPrimary(search: seq<uint64>, p: nat): uint32
    requires 2 * p + 1 < |search|
  {
    Lo(search[2 * p])
  }

  /** The secondary hash: high half of the first word. */
  function EntrySecondary(search: seq<uint64>, p: nat): uint32
    requires 2 * p + 1 < |search|
  {
    Hi(search[2 * p])
  }

  /** Where the entry's record starts in the data log: low half of the second word. */
  function EntryDataOffset(search: seq<uint64>, p: nat): uint32
    requires 2 * p + 1 < |search|
  {
    Lo(search[2 * p + 1])
  }

  /** The offset at which the entry was invalidated, 0 while it is current: high half of the second word. */
  function EntryInvalidation(search: seq<uint64>, p: nat): uint32
    requires 2 * p + 1 < |search|
  {
    Hi(search[2 * p + 1])
  }

  /** Writing an entry's two words and reading its four fields gives back what was written. */
  lemma EntryLayout(search: seq<uint64>, p: nat, primary: uint32, secondary: uint32, offset: uint32, invalidation: uint32)
    requires 2 * p + 1 < |search|
    ensures var s := search[2 * p := Pack(secondary, primary)][2 * p + 1 := Pack(invalidation, offset)];
      && EntryPrimary(s, p) == primary && EntrySecondary(s, p) == secondary
      && EntryDataOffset(s, p) == offset && EntryInvalidation(s, p) == invalidation
  {
  }

  /** An entry's two words are the packings of its four fields. */
  lemma EntryWords(search: seq<uint64>, p: nat)
    requires 2 * p + 1 < |search|
    ensures search[2 * p] == Pack(EntrySecondary(search, p), EntryPrimary(search, p))
    ensures search[2 * p + 1] == Pack(EntryInvalidation(search, p), EntryDataOffset(search, p))
  {
    PackHalves(search[2 * p]);
    PackHalves(search[2 * p + 1]);
  }

  /** Regions of the fixed capacities, cursors inside them (position 0 and byte 0 are reserved). */
  predicate WellSized(img: Image) {
    && |img.table| == HashTableEntries
    && |img.search| == 2 * SearchIndexEntries
    && |img.data| == DataSegmentSize
    && 1 <= img.searchOffset <= SearchIndexEntries
    && 1 <= img.dataOffset <= DataSegmentSize
  }

  /** The record stored at offset, if a whole record is there. */
  function RecordAt(data: seq<byte>, offset: nat): Option<Record> {
    if offset <= |data| then DecodeRecord(data[offset..]) else None
  }

  /** Where the record of entry p ends. */
  function RecordEnd(img: Image, p: nat): nat
    requires 2 * p + 1 < |img.search|
  {
    var offset := EntryDataOffset(img.search, p);
    match RecordAt(img.data, offset)
    case None => offset
    case Some(r) => offset + DataSize(r.key, r.value)
  }

  /** The item at search-index position p, if p was written and not invalidated. */
  function ItemAt(img: Image, p: nat): Option<Item> {
    if 1 <= p < img.searchOffset && 2 * p + 1 < |img.search| && EntryInvalidation(img.search, p) == 0 then
      match RecordAt(img.data, EntryDataOffset(img.search, p))
      case None => None
      case Some(r) => Some(Item(EntryPrimary(img.search, p), EntrySecondary(img.search, p), r.key, r.version, r.value))
    else None
  }

  /** One optional item per written search-index position. */
  function View(img: Image): seq<Option<Item>> {
    seq(img.searchOffset, p requires 0 <= p < img.searchOffset => ItemAt(img, p))
  }

  /** An invalidated position holds nothing. */
  lemma InvalidatedHoldsNothing(img: Image, p: nat)
    requires p < img.searchOffset && 2 * p + 1 < |img.search| && EntryInvalidation(img.search, p) != 0
    ensures ItemAt(img, p) == None && View(img)[p] == None
  {
  }

  /** The key-value map the shard holds. */
  function Contents(img: Image): map<Key, Item> {
    ToMap(View(img))
  }

  // ---------------------------------------------------------------------
  // The invariant
  // ---------------------------------------------------------------------

  /**
   * Every written entry points at a whole record; the records lie in
   * search-index order between byte 1 and the data cursor and do not overlap.
   */
  predicate RecordsLaidOut(img: Image)
    requires WellSized(img)
  {
    && (forall p | 1 <= p < img.searchOffset ::
          1 <= EntryDataOffset(img.search, p)
          && RecordAt(img.data, EntryDataOffset(img.search, p)).Some?
          && RecordEnd(img, p) <= img.dataOffset)
    && (forall p, q | 1 <= p < q < img.searchOffset ::
          RecordEnd(img, p) <= EntryDataOffset(img.search, q))
  }

  /** A live bucket names a written, current entry with the bucket's hash. */
  predicate SlotsPointToCurrent(img: Image)
    requires WellSized(img)
  {
    forall b | 0 <= b < HashTableEntries && IsLive(img.table[b]) ::
      && 1 <= Hi(img.table[b]) < img.searchOffset
      && EntryInvalidation(img.search, Hi(img.table[b])) == 0
      && EntryPrimary(img.search, Hi(img.table[b])) == Lo(img.table[b])
  }

  /** No two live buckets name the same entry. */
  predicate SlotsInjective(img: Image)
    requires WellSized(img)
  {
    forall b1, b2 | 0 <= b1 < HashTableEntries && 0 <= b2 < HashTableEntries && b1 != b2
                    && IsLive(img.table[b1]) && IsLive(img.table[b2]) ::
      Hi(img.table[b1]) != Hi(img.table[b2])
  }

  /** Some live bucket names each current entry. */
  predicate CurrentCovered(img: Image)
    requires WellSized(img)
  {
    forall p | 1 <= p < img.searchOffset && EntryInvalidation(img.search, p) == 0 ::
      exists b :: 0 <= b < HashTableEntries && IsLive(img.table[b]) && Hi(img.table[b]) == p
  }

  predicate Inv(img: Image) {
    && WellSized(img)
    && RecordsLaidOut(img)
    && SlotsPointToCurrent(img)
    && SlotsInjective(img)
    && CurrentCovered(img)
    && Reachable(img.table)
    && UniqueKeys(View(img))
    && CountWhere(View(img), IsSome) == CountWhere(img.table, IsLive)
  }

  // ---------------------------------------------------------------------
  // Consequences of the invariant
  // ---------------------------------------------------------------------

  /** Bucket b is live and holds the key k. */
  predicate SlotHolds(img: Image, b: nat, k: Key)
    requires WellSized(img) && b < HashTableEntries
  {
    && IsLive(img.table[b])
    && Lo(img.table[b]) == k.0
    && ItemAt(img, Hi(img.table[b])).Some?
    && ItemAt(img, Hi(img.table[b])).value.key == k.1
  }

  /** A live bucket names a current entry whose item is in the map under the bucket's hash. */
  lemma LiveSlotItem(img: Image, b: nat)
    requires Inv(img) && b < HashTableEntries && IsLive(img.table[b])
    ensures var p := Hi(img.table[b]);
      && ItemAt(img, p).Some?
      && ItemAt(img, p).value.primaryHash == Lo(img.table[b])
      && View(img)[p] == ItemAt(img, p)
  {
  }

  /** A key held by a live bucket is in the map, with the item of the bucket's entry. */
  lemma SlotHoldsContents(img: Image, b: nat, k: Key)
    requires Inv(img) && b < HashTableEntries && SlotHolds(img, b, k)
    ensures k in Contents(img)
    ensures Contents(img)[k] == ItemAt(img, Hi(img.table[b])).value
  {
    var p := Hi(img.table[b]);
    LiveSlotItem(img, b);
    ToMapAt(View(img), p);
  }

  /** A key in the map is held by some live bucket. */
  lemma ContentsHeldBySlot(img: Image, k: Key) returns (b: nat)
    requires Inv(img) && k in Contents(img)
    ensures b < HashTableEntries && SlotHolds(img, b, k)
  {
    ToMapDomain(View(img), k);
    var p :| HoldsKey(View(img), p, k);
    assert ItemAt(img, p).Some?;
    b :| 0 <= b < HashTableEntries && IsLive(img.table[b]) && Hi(img.table[b]) == p;
  }

  /** Two live buckets holding the same key are the same bucket. */
  lemma SlotHoldsUnique(img: Image, b1: nat, b2: nat, k: Key)
    requires Inv(img) && b1 < HashTableEntries && b2 < HashTableEntries
    requires SlotHolds(img, b1, k) && SlotHolds(img, b2, k)
    ensures b1 == b2
  {
    var p1, p2 := Hi(img.table[b1]), Hi(img.table[b2]);
    LiveSlotItem(img, b1);
    LiveSlotItem(img, b2);
    assert KeyOf(View(img)[p1].value) == k == KeyOf(View(img)[p2].value);
  }

  /** Entries of distinct positions record distinct data offsets. */
  lemma DataOffsetsDistinct(img: Image, p: nat, q: nat)
    requires WellSized(img) && RecordsLaidOut(img)
    requires 1 <= p < img.searchOffset && 1 <= q < img.searchOffset && p != q
    ensures EntryDataOffset(img.search, p) != EntryDataOffset(img.search, q)
  {
    if p < q {
      assert RecordEnd(img, p) <= EntryDataOffset(img.search, q);
    } else {
      assert RecordEnd(img, q) <= EntryDataOffset(img.search, p);
    }
  }

  /** There are never more current entries than buckets. */
  lemma CurrentAtMostBuckets(img: Image)
    requires Inv(img)
    ensures CountWhere(View(img), IsSome) <= HashTableEntries
  {
  }
}
