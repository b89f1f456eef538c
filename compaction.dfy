/**
 * The facts copy_to relies on when it walks the source's search index in
 * order and re-appends every current entry that matches the coordinate:
 * the destination never runs out of buckets, search-index entries or data
 * bytes, and never receives a key twice.
 */
module Compaction {
  import opened Layout
  import opened DataLog
  import opened KeyMap
  import opened ShardImage
  import opened ShardSteps

  /** Where the data of position p starts, or the data cursor past the last position. */
  function NextStart(img: Image, p: nat): (n: nat)
    requires WellSized(img) && 1 <= p <= img.searchOffset
    ensures p == img.searchOffset ==> n == img.dataOffset
  {
    if p < img.searchOffset then EntryDataOffset(img.search, p) else img.dataOffset
  }

  /** The records lie one after the other: each ends at or before the next one starts. */
  lemma RecordBeforeNext(img: Image, p: nat)
    requires WellSized(img) && RecordsLaidOut(img) && 1 <= p < img.searchOffset
    ensures var r := RecordAt(img.data, EntryDataOffset(img.search, p)).value;
      && EntryDataOffset(img.search, p) + DataSize(r.key, r.value) == RecordEnd(img, p)
      && RecordEnd(img, p) <= NextStart(img, p + 1)
      && 1 <= NextStart(img, 1)
  {
  }

  /** The record of a current position re-encodes, and fits between where it starts and where the next one starts. */
  lemma CopyFits(img: Image, p: nat, item: Item)
    requires WellSized(img) && RecordsLaidOut(img) && p < img.searchOffset && View(img)[p] == Some(item)
    ensures 1 <= p
    ensures Encodable(Record(item.version, item.key, item.value))
    ensures NextStart(img, p) + DataSize(item.key, item.value) <= NextStart(img, p + 1) <= img.dataOffset
  {
    assert ItemAt(img, p) == Some(item);
    var off := EntryDataOffset(img.search, p);
    assert RecordAt(img.data, off).value == Record(item.version, item.key, item.value);
    RecordBytes(img.data[off..]);
    RecordBeforeNext(img, p);
    if p + 1 < img.searchOffset {
      assert RecordEnd(img, p + 1) <= img.dataOffset;
    }
  }

  /**
   * The destination dst holds what copy_to has made of the first p
   * positions of src: the copies of the current items that match c, in a
   * valid shard without dead buckets or invalidated entries, with its data
   * cursor no further than where position p's record starts.
   */
  ghost predicate CopiedUpTo(src: Image, dst: Image, c: Item -> bool, p: nat) {
    && WellSized(src) && 1 <= p <= src.searchOffset
    && Inv(dst) && NoDead(dst.table)
    && Contents(dst) == ToMap(FilterView(View(src)[..p], c))
    && CountWhere(View(dst), IsSome) == CountWhere(FilterView(View(src)[..p], c), IsSome)
    && dst.searchOffset <= p && dst.dataOffset <= NextStart(src, p)
    && forall q | 1 <= q < dst.searchOffset :: EntryInvalidation(dst.search, q) == 0
  }

  /** A position that is invalidated or does not match the coordinate adds no copy. */
  lemma CopySkip(src: Image, dst: Image, c: Item -> bool, p: nat)
    requires CopiedUpTo(src, dst, c, p) && RecordsLaidOut(src) && p < src.searchOffset
    requires View(src)[p].None? || !c(View(src)[p].value)
    ensures CopiedUpTo(src, dst, c, p + 1)
  {
    var u := FilterView(View(src)[..p], c);
    FilterViewPrefix(View(src), c, p);
    RecordBeforeNext(src, p);
    CountAppend(u, None, IsSome);
    ToMapAppend(u, None);
  }

  /** The map of the copies made from the first p positions contains no key of position p. */
  lemma CopyFresh(img: Image, c: Item -> bool, p: nat)
    requires WellSized(img) && UniqueKeys(View(img)) && p < img.searchOffset && View(img)[p].Some?
    ensures KeyOf(View(img)[p].value) !in ToMap(FilterView(View(img)[..p], c))
  {
    var v := View(img);
    var k := KeyOf(v[p].value);
    var u := FilterView(v[..p], c);
    forall j | 0 <= j < |u| && u[j].Some?
      ensures KeyOf(u[j].value) != k
    {
      assert u[j] == v[j];
    }
    ToMapDomain(u, k);
  }

  /** Before copying position p, the copies so far fill fewer buckets than the table has. */
  lemma CopyRoom(img: Image, c: Item -> bool, p: nat)
    requires Inv(img) && p < img.searchOffset && View(img)[p].Some?
    ensures CountWhere(FilterView(View(img)[..p], c), IsSome) < HashTableEntries
  {
    var v := View(img);
    CountFilter(v[..p], c);
    assert v[..p + 1] == v[..p] + [v[p]];
    CountAppend(v[..p], v[p], IsSome);
    CountPrefix(v, p + 1, IsSome);
    CurrentAtMostBuckets(img);
  }

  /**
   * Before copying a current position p that matches c: the destination
   * has a free bucket, does not hold p's key yet, and has room for p's record.
   */
  lemma CopyPrepare(src: Image, dst: Image, c: Item -> bool, p: nat, item: Item)
    requires Inv(src) && CopiedUpTo(src, dst, c, p) && p < src.searchOffset
    requires View(src)[p] == Some(item)
    ensures CountWhere(View(dst), IsSome) < HashTableEntries
    ensures KeyOf(item) !in Contents(dst)
    ensures CanAppend(dst, 0, Record(item.version, item.key, item.value))
  {
    CopyRoom(src, c, p);
    CopyFresh(src, c, p);
    CopyFits(src, p, item);
  }

  /**
   * Appending the copy of position p to the destination (one more current
   * entry, its key mapped to p's item, its record behind the others) takes
   * the copy from the first p positions to the first p + 1.
   */
  lemma CopyAppended(src: Image, dst0: Image, dst1: Image, c: Item -> bool, p: nat, item: Item)
    requires Inv(src) && CopiedUpTo(src, dst0, c, p) && p < src.searchOffset
    requires View(src)[p] == Some(item) && c(item)
    requires Inv(dst1) && NoDead(dst1.table)
    requires Contents(dst1) == Contents(dst0)[KeyOf(item) := item]
    requires CountWhere(View(dst1), IsSome) == CountWhere(View(dst0), IsSome) + 1
    requires dst1.searchOffset == dst0.searchOffset + 1
    requires dst1.dataOffset == dst0.dataOffset + DataSize(item.key, item.value)
    requires forall q | dst0.searchOffset <= q < dst1.searchOffset :: EntryInvalidation(dst1.search, q) == 0
    requires forall q | 1 <= q < dst0.searchOffset :: EntryInvalidation(dst1.search, q) == EntryInvalidation(dst0.search, q)
    ensures CopiedUpTo(src, dst1, c, p + 1)
  {
    var u := FilterView(View(src)[..p], c);
    FilterViewPrefix(View(src), c, p);
    CopyFits(src, p, item);
    CountAppend(u, Some(item), IsSome);
    ToMapAppend(u, Some(item));
  }

  /** An erased destination holds the copy of the first position, which is reserved and holds nothing. */
  lemma CopyStart(src: Image, dst: Image, c: Item -> bool)
    requires Inv(src) && dst == ErasedImage(dst) && WellSized(dst)
    ensures CopiedUpTo(src, dst, c, 1)
  {
    EraseStep(dst);
    assert View(src)[..1] == [None];
  }

  /** Copying every position of the search index copies the whole view. */
  lemma CopyAll(img: Image, c: Item -> bool)
    requires WellSized(img) && UniqueKeys(View(img))
    ensures ToMap(FilterView(View(img)[..img.searchOffset], c)) == FilterMap(Contents(img), c)
  {
    assert View(img)[..img.searchOffset] == View(img);
    FilterToMap(View(img), c);
  }
}
