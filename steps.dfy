/**
 * The effect of each mutation of a shard on its image: appending a record
 * and its search-index entry and installing a bucket (put, and each copy
 * made by copy_to), invalidating search-index entries
 * (invalidate_search_index), deleting (del) and erasing (copy_to's
 * destination).  Each is proved to keep the invariant and to change the
 * map the shard holds as the operation promises.
 */
module ShardSteps {
  import opened Layout
  import opened DataLog
  import opened KeyMap
  import opened ShardImage

  // ---------------------------------------------------------------------
  // Pure effects
  // ---------------------------------------------------------------------

  /** The data log after writing bytes at position at. */
  function Splice(d: seq<byte>, at: nat, bytes: seq<byte>): (r: seq<byte>)
    requires at + |bytes| <= |d|
    ensures |r| == |d|
    ensures r[..at] == d[..at] && r[at..at + |bytes|] == bytes && r[at + |bytes|..] == d[at + |bytes|..]
  {
    d[..at] + bytes + d[at + |bytes|..]
  }

  /**
   * The search index after invalidate_search_index(to, with) looked at
   * positions 1 .. upto-1: every entry there whose data offset is to gets
   * with as its invalidation offset.
   */
  function Invalidated(search: seq<uint64>, upto: nat, to: uint32, with: uint32): seq<uint64> {
    seq(|search|, i requires 0 <= i < |search| =>
      if i % 2 == 1 && 1 <= i / 2 < upto && Lo(search[i]) == to then Pack(with, Lo(search[i])) else search[i])
  }

  /** The bytes a deletion appends to the data log. */
  function Tombstone(): (t: seq<byte>)
    ensures |t| == TombstoneSize
  {
    EncodeU64(0)
  }

  /** The item put stores for the given arguments. */
  function NewItem(primaryHash: uint32, secondaryHash: uint32, r: Record): Item {
    Item(primaryHash, secondaryHash, r.key, r.version, r.value)
  }

  predicate CanAppend(img: Image, entry: nat, r: Record) {
    && WellSized(img)
    && entry < HashTableEntries
    && img.searchOffset < SearchIndexEntries
    && Encodable(r)
    && img.dataOffset + DataSize(r.key, r.value) <= DataSegmentSize
  }

  /**
   * Record r appended at the data cursor, a search-index entry for it at the
   * search cursor, bucket entry pointing at that entry, both cursors advanced.
   */
  function AppendImage(img: Image, entry: nat, primaryHash: uint32, secondaryHash: uint32, r: Record): (img': Image)
    requires CanAppend(img, entry, r)
    ensures WellSized(img')
  {
    var p, d := img.searchOffset, img.dataOffset;
    DataSizeIsLength(r);
    Image(img.table[entry := LiveWord(p, primaryHash)],
          img.search[2 * p := Pack(secondaryHash, primaryHash)][2 * p + 1 := Pack(0, d)],
          Splice(img.data, d, EncodeRecord(r)),
          d + DataSize(r.key, r.value),
          p + 1)
  }

  function InvalidateImage(img: Image, to: uint32, with: uint32): Image {
    img.(search := Invalidated(img.search, img.searchOffset, to, with))
  }

  predicate CanDelete(img: Image, entry: nat) {
    && WellSized(img)
    && entry < HashTableEntries
    && img.dataOffset + TombstoneSize <= DataSegmentSize
  }

  /** A tombstone appended at the data cursor and bucket entry marked dead. */
  function TombstoneImage(img: Image, entry: nat, primaryHash: uint32): (img': Image)
    requires CanDelete(img, entry)
    ensures WellSized(img')
  {
    Image(img.table[entry := DeadWord(primaryHash)],
          img.search,
          Splice(img.data, img.dataOffset, Tombstone()),
          img.dataOffset + TombstoneSize,
          img.searchOffset)
  }

  /** The image of an erased shard: every bucket empty, both cursors at the start. */
  function ErasedImage(img: Image): Image {
    Image(seq(|img.table|, _ => 0), img.search, img.data, 1, 1)
  }

  /**
   * Append-only: b keeps a's data bytes and, for every entry a had written,
   * its hashes and data offset; an invalidation offset only changes from 0.
   */
  predicate Extends(a: Image, b: Image)
    requires WellSized(a) && WellSized(b)
  {
    && a.dataOffset <= b.dataOffset
    && a.searchOffset <= b.searchOffset
    && b.data[..a.dataOffset] == a.data[..a.dataOffset]
    && forall p | 1 <= p < a.searchOffset ::
         && EntryPrimary(b.search, p) == EntryPrimary(a.search, p)
         && EntrySecondary(b.search, p) == EntrySecondary(a.search, p)
         && EntryDataOffset(b.search, p) == EntryDataOffset(a.search, p)
         && (EntryInvalidation(b.search, p) == EntryInvalidation(a.search, p)
             || (EntryInvalidation(a.search, p) == 0 && EntryInvalidation(b.search, p) != 0))
  }

  // ---------------------------------------------------------------------
  // invalidate_search_index
  // ---------------------------------------------------------------------

  /**
   * invalidate_search_index sets the invalidation field of exactly the
   * entries below upto that reference offset to, and changes no hash and no
   * data offset.
   */
  lemma InvalidatedEntry(search: seq<uint64>, upto: nat, to: uint32, with: uint32, p: nat)
    requires 2 * p + 1 < |search|
    ensures var s := Invalidated(search, upto, to, with);
      && |s| == |search|
      && EntryPrimary(s, p) == EntryPrimary(search, p)
      && EntrySecondary(s, p) == EntrySecondary(search, p)
      && EntryDataOffset(s, p) == EntryDataOffset(search, p)
      && EntryInvalidation(s, p)
         == if 1 <= p < upto && EntryDataOffset(search, p) == to then with else EntryInvalidation(search, p)
  {
    var s := Invalidated(search, upto, to, with);
    assert (2 * p) % 2 == 0 && (2 * p + 1) % 2 == 1 && (2 * p + 1) / 2 == p;
    assert s[2 * p] == search[2 * p];
  }

  /** The invalidation loop's step: one more position looked at. */
  lemma InvalidatedStep(search: seq<uint64>, upto: nat, to: uint32, with: uint32)
    requires 2 * upto + 1 < |search|
    ensures var s := Invalidated(search, upto, to, with);
      Invalidated(search, upto + 1, to, with)
      == if 1 <= upto && Lo(search[2 * upto + 1]) == to
         then s[2 * upto + 1 := Pack(with, Lo(search[2 * upto + 1]))] else s
  {
    var s := Invalidated(search, upto, to, with);
    var s' := Invalidated(search, upto + 1, to, with);
    forall i | 0 <= i < |search|
      ensures s'[i] == (if 1 <= upto && Lo(search[2 * upto + 1]) == to
                        then s[2 * upto + 1 := Pack(with, Lo(search[2 * upto + 1]))] else s)[i]
    {
      if i == 2 * upto + 1 {
        assert i % 2 == 1 && i / 2 == upto;
      } else if i % 2 == 1 {
        assert i / 2 != upto;
      }
    }
  }

  lemma InvalidatedNothing(search: seq<uint64>, to: uint32, with: uint32)
    ensures Invalidated(search, 1, to, with) == search
  {
  }

  // ---------------------------------------------------------------------
  // The view after each step
  // ---------------------------------------------------------------------

  /** An entry whose fields and record bytes are kept keeps its item and its extent. */
  lemma SameEntry(a: Image, b: Image, p: nat)
    requires WellSized(a) && RecordsLaidOut(a) && 1 <= p < a.searchOffset
    requires 2 * p + 1 < |b.search| && p < b.searchOffset
    requires b.search[2 * p] == a.search[2 * p] && b.search[2 * p + 1] == a.search[2 * p + 1]
    requires |b.data| == |a.data| && b.data[..a.dataOffset] == a.data[..a.dataOffset]
    ensures RecordAt(b.data, EntryDataOffset(b.search, p)) == RecordAt(a.data, EntryDataOffset(a.search, p))
    ensures RecordEnd(b, p) == RecordEnd(a, p)
    ensures ItemAt(b, p) == ItemAt(a, p)
  {
    var off := EntryDataOffset(a.search, p);
    var r := RecordAt(a.data, off).value;
    var e := off + DataSize(r.key, r.value);
    assert e == RecordEnd(a, p) <= a.dataOffset;
    assert b.data[off..e] == b.data[..a.dataOffset][off..e] == a.data[..a.dataOffset][off..e] == a.data[off..e];
    RecordFrame(a.data, b.data, off);
  }

  /** Appending keeps every earlier entry, its record and its item. */
  lemma AppendKeeps(img: Image, entry: nat, primaryHash: uint32, secondaryHash: uint32, r: Record, q: nat)
    requires CanAppend(img, entry, r) && RecordsLaidOut(img) && 1 <= q < img.searchOffset
    ensures var img' := AppendImage(img, entry, primaryHash, secondaryHash, r);
      && img'.search[2 * q] == img.search[2 * q] && img'.search[2 * q + 1] == img.search[2 * q + 1]
      && RecordAt(img'.data, EntryDataOffset(img'.search, q)) == RecordAt(img.data, EntryDataOffset(img.search, q))
      && RecordEnd(img', q) == RecordEnd(img, q)
      && ItemAt(img', q) == ItemAt(img, q)
  {
    var img' := AppendImage(img, entry, primaryHash, secondaryHash, r);
    DataSizeIsLength(r);
    assert img'.data[..img.dataOffset] == img.data[..img.dataOffset];
    SameEntry(img, img', q);
  }

  /** The appended entry names the appended record, which ends at the new data cursor. */
  lemma AppendNew(img: Image, entry: nat, primaryHash: uint32, secondaryHash: uint32, r: Record)
    requires CanAppend(img, entry, r)
    ensures var img', p := AppendImage(img, entry, primaryHash, secondaryHash, r), img.searchOffset;
      && EntryPrimary(img'.search, p) == primaryHash
      && EntrySecondary(img'.search, p) == secondaryHash
      && EntryDataOffset(img'.search, p) == img.dataOffset
      && EntryInvalidation(img'.search, p) == 0
      && RecordAt(img'.data, img.dataOffset) == Some(r)
      && RecordEnd(img', p) == img'.dataOffset
      && ItemAt(img', p) == Some(NewItem(primaryHash, secondaryHash, r))
  {
    var img' := AppendImage(img, entry, primaryHash, secondaryHash, r);
    var d := img.dataOffset;
    DataSizeIsLength(r);
    var n := DataSize(r.key, r.value);
    assert img'.data[d..] == EncodeRecord(r) + img.data[d + n..];
    RecordRoundTrip(r, img.data[d + n..]);
  }

  lemma AppendLaidOut(img: Image, entry: nat, primaryHash: uint32, secondaryHash: uint32, r: Record)
    requires CanAppend(img, entry, r) && RecordsLaidOut(img)
    ensures RecordsLaidOut(AppendImage(img, entry, primaryHash, secondaryHash, r))
  {
    var img' := AppendImage(img, entry, primaryHash, secondaryHash, r);
    forall q | 1 <= q < img.searchOffset
      ensures RecordAt(img'.data, EntryDataOffset(img'.search, q)) == RecordAt(img.data, EntryDataOffset(img.search, q))
      ensures RecordEnd(img', q) == RecordEnd(img, q)
      ensures EntryDataOffset(img'.search, q) == EntryDataOffset(img.search, q)
    {
      AppendKeeps(img, entry, primaryHash, secondaryHash, r, q);
    }
    AppendNew(img, entry, primaryHash, secondaryHash, r);
  }

  /** Appending adds the new item at the new position and changes no earlier one. */
  lemma AppendView(img: Image, entry: nat, primaryHash: uint32, secondaryHash: uint32, r: Record)
    requires CanAppend(img, entry, r) && RecordsLaidOut(img)
    ensures View(AppendImage(img, entry, primaryHash, secondaryHash, r))
            == View(img) + [Some(NewItem(primaryHash, secondaryHash, r))]
  {
    var img' := AppendImage(img, entry, primaryHash, secondaryHash, r);
    forall q | 1 <= q < img.searchOffset
      ensures ItemAt(img', q) == ItemAt(img, q)
    {
      AppendKeeps(img, entry, primaryHash, secondaryHash, r, q);
    }
    AppendNew(img, entry, primaryHash, secondaryHash, r);
  }

  lemma AppendExtends(img: Image, entry: nat, primaryHash: uint32, secondaryHash: uint32, r: Record)
    requires CanAppend(img, entry, r) && RecordsLaidOut(img)
    ensures Extends(img, AppendImage(img, entry, primaryHash, secondaryHash, r))
  {
    var img' := AppendImage(img, entry, primaryHash, secondaryHash, r);
    forall q | 1 <= q < img.searchOffset
      ensures img'.search[2 * q] == img.search[2 * q] && img'.search[2 * q + 1] == img.search[2 * q + 1]
    {
      AppendKeeps(img, entry, primaryHash, secondaryHash, r, q);
    }
    DataSizeIsLength(r);
    assert img'.data[..img.dataOffset] == img.data[..img.dataOffset];
  }

  /** Appending keeps every invalidation offset and writes a current entry. */
  lemma AppendCurrent(img: Image, entry: nat, primaryHash: uint32, secondaryHash: uint32, r: Record)
    requires CanAppend(img, entry, r) && RecordsLaidOut(img)
    ensures var img' := AppendImage(img, entry, primaryHash, secondaryHash, r);
      forall q | 1 <= q < img'.searchOffset ::
        EntryInvalidation(img'.search, q) == if q < img.searchOffset then EntryInvalidation(img.search, q) else 0
  {
    forall q | 1 <= q < img.searchOffset
      ensures var img' := AppendImage(img, entry, primaryHash, secondaryHash, r);
        EntryInvalidation(img'.search, q) == EntryInvalidation(img.search, q)
    {
      AppendKeeps(img, entry, primaryHash, secondaryHash, r, q);
    }
    AppendNew(img, entry, primaryHash, secondaryHash, r);
  }

  /** Appending keeps the layout and adds the new item at the new position. */
  lemma ViewAppend(img: Image, entry: nat, primaryHash: uint32, secondaryHash: uint32, r: Record)
    requires CanAppend(img, entry, r) && RecordsLaidOut(img)
    ensures var img' := AppendImage(img, entry, primaryHash, secondaryHash, r);
      && RecordsLaidOut(img')
      && View(img') == View(img) + [Some(NewItem(primaryHash, secondaryHash, r))]
      && Extends(img, img')
  {
    AppendLaidOut(img, entry, primaryHash, secondaryHash, r);
    AppendView(img, entry, primaryHash, secondaryHash, r);
    AppendExtends(img, entry, primaryHash, secondaryHash, r);
  }

  /** Invalidating the entry of position p0 keeps every field but p0's invalidation offset, and every other item. */
  lemma InvalidateKeeps(img: Image, p0: nat, with: uint32, p: nat)
    requires WellSized(img) && RecordsLaidOut(img) && 1 <= p0 < img.searchOffset && p < SearchIndexEntries
    ensures var img' := InvalidateImage(img, EntryDataOffset(img.search, p0), with);
      && EntryPrimary(img'.search, p) == EntryPrimary(img.search, p)
      && EntrySecondary(img'.search, p) == EntrySecondary(img.search, p)
      && EntryDataOffset(img'.search, p) == EntryDataOffset(img.search, p)
      && RecordEnd(img', p) == RecordEnd(img, p)
      && EntryInvalidation(img'.search, p) == (if p == p0 then with else EntryInvalidation(img.search, p))
      && (p != p0 ==> ItemAt(img', p) == ItemAt(img, p))
  {
    InvalidatedEntry(img.search, img.searchOffset, EntryDataOffset(img.search, p0), with, p);
    if p != p0 && 1 <= p < img.searchOffset {
      DataOffsetsDistinct(img, p, p0);
    }
  }

  lemma InvalidateLaidOut(img: Image, p0: nat, with: uint32)
    requires WellSized(img) && RecordsLaidOut(img) && 1 <= p0 < img.searchOffset
    ensures var img' := InvalidateImage(img, EntryDataOffset(img.search, p0), with);
      WellSized(img') && RecordsLaidOut(img')
  {
    var img' := InvalidateImage(img, EntryDataOffset(img.search, p0), with);
    forall p | 0 <= p < SearchIndexEntries
      ensures EntryDataOffset(img'.search, p) == EntryDataOffset(img.search, p)
      ensures RecordEnd(img', p) == RecordEnd(img, p)
    {
      InvalidateKeeps(img, p0, with, p);
    }
  }

  lemma InvalidateView(img: Image, p0: nat, with: uint32)
    requires WellSized(img) && RecordsLaidOut(img) && 1 <= p0 < img.searchOffset && with != 0
    ensures View(InvalidateImage(img, EntryDataOffset(img.search, p0), with)) == View(img)[p0 := None]
  {
    var img' := InvalidateImage(img, EntryDataOffset(img.search, p0), with);
    forall p | 0 <= p < img.searchOffset
      ensures ItemAt(img', p) == View(img)[p0 := None][p]
    {
      InvalidateKeeps(img, p0, with, p);
    }
  }

  lemma InvalidateExtends(img: Image, p0: nat, with: uint32)
    requires WellSized(img) && RecordsLaidOut(img) && 1 <= p0 < img.searchOffset && with != 0
    requires EntryInvalidation(img.search, p0) == 0
    ensures Extends(img, InvalidateImage(img, EntryDataOffset(img.search, p0), with))
  {
    var img' := InvalidateImage(img, EntryDataOffset(img.search, p0), with);
    forall p | 1 <= p < img.searchOffset
      ensures EntryPrimary(img'.search, p) == EntryPrimary(img.search, p)
      ensures EntrySecondary(img'.search, p) == EntrySecondary(img.search, p)
      ensures EntryDataOffset(img'.search, p) == EntryDataOffset(img.search, p)
      ensures EntryInvalidation(img'.search, p) == (if p == p0 then with else EntryInvalidation(img.search, p))
    {
      InvalidateKeeps(img, p0, with, p);
    }
  }

  /** Invalidating the entry of a current position by a non-zero offset clears exactly that position. */
  lemma ViewInvalidate(img: Image, p0: nat, with: uint32)
    requires WellSized(img) && RecordsLaidOut(img) && 1 <= p0 < img.searchOffset && with != 0
    requires EntryInvalidation(img.search, p0) == 0
    ensures var img' := InvalidateImage(img, EntryDataOffset(img.search, p0), with);
      && WellSized(img')
      && RecordsLaidOut(img')
      && View(img') == View(img)[p0 := None]
      && Extends(img, img')
  {
    InvalidateLaidOut(img, p0, with);
    InvalidateView(img, p0, with);
    InvalidateExtends(img, p0, with);
  }

  lemma ExtendsTransitive(a: Image, b: Image, c: Image)
    requires WellSized(a) && WellSized(b) && WellSized(c)
    requires Extends(a, b) && Extends(b, c)
    ensures Extends(a, c)
  {
    assert c.data[..a.dataOffset] == c.data[..b.dataOffset][..a.dataOffset];
    assert b.data[..a.dataOffset] == b.data[..b.dataOffset][..a.dataOffset];
  }

  /** A tombstone keeps every record and item. */
  lemma ViewTombstone(img: Image, entry: nat, primaryHash: uint32)
    requires CanDelete(img, entry) && RecordsLaidOut(img)
    ensures var img' := TombstoneImage(img, entry, primaryHash);
      RecordsLaidOut(img') && View(img') == View(img) && Extends(img, img')
  {
    var img' := TombstoneImage(img, entry, primaryHash);
    forall q | 1 <= q < img.searchOffset
      ensures RecordEnd(img', q) == RecordEnd(img, q)
      ensures ItemAt(img', q) == ItemAt(img, q)
    {
      SameEntry(img, img', q);
    }
    assert View(img') == View(img);
  }

  // ---------------------------------------------------------------------
  // The hash table after each step
  // ---------------------------------------------------------------------

  /**
   * Writing a non-empty word keeps every live bucket reachable; a live word
   * must itself be reachable over the buckets it replaces nothing on.
   */
  lemma ReachableInstall(t: seq<uint64>, entry: nat, w: uint64)
    requires |t| == HashTableEntries && Reachable(t) && entry < HashTableEntries
    requires !IsEmpty(w)
    requires IsLive(w) ==> PathOccupied(t, Home(Lo(w)), Dist(Home(Lo(w)), entry))
    ensures Reachable(t[entry := w])
  {
    var t' := t[entry := w];
    forall b | 0 <= b < HashTableEntries && IsLive(t'[b])
      ensures PathOccupied(t', Home(Lo(t'[b])), Dist(Home(Lo(t'[b])), b))
    {
      var home := Home(Lo(t'[b]));
      forall j | 0 <= j < Dist(home, b)
        ensures !IsEmpty(t'[Slot(home, j)])
      {
        if Slot(home, j) != entry {
          assert t'[Slot(home, j)] == t[Slot(home, j)];
        }
      }
    }
  }

  // ---------------------------------------------------------------------
  // The three mutations
  // ---------------------------------------------------------------------

  /** Installing the appended entry in a bucket that was not live keeps the bucket invariants. */
  lemma InsertSlots(img: Image, entry: nat, primaryHash: uint32, secondaryHash: uint32, r: Record)
    requires CanAppend(img, entry, r) && RecordsLaidOut(img)
    requires SlotsPointToCurrent(img) && SlotsInjective(img) && CurrentCovered(img)
    requires !IsLive(img.table[entry])
    ensures var img' := AppendImage(img, entry, primaryHash, secondaryHash, r);
      SlotsPointToCurrent(img') && SlotsInjective(img') && CurrentCovered(img')
  {
    var img' := AppendImage(img, entry, primaryHash, secondaryHash, r);
    var p := img.searchOffset;
    var t, t' := img.table, img'.table;
    forall q | 1 <= q < p
      ensures EntryPrimary(img'.search, q) == EntryPrimary(img.search, q)
      ensures EntryInvalidation(img'.search, q) == EntryInvalidation(img.search, q)
    {
      AppendKeeps(img, entry, primaryHash, secondaryHash, r, q);
    }
    AppendNew(img, entry, primaryHash, secondaryHash, r);
    forall q | 1 <= q < img'.searchOffset && EntryInvalidation(img'.search, q) == 0
      ensures exists b :: 0 <= b < HashTableEntries && IsLive(t'[b]) && Hi(t'[b]) == q
    {
      if q == p {
        assert IsLive(t'[entry]) && Hi(t'[entry]) == q;
      } else {
        var b :| 0 <= b < HashTableEntries && IsLive(t[b]) && Hi(t[b]) == q;
        assert t'[b] == t[b];
      }
    }
  }

  /** What an overwrite leaves in the search-index entries written before it. */
  lemma OverwriteKeeps(img: Image, entry: nat, primaryHash: uint32, secondaryHash: uint32, r: Record, q: nat)
    requires CanAppend(img, entry, r) && RecordsLaidOut(img)
    requires SlotsPointToCurrent(img) && IsLive(img.table[entry])
    requires 1 <= q < img.searchOffset
    ensures var p0 := Hi(img.table[entry]);
      var mid := InvalidateImage(img, EntryDataOffset(img.search, p0), img.dataOffset);
      && CanAppend(mid, entry, r) && RecordsLaidOut(mid)
      && var img' := AppendImage(mid, entry, primaryHash, secondaryHash, r);
      && EntryPrimary(img'.search, q) == EntryPrimary(img.search, q)
      && EntryInvalidation(img'.search, q) == if q == p0 then img.dataOffset else EntryInvalidation(img.search, q)
  {
    var p0, d := Hi(img.table[entry]), img.dataOffset;
    var mid := InvalidateImage(img, EntryDataOffset(img.search, p0), d);
    InvalidateLaidOut(img, p0, d);
    InvalidateKeeps(img, p0, d, q);
    AppendKeeps(mid, entry, primaryHash, secondaryHash, r, q);
  }

  /**
   * Invalidating the entry of a live bucket and installing the appended
   * entry in its place keeps live buckets pointing at distinct current entries.
   */
  lemma OverwritePoints(img: Image, entry: nat, primaryHash: uint32, secondaryHash: uint32, r: Record)
    requires CanAppend(img, entry, r) && RecordsLaidOut(img)
    requires SlotsPointToCurrent(img) && SlotsInjective(img)
    requires IsLive(img.table[entry])
    ensures var mid := InvalidateImage(img, EntryDataOffset(img.search, Hi(img.table[entry])), img.dataOffset);
      && CanAppend(mid, entry, r) && RecordsLaidOut(mid)
      && var img' := AppendImage(mid, entry, primaryHash, secondaryHash, r);
      SlotsPointToCurrent(img') && SlotsInjective(img')
  {
    var t := img.table;
    var p0, d := Hi(t[entry]), img.dataOffset;
    var mid := InvalidateImage(img, EntryDataOffset(img.search, p0), d);
    InvalidateLaidOut(img, p0, d);
    var img' := AppendImage(mid, entry, primaryHash, secondaryHash, r);
    var t' := img'.table;
    forall b | 0 <= b < HashTableEntries && b != entry && IsLive(t[b])
      ensures t'[b] == t[b] && Hi(t[b]) != p0
      ensures EntryPrimary(img'.search, Hi(t[b])) == EntryPrimary(img.search, Hi(t[b]))
      ensures EntryInvalidation(img'.search, Hi(t[b])) == EntryInvalidation(img.search, Hi(t[b]))
    {
      OverwriteKeeps(img, entry, primaryHash, secondaryHash, r, Hi(t[b]));
    }
    AppendNew(mid, entry, primaryHash, secondaryHash, r);
  }

  /** After an overwrite some live bucket still names each current entry. */
  lemma OverwriteCovered(img: Image, entry: nat, primaryHash: uint32, secondaryHash: uint32, r: Record)
    requires CanAppend(img, entry, r) && RecordsLaidOut(img)
    requires SlotsPointToCurrent(img) && CurrentCovered(img)
    requires IsLive(img.table[entry])
    ensures var mid := InvalidateImage(img, EntryDataOffset(img.search, Hi(img.table[entry])), img.dataOffset);
      && CanAppend(mid, entry, r)
      && CurrentCovered(AppendImage(mid, entry, primaryHash, secondaryHash, r))
  {
    var t := img.table;
    var p0, d, p := Hi(t[entry]), img.dataOffset, img.searchOffset;
    var mid := InvalidateImage(img, EntryDataOffset(img.search, p0), d);
    InvalidateLaidOut(img, p0, d);
    var img' := AppendImage(mid, entry, primaryHash, secondaryHash, r);
    var t' := img'.table;
    forall q | 1 <= q < img'.searchOffset && EntryInvalidation(img'.search, q) == 0
      ensures exists b :: 0 <= b < HashTableEntries && IsLive(t'[b]) && Hi(t'[b]) == q
    {
      if q == p {
        AppendNew(mid, entry, primaryHash, secondaryHash, r);
        assert IsLive(t'[entry]) && Hi(t'[entry]) == q;
      } else {
        OverwriteKeeps(img, entry, primaryHash, secondaryHash, r, q);
        var b :| 0 <= b < HashTableEntries && IsLive(t[b]) && Hi(t[b]) == q;
        assert t'[b] == t[b];
      }
    }
  }

  /** Invalidating the entry of a live bucket and marking the bucket dead keeps the bucket invariants. */
  lemma DeleteSlots(img: Image, entry: nat, primaryHash: uint32)
    requires CanDelete(img, entry) && RecordsLaidOut(img)
    requires SlotsPointToCurrent(img) && SlotsInjective(img) && CurrentCovered(img)
    requires IsLive(img.table[entry])
    ensures var mid := InvalidateImage(img, EntryDataOffset(img.search, Hi(img.table[entry])), img.dataOffset);
      && CanDelete(mid, entry) && RecordsLaidOut(mid)
      && var img' := TombstoneImage(mid, entry, primaryHash);
      SlotsPointToCurrent(img') && SlotsInjective(img') && CurrentCovered(img')
  {
    var t := img.table;
    var p0, d := Hi(t[entry]), img.dataOffset;
    var mid := InvalidateImage(img, EntryDataOffset(img.search, p0), d);
    InvalidateLaidOut(img, p0, d);
    var img' := TombstoneImage(mid, entry, primaryHash);
    var t' := img'.table;
    forall q | 0 <= q < SearchIndexEntries
      ensures EntryPrimary(img'.search, q) == EntryPrimary(img.search, q)
      ensures EntryInvalidation(img'.search, q) == if q == p0 then d else EntryInvalidation(img.search, q)
    {
      InvalidateKeeps(img, p0, d, q);
    }
    forall b | 0 <= b < HashTableEntries && b != entry && IsLive(t[b])
      ensures t'[b] == t[b] && Hi(t[b]) != p0
    {
    }
    forall q | 1 <= q < img'.searchOffset && EntryInvalidation(img'.search, q) == 0
      ensures exists b :: 0 <= b < HashTableEntries && IsLive(t'[b]) && Hi(t'[b]) == q
    {
      var b :| 0 <= b < HashTableEntries && IsLive(t[b]) && Hi(t[b]) == q;
      assert t'[b] == t[b];
    }
  }

  /**
   * Inserting a key that is not held into a bucket that is not live, reached
   * from the key's home over non-empty buckets, keeps the invariant and adds
   * exactly that key to the map.
   */
  lemma InsertStep(img: Image, entry: nat, primaryHash: uint32, secondaryHash: uint32, r: Record)
    requires Inv(img) && CanAppend(img, entry, r)
    requires !IsLive(img.table[entry])
    requires PathOccupied(img.table, Home(primaryHash), Dist(Home(primaryHash), entry))
    requires (primaryHash, r.key) !in Contents(img)
    ensures var img' := AppendImage(img, entry, primaryHash, secondaryHash, r);
      && Inv(img')
      && Contents(img') == Contents(img)[(primaryHash, r.key) := NewItem(primaryHash, secondaryHash, r)]
      && CountWhere(View(img'), IsSome) == CountWhere(View(img), IsSome) + 1
      && Extends(img, img')
      && (NoDead(img.table) ==> NoDead(img'.table))
  {
    var item := NewItem(primaryHash, secondaryHash, r);
    var img' := AppendImage(img, entry, primaryHash, secondaryHash, r);
    var t := img.table;
    ViewAppend(img, entry, primaryHash, secondaryHash, r);
    InsertSlots(img, entry, primaryHash, secondaryHash, r);
    ToMapAppend(View(img), Some(item));
    UniqueKeysAppend(View(img), item);
    CountAppend(View(img), Some(item), IsSome);
    CountUpdate(t, entry, LiveWord(img.searchOffset, primaryHash), IsLive);
    ReachableInstall(t, entry, LiveWord(img.searchOffset, primaryHash));
    if NoDead(t) {
      assert forall b | 0 <= b < HashTableEntries && b != entry :: img'.table[b] == t[b];
    }
  }

  /**
   * Overwriting the key held by bucket entry: the old entry is invalidated
   * by the new record's offset, the new record and entry are appended and
   * the bucket points at the new entry.  The invariant is kept and the map
   * gets the new item for the key.
   */
  lemma OverwriteStep(img: Image, entry: nat, primaryHash: uint32, secondaryHash: uint32, r: Record)
    requires Inv(img) && CanAppend(img, entry, r)
    requires SlotHolds(img, entry, (primaryHash, r.key))
    ensures var mid := InvalidateImage(img, EntryDataOffset(img.search, Hi(img.table[entry])), img.dataOffset);
      && CanAppend(mid, entry, r)
      && var img' := AppendImage(mid, entry, primaryHash, secondaryHash, r);
      && Inv(img')
      && Contents(img') == Contents(img)[(primaryHash, r.key) := NewItem(primaryHash, secondaryHash, r)]
      && CountWhere(View(img'), IsSome) == CountWhere(View(img), IsSome)
      && Extends(img, img')
  {
    var item := NewItem(primaryHash, secondaryHash, r);
    var t := img.table;
    var p0 := Hi(t[entry]);
    LiveSlotItem(img, entry);
    var mid := InvalidateImage(img, EntryDataOffset(img.search, p0), img.dataOffset);
    ViewInvalidate(img, p0, img.dataOffset);
    var img' := AppendImage(mid, entry, primaryHash, secondaryHash, r);
    ViewAppend(mid, entry, primaryHash, secondaryHash, r);
    ExtendsTransitive(img, mid, img');
    OverwritePoints(img, entry, primaryHash, secondaryHash, r);
    OverwriteCovered(img, entry, primaryHash, secondaryHash, r);
    ReplaceItem(View(img), p0, item);
    CountUpdate(t, entry, LiveWord(img.searchOffset, primaryHash), IsLive);
    ReachableInstall(t, entry, LiveWord(img.searchOffset, primaryHash));
  }

  /**
   * Deleting the key held by bucket entry: its entry is invalidated by the
   * tombstone's offset, the tombstone is appended and the bucket becomes
   * dead.  The invariant is kept and the key leaves the map.
   */
  lemma DeleteStep(img: Image, entry: nat, k: Key)
    requires Inv(img) && CanDelete(img, entry)
    requires SlotHolds(img, entry, k)
    ensures var mid := InvalidateImage(img, EntryDataOffset(img.search, Hi(img.table[entry])), img.dataOffset);
      && CanDelete(mid, entry)
      && var img' := TombstoneImage(mid, entry, k.0);
      && Inv(img')
      && Contents(img') == Contents(img) - {k}
      && Extends(img, img')
  {
    var t := img.table;
    var p0 := Hi(t[entry]);
    LiveSlotItem(img, entry);
    var mid := InvalidateImage(img, EntryDataOffset(img.search, p0), img.dataOffset);
    ViewInvalidate(img, p0, img.dataOffset);
    var img' := TombstoneImage(mid, entry, k.0);
    ViewTombstone(mid, entry, k.0);
    ExtendsTransitive(img, mid, img');
    DeleteSlots(img, entry, k.0);
    var v := View(img);
    ToMapClear(v, p0);
    UniqueKeysClear(v, p0);
    CountUpdate(v, p0, None, IsSome);
    CountUpdate(t, entry, DeadWord(k.0), IsLive);
    ReachableInstall(t, entry, DeadWord(k.0));
  }

  /** An erased shard satisfies the invariant, holds nothing and has no dead bucket. */
  lemma EraseStep(img: Image)
    requires |img.table| == HashTableEntries && |img.search| == 2 * SearchIndexEntries
    requires |img.data| == DataSegmentSize
    ensures var img' := ErasedImage(img);
      Inv(img') && Contents(img') == map[] && NoDead(img'.table)
      && CountWhere(View(img'), IsSome) == 0
  {
    var img' := ErasedImage(img);
    assert View(img') == [None];
    assert ToMap([None]) == ToMap([None][..0]);
    CountNone(img'.table, IsLive);
    CountNone(View(img'), IsSome);
  }
}
