/**
 * The shard: a hash table, a search index and a data log in fixed-size
 * arrays, and the two write cursors m_data_offset and m_search_offset.
 * Every method that changes the shard is proved to turn its image into the
 * image the matching effect in ShardSteps describes, so the invariant and
 * the change to the key-value map proved there carry over.
 */
module Shard {
  import opened Layout
  import opened DataLog
  import opened KeyMap
  import opened ShardImage
  import opened ShardSteps
  import opened Probe
  import opened Compaction

  /** The codes get, put and del return (SYNCFAILED belongs to async and sync). */
  datatype ReturnCode = Success | NotFound | DataFull | HashFull | SearchFull

  class Shard {
    const hashTable: array<uint64>
    const searchIndex: array<uint64>
    const data: array<byte>
    var dataOffset: uint32
    var searchOffset: uint32

    /** The regions have their capacities and the two word arrays are distinct. */
    ghost predicate Shaped()
      reads this
    {
      && hashTable.Length == HashTableEntries
      && searchIndex.Length == 2 * SearchIndexEntries
      && data.Length == DataSegmentSize
      && hashTable != searchIndex
    }

    /** The shard's state as a value. */
    ghost function Img(): Image
      reads this, hashTable, searchIndex, data
    {
      Image(hashTable[..], searchIndex[..], data[..], dataOffset, searchOffset)
    }

    ghost predicate Valid()
      reads this, hashTable, searchIndex, data
    {
      Shaped() && Inv(Img())
    }

    /** The key-value map the shard holds. */
    ghost function Contents(): map<Key, Item>
      reads this, hashTable, searchIndex, data
    {
      ShardImage.Contents(Img())
    }

    /** A newly initialised shard: every bucket empty, both cursors at the start, nothing held. */
    constructor ()
      ensures Valid() && Contents() == map[] && NoDead(hashTable[..])
      ensures dataOffset == 1 && searchOffset == 1
      ensures forall b | 0 <= b < hashTable.Length :: IsEmpty(hashTable[b])
      ensures fresh(hashTable) && fresh(searchIndex) && fresh(data)
    {
      hashTable := new uint64[HashTableEntries](_ => 0);
      searchIndex := new uint64[2 * SearchIndexEntries](_ => 0);
      data := new byte[DataSegmentSize](_ => 0);
      dataOffset := 1;
      searchOffset := 1;
      new;
      EraseStep(Img());
      assert Img() == ErasedImage(Img());
    }

    // -------------------------------------------------------------------
    // Data-record accessors
    // -------------------------------------------------------------------

    /** data_version: the version of the record at offset. */
    function DataVersion(offset: nat): (version: uint64)
      reads data
      requires offset + VersionSize <= data.Length
      ensures RecordAt(data[..], offset).Some? ==> version == RecordAt(data[..], offset).value.version
    {
      assert data[..][offset..][..VersionSize] == data[offset..offset + VersionSize];
      DecodeU64(data[offset..offset + VersionSize])
    }

    /** data_key_size: the size of the key of the record at offset. */
    function DataKeySize(offset: nat): (keySize: uint32)
      reads data
      requires offset + VersionSize + KeySizeSize <= data.Length
      ensures RecordAt(data[..], offset).Some? ==> keySize == |RecordAt(data[..], offset).value.key|
    {
      assert data[..][offset..][VersionSize..VersionSize + KeySizeSize]
          == data[offset + VersionSize..offset + VersionSize + KeySizeSize];
      DecodeU32(data[offset + VersionSize..offset + VersionSize + KeySizeSize])
    }

    /** data_key: the keySize bytes at data_key_offset, which are the record's key. */
    function DataKey(offset: nat, keySize: nat): (key: seq<byte>)
      reads data
      requires DataKeyOffset(offset) + keySize <= data.Length
      ensures |key| == keySize
      ensures RecordAt(data[..], offset).Some? && keySize == |RecordAt(data[..], offset).value.key|
              ==> key == RecordAt(data[..], offset).value.key
    {
      var k := DataKeyOffset(offset);
      assert data[..][offset..][k - offset..k - offset + keySize] == data[k..k + keySize];
      data[k..k + keySize]
    }

    /** Reads the length-prefixed buffer at pos: the first of the n buffers that start there. */
    method ReadBuffer(pos: nat, n: nat) returns (buffer: seq<byte>, next: nat)
      requires pos <= data.Length && n > 0 && DecodeBuffers(data[..][pos..], n).Some?
      ensures next <= data.Length && DecodeBuffers(data[..][next..], n - 1).Some?
      ensures [buffer] + DecodeBuffers(data[..][next..], n - 1).value == DecodeBuffers(data[..][pos..], n).value
    {
      BufferAt(data[..], pos, n);
      assert data[pos..pos + LengthSize] == data[..][pos..pos + LengthSize];
      var len := DecodeU32(data[pos..pos + LengthSize]);
      buffer := data[pos + LengthSize..pos + LengthSize + len];
      next := pos + LengthSize + len;
      assert buffer == data[..][pos + LengthSize..pos + LengthSize + len];
    }

    /** Reads the n length-prefixed buffers that start at pos, one after the other. */
    method ReadBuffers(pos: nat, n: nat) returns (value: seq<seq<byte>>)
      requires pos <= data.Length && DecodeBuffers(data[..][pos..], n).Some?
      ensures value == DecodeBuffers(data[..][pos..], n).value
    {
      value := [];
      var at: nat := pos;
      var left: nat := n;
      while left > 0
        invariant at <= data.Length
        invariant DecodeBuffers(data[..][at..], left).Some?
        invariant value + DecodeBuffers(data[..][at..], left).value == DecodeBuffers(data[..][pos..], n).value
      {
        var buffer;
        ghost var rest := DecodeBuffers(data[..][at..], left).value;
        buffer, at := ReadBuffer(at, left);
        assert value + rest == (value + [buffer]) + DecodeBuffers(data[..][at..], left - 1).value;
        value := value + [buffer];
        left := left - 1;
      }
    }

    /** data_value: reads the buffer count after the key, then each buffer behind its length. */
    method DataValue(offset: nat, keySize: nat) returns (value: seq<seq<byte>>)
      requires RecordAt(data[..], offset).Some? && keySize == |RecordAt(data[..], offset).value.key|
      ensures value == RecordAt(data[..], offset).value.value
    {
      ValueAt(data[..], offset);
      var pos: nat := DataKeyOffset(offset) + keySize;
      assert data[pos..pos + LengthSize] == data[..][pos..pos + LengthSize];
      var count := DecodeU32(data[pos..pos + LengthSize]);
      value := ReadBuffers(pos + LengthSize, count);
    }

    // -------------------------------------------------------------------
    // Probing the hash table
    // -------------------------------------------------------------------

    /**
     * find_bucket(primary_hash, key, entry, offset): probes from the home
     * bucket of the hash.  A live bucket with the same hash whose entry is
     * current and whose record has the key ends the probe with true.  An
     * empty bucket ends it with false and the first dead bucket seen, or
     * else the empty one.  After every bucket, false and the first dead
     * bucket seen, or HASH_TABLE_ENTRIES when there was none.
     */
    method FindBucket(primaryHash: uint32, key: seq<byte>) returns (found: bool, entry: nat, offset: uint32)
      requires Valid()
      ensures entry <= HashTableEntries
      ensures found <==> (primaryHash, key) in Contents()
      ensures found ==> && entry < HashTableEntries
                        && SlotHolds(Img(), entry, (primaryHash, key))
                        && offset == EntryDataOffset(searchIndex[..], Hi(hashTable[entry]))
      ensures !found && entry < HashTableEntries ==>
                && !IsLive(hashTable[entry])
                && PathLive(hashTable[..], Home(primaryHash), Dist(Home(primaryHash), entry))
      ensures !found ==> (entry == HashTableEntries <==> TableFull(hashTable[..]))
    {
      ghost var img := Img();
      ghost var k := (primaryHash, key);
      var home := Home(primaryHash);
      var firstDead: nat := HashTableEntries;
      var j := 0;
      while j < HashTableEntries
        invariant 0 <= j <= HashTableEntries && firstDead <= HashTableEntries
        invariant PathOccupied(img.table, home, j)
        invariant firstDead == HashTableEntries ==> PathLive(img.table, home, j)
        invariant firstDead < HashTableEntries ==>
                    && Dist(home, firstDead) < j
                    && IsDead(img.table[firstDead])
                    && PathLive(img.table, home, Dist(home, firstDead))
        invariant forall i | 0 <= i < j :: !SlotHolds(img, Slot(home, i), k)
      {
        var b := Slot(home, j);
        var w := hashTable[b];
        if IsEmpty(w) {
          ProbeStopsAtEmpty(img, k, j);
          if firstDead == HashTableEntries {
            DistOfSlot(home, j);
            return false, b, 0;
          }
          return false, firstDead, 0;
        }
        if IsDead(w) {
          if firstDead == HashTableEntries {
            DistOfSlot(home, j);
            firstDead := b;
          }
        } else {
          var holds, off := BucketHolds(b, primaryHash, key);
          if holds {
            SlotHoldsContents(img, b, k);
            return true, b, off;
          }
        }
        j := j + 1;
      }
      ProbeExhausted(img, k);
      if firstDead == HashTableEntries {
        PathLiveFull(img.table, home);
      }
      return false, firstDead, 0;
    }

    /**
     * One probe step of find_bucket at a live bucket: the bucket holds the
     * key when its hash is the key's, its entry is current and the record
     * there has the key's size and bytes.
     */
    method BucketHolds(b: nat, primaryHash: uint32, key: seq<byte>) returns (holds: bool, offset: uint32)
      requires Valid() && b < HashTableEntries && IsLive(hashTable[b])
      ensures holds <==> SlotHolds(Img(), b, (primaryHash, key))
      ensures offset == EntryDataOffset(searchIndex[..], Hi(hashTable[b]))
    {
      ghost var img := Img();
      var w := hashTable[b];
      var p := Hi(w);
      LiveSlotItem(img, b);
      var second := searchIndex[2 * p + 1];
      offset := Lo(second);
      holds := false;
      if Lo(w) == primaryHash && Hi(second) == 0 {
        RecordBytes(img.data[offset..]);
        holds := DataKeySize(offset) == |key| && DataKey(offset, |key|) == key;
      }
    }

    /**
     * find_bucket(primary_hash, entry), used by copy_to only: with no dead
     * bucket and some empty bucket, the first empty bucket of the probe.
     */
    method FindFreeBucket(primaryHash: uint32) returns (entry: nat)
      requires hashTable.Length == HashTableEntries
      requires NoDead(hashTable[..])
      requires exists b | 0 <= b < hashTable.Length :: IsEmpty(hashTable[b])
      ensures entry < HashTableEntries && IsEmpty(hashTable[entry])
      ensures PathLive(hashTable[..], Home(primaryHash), Dist(Home(primaryHash), entry))
    {
      var home := Home(primaryHash);
      ghost var b0 :| 0 <= b0 < hashTable.Length && IsEmpty(hashTable[b0]);
      var j := 0;
      while !IsEmpty(hashTable[Slot(home, j)])
        invariant 0 <= j <= Dist(home, b0)
        invariant PathLive(hashTable[..], home, j)
        decreases Dist(home, b0) - j
      {
        assert hashTable[..][Slot(home, j)] == hashTable[Slot(home, j)];
        j := j + 1;
      }
      entry := Slot(home, j);
      DistOfSlot(home, j);
    }

    // -------------------------------------------------------------------
    // Writing
    // -------------------------------------------------------------------

    /** Copies bytes into the data log at position at. */
    method WriteData(at: nat, bytes: seq<byte>)
      requires at + |bytes| <= data.Length
      modifies data
      ensures data[..] == Splice(old(data[..]), at, bytes)
    {
      var i := 0;
      while i < |bytes|
        invariant 0 <= i <= |bytes|
        invariant forall q | 0 <= q < data.Length :: data[q] == if at <= q < at + i then bytes[q - at] else old(data[q])
      {
        data[at + i] := bytes[i];
        i := i + 1;
      }
      assert data[..] == Splice(old(data[..]), at, bytes);
    }

    /**
     * invalidate_search_index(to_invalidate, invalidate_with): every written
     * entry whose data offset is to_invalidate gets invalidate_with as its
     * invalidation offset.
     */
    method InvalidateSearchIndex(toInvalidate: uint32, invalidateWith: uint32)
      requires searchIndex.Length == 2 * SearchIndexEntries && 1 <= searchOffset <= SearchIndexEntries
      modifies searchIndex
      ensures searchIndex[..] == Invalidated(old(searchIndex[..]), searchOffset, toInvalidate, invalidateWith)
    {
      InvalidatedNothing(searchIndex[..], toInvalidate, invalidateWith);
      var p := 1;
      while p < searchOffset
        invariant 1 <= p <= searchOffset
        invariant searchIndex[..] == Invalidated(old(searchIndex[..]), p, toInvalidate, invalidateWith)
      {
        InvalidatedStep(old(searchIndex[..]), p, toInvalidate, invalidateWith);
        assert (2 * p + 1) % 2 == 1 && (2 * p + 1) / 2 == p;
        var w := searchIndex[2 * p + 1];
        if Lo(w) == toInvalidate {
          searchIndex[2 * p + 1] := Pack(invalidateWith, Lo(w));
        }
        p := p + 1;
      }
    }

    /** Appends record r and its search-index entry and points bucket entry at that entry. */
    method AppendEntry(entry: nat, primaryHash: uint32, secondaryHash: uint32, r: Record)
      requires Shaped() && CanAppend(Img(), entry, r)
      modifies this, hashTable, searchIndex, data
      ensures Shaped()
      ensures Img() == AppendImage(old(Img()), entry, primaryHash, secondaryHash, r)
    {
      DataSizeIsLength(r);
      var p, d := searchOffset, dataOffset;
      var bytes := EncodeRecord(r);
      WriteData(d, bytes);
      searchIndex[2 * p] := Pack(secondaryHash, primaryHash);
      searchIndex[2 * p + 1] := Pack(0, d);
      hashTable[entry] := LiveWord(p, primaryHash);
      dataOffset := d + |bytes|;
      searchOffset := p + 1;
    }

    /** Appends a tombstone and marks bucket entry dead. */
    method AppendTombstone(entry: nat, primaryHash: uint32)
      requires Shaped() && CanDelete(Img(), entry)
      modifies this, hashTable, data
      ensures Shaped()
      ensures Img() == TombstoneImage(old(Img()), entry, primaryHash)
    {
      var d := dataOffset;
      WriteData(d, Tombstone());
      hashTable[entry] := DeadWord(primaryHash);
      dataOffset := d + TombstoneSize;
    }

    /** Empties every bucket and resets both cursors; the old bytes stay but nothing names them. */
    method Erase()
      requires Shaped()
      modifies this, hashTable
      ensures Shaped()
      ensures Img() == ErasedImage(old(Img()))
    {
      var b := 0;
      while b < hashTable.Length
        invariant 0 <= b <= hashTable.Length
        invariant forall i | 0 <= i < b :: hashTable[i] == 0
        invariant searchIndex[..] == old(searchIndex[..])
      {
        hashTable[b] := 0;
        b := b + 1;
      }
      dataOffset := 1;
      searchOffset := 1;
      assert hashTable[..] == seq(HashTableEntries, _ => 0);
    }

    // -------------------------------------------------------------------
    // The point operations
    // -------------------------------------------------------------------

    /** get: SUCCESS with the value and version held for the key, or NOTFOUND. */
    method Get(primaryHash: uint32, key: seq<byte>) returns (rc: ReturnCode, value: seq<seq<byte>>, version: uint64)
      requires Valid()
      ensures rc == Success || rc == NotFound
      ensures rc == Success <==> (primaryHash, key) in Contents()
      ensures rc == Success ==> && value == Contents()[(primaryHash, key)].value
                                && version == Contents()[(primaryHash, key)].version
    {
      var found, entry, offset := FindBucket(primaryHash, key);
      if !found {
        return NotFound, [], 0;
      }
      ghost var img := Img();
      LiveSlotItem(img, entry);
      SlotHoldsContents(img, entry, (primaryHash, key));
      version := DataVersion(offset);
      var keySize := DataKeySize(offset);
      value := DataValue(offset, keySize);
      rc := Success;
    }

    /**
     * The successful put of a key the shard holds in bucket entry: the old
     * entry is invalidated by the new record's offset, then the record and
     * its entry are appended and the bucket names the new entry.
     */
    method Replace(entry: nat, offset: uint32, primaryHash: uint32, secondaryHash: uint32, r: Record)
      requires Valid() && CanAppend(Img(), entry, r)
      requires SlotHolds(Img(), entry, (primaryHash, r.key))
      requires offset == EntryDataOffset(searchIndex[..], Hi(hashTable[entry]))
      modifies this, hashTable, searchIndex, data
      ensures Valid()
      ensures Contents() == old(Contents())[(primaryHash, r.key) := NewItem(primaryHash, secondaryHash, r)]
      ensures Extends(old(Img()), Img())
      ensures Img() == AppendImage(InvalidateImage(old(Img()), offset, old(dataOffset)), entry, primaryHash, secondaryHash, r)
      ensures hashTable[..] == old(hashTable[..])[entry := LiveWord(old(searchOffset), primaryHash)]
      ensures dataOffset == old(dataOffset) + DataSize(r.key, r.value) && searchOffset == old(searchOffset) + 1
      ensures CountWhere(hashTable[..], IsLive) == CountWhere(old(hashTable[..]), IsLive)
    {
      ghost var img := Img();
      CountUpdate(img.table, entry, LiveWord(searchOffset, primaryHash), IsLive);
      OverwriteStep(img, entry, primaryHash, secondaryHash, r);
      ghost var mid := InvalidateImage(img, offset, dataOffset);
      InvalidateSearchIndex(offset, dataOffset);
      assert Img() == mid;
      AppendEntry(entry, primaryHash, secondaryHash, r);
      assert Img() == AppendImage(mid, entry, primaryHash, secondaryHash, r);
    }

    /**
     * The successful put of a new key into the free bucket entry that
     * find_bucket found: the record and its entry are appended and the
     * bucket names the new entry.
     */
    method Insert(entry: nat, primaryHash: uint32, secondaryHash: uint32, r: Record)
      requires Valid() && CanAppend(Img(), entry, r)
      requires !IsLive(hashTable[entry])
      requires PathOccupied(hashTable[..], Home(primaryHash), Dist(Home(primaryHash), entry))
      requires (primaryHash, r.key) !in Contents()
      modifies this, hashTable, searchIndex, data
      ensures Valid()
      ensures Contents() == old(Contents())[(primaryHash, r.key) := NewItem(primaryHash, secondaryHash, r)]
      ensures Extends(old(Img()), Img())
      ensures Img() == AppendImage(old(Img()), entry, primaryHash, secondaryHash, r)
      ensures hashTable[..] == old(hashTable[..])[entry := LiveWord(old(searchOffset), primaryHash)]
      ensures dataOffset == old(dataOffset) + DataSize(r.key, r.value) && searchOffset == old(searchOffset) + 1
      ensures CountWhere(hashTable[..], IsLive) == CountWhere(old(hashTable[..]), IsLive) + 1
    {
      ghost var img := Img();
      CountUpdate(img.table, entry, LiveWord(searchOffset, primaryHash), IsLive);
      InsertStep(img, entry, primaryHash, secondaryHash, r);
      AppendEntry(entry, primaryHash, secondaryHash, r);
      assert Img() == AppendImage(img, entry, primaryHash, secondaryHash, r);
    }

    /**
     * put: DATAFULL when the record does not fit in the data log, HASHFULL
     * when the key is new and no bucket is free, SEARCHFULL when the search
     * index is full; otherwise the record and its entry are appended, an
     * older entry of the key is invalidated by the new record's offset, and
     * the key's bucket names the new entry.  A failed put changes nothing.
     */
    method Put(primaryHash: uint32, secondaryHash: uint32, key: seq<byte>, value: seq<seq<byte>>, version: uint64)
      returns (rc: ReturnCode)
      requires Valid()
      modifies this, hashTable, searchIndex, data
      ensures Valid()
      ensures rc in {Success, DataFull, HashFull, SearchFull}
      ensures rc == DataFull <==> old(dataOffset) + DataSize(key, value) > DataSegmentSize
      ensures rc == HashFull <==>
                && old(dataOffset) + DataSize(key, value) <= DataSegmentSize
                && (primaryHash, key) !in old(Contents()) && TableFull(old(hashTable[..]))
      ensures rc == SearchFull <==>
                && old(dataOffset) + DataSize(key, value) <= DataSegmentSize
                && ((primaryHash, key) in old(Contents()) || !TableFull(old(hashTable[..])))
                && old(searchOffset) == SearchIndexEntries
      ensures rc == Success ==>
                Contents() == old(Contents())[(primaryHash, key) := Item(primaryHash, secondaryHash, key, version, value)]
      ensures rc == Success ==>
                && dataOffset == old(dataOffset) + DataSize(key, value)
                && searchOffset == old(searchOffset) + 1
                && CountWhere(hashTable[..], IsLive)
                   == CountWhere(old(hashTable[..]), IsLive) + (if (primaryHash, key) in old(Contents()) then 0 else 1)
      ensures rc != Success ==> Img() == old(Img())
      ensures Extends(old(Img()), Img())
    {
      var size := DataSize(key, value);
      if dataOffset + size > DataSegmentSize {
        return DataFull;
      }
      var found, entry, offset := FindBucket(primaryHash, key);
      if entry == HashTableEntries {
        return HashFull;
      }
      if searchOffset == SearchIndexEntries {
        return SearchFull;
      }
      var r := Record(version, key, value);
      DataSizeIsLength(r);
      assert CanAppend(Img(), entry, r);
      if found {
        Replace(entry, offset, primaryHash, secondaryHash, r);
      } else {
        Insert(entry, primaryHash, secondaryHash, r);
      }
      rc := Success;
    }

    /**
     * The successful del of the key held in bucket entry: the tombstone is
     * appended, the key's entry is invalidated by the tombstone's offset and
     * the bucket becomes dead.
     */
    method Delete(entry: nat, offset: uint32, k: Key)
      requires Valid() && CanDelete(Img(), entry) && SlotHolds(Img(), entry, k)
      requires offset == EntryDataOffset(searchIndex[..], Hi(hashTable[entry]))
      modifies this, hashTable, searchIndex, data
      ensures Valid()
      ensures Contents() == old(Contents()) - {k}
      ensures Extends(old(Img()), Img())
      ensures Img() == TombstoneImage(InvalidateImage(old(Img()), offset, old(dataOffset)), entry, k.0)
      ensures hashTable[..] == old(hashTable[..])[entry := DeadWord(k.0)]
      ensures dataOffset == old(dataOffset) + TombstoneSize && searchOffset == old(searchOffset)
      ensures CountWhere(hashTable[..], IsLive) + 1 == CountWhere(old(hashTable[..]), IsLive)
    {
      ghost var img := Img();
      CountUpdate(img.table, entry, DeadWord(k.0), IsLive);
      DeleteStep(img, entry, k);
      ghost var mid := InvalidateImage(img, offset, dataOffset);
      InvalidateSearchIndex(offset, dataOffset);
      assert Img() == mid;
      AppendTombstone(entry, k.0);
      assert Img() == TombstoneImage(mid, entry, k.0);
    }

    /**
     * del: NOTFOUND when the key is not held, DATAFULL when the tombstone
     * does not fit; otherwise the tombstone is appended, the key's entry
     * is invalidated by the tombstone's offset and its bucket becomes dead.
     * A failed del changes nothing.
     */
    method Del(primaryHash: uint32, key: seq<byte>) returns (rc: ReturnCode)
      requires Valid()
      modifies this, hashTable, searchIndex, data
      ensures Valid()
      ensures rc in {Success, NotFound, DataFull}
      ensures rc == NotFound <==> (primaryHash, key) !in old(Contents())
      ensures rc == DataFull <==>
                (primaryHash, key) in old(Contents()) && old(dataOffset) + TombstoneSize > DataSegmentSize
      ensures rc == Success ==> Contents() == old(Contents()) - {(primaryHash, key)}
      ensures rc == Success ==>
                && dataOffset == old(dataOffset) + TombstoneSize
                && searchOffset == old(searchOffset)
                && CountWhere(hashTable[..], IsLive) + 1 == CountWhere(old(hashTable[..]), IsLive)
      ensures rc != Success ==> Img() == old(Img())
      ensures Extends(old(Img()), Img())
    {
      var found, entry, offset := FindBucket(primaryHash, key);
      if !found {
        return NotFound;
      }
      if dataOffset + TombstoneSize > DataSegmentSize {
        return DataFull;
      }
      Delete(entry, offset, (primaryHash, key));
      rc := Success;
    }

    // -------------------------------------------------------------------
    // Compaction
    // -------------------------------------------------------------------

    /** The item of a current search-index entry, read from its words and its record. */
    method EntryItem(p: nat) returns (item: Item)
      requires Valid() && 1 <= p < searchOffset && EntryInvalidation(searchIndex[..], p) == 0
      ensures ItemAt(Img(), p) == Some(item)
      ensures View(Img())[p] == Some(item)
    {
      ghost var img := Img();
      var first, second := searchIndex[2 * p], searchIndex[2 * p + 1];
      var off := Lo(second);
      assert EntryDataOffset(img.search, p) == off;
      RecordBytes(img.data[off..]);
      var version := DataVersion(off);
      var keySize := DataKeySize(off);
      var key := DataKey(off, keySize);
      var value := DataValue(off, keySize);
      item := Item(Lo(first), Hi(first), key, version, value);
    }

    /**
     * The insertion copy_to makes: the unchecked find_bucket, then the
     * append; the key is new, no bucket is dead and some bucket is free.
     */
    method InsertFresh(primaryHash: uint32, secondaryHash: uint32, r: Record)
      requires Valid() && NoDead(hashTable[..])
      requires CountWhere(View(Img()), IsSome) < HashTableEntries
      requires (primaryHash, r.key) !in Contents()
      requires CanAppend(Img(), 0, r)
      modifies this, hashTable, searchIndex, data
      ensures Valid() && NoDead(hashTable[..])
      ensures Contents() == old(Contents())[(primaryHash, r.key) := NewItem(primaryHash, secondaryHash, r)]
      ensures CountWhere(View(Img()), IsSome) == CountWhere(View(old(Img())), IsSome) + 1
      ensures searchOffset == old(searchOffset) + 1
      ensures dataOffset == old(dataOffset) + DataSize(r.key, r.value)
      ensures forall q | 1 <= q < searchOffset ::
                EntryInvalidation(searchIndex[..], q)
                == if q < old(searchOffset) then EntryInvalidation(old(searchIndex[..]), q) else 0
    {
      ghost var img := Img();
      ghost var free := CountBelowLength(img.table, IsLive);
      var entry := FindFreeBucket(primaryHash);
      InsertStep(img, entry, primaryHash, secondaryHash, r);
      AppendCurrent(img, entry, primaryHash, secondaryHash, r);
      AppendEntry(entry, primaryHash, secondaryHash, r);
    }

    /** The step of copy_to for a current entry p whose item matches c: s receives a copy. */
    method CopyMatch(c: Item -> bool, s: Shard, p: nat, item: Item, ghost src: Image)
      requires Valid() && Img() == src && p < src.searchOffset && View(src)[p] == Some(item) && c(item)
      requires s != this && s.hashTable != hashTable && s.hashTable != searchIndex
      requires s.searchIndex != hashTable && s.searchIndex != searchIndex && s.data != data
      requires s.Shaped() && CopiedUpTo(src, s.Img(), c, p)
      modifies s, s.hashTable, s.searchIndex, s.data
      ensures s.Shaped() && CopiedUpTo(src, s.Img(), c, p + 1)
    {
      ghost var dst := s.Img();
      var r := Record(item.version, item.key, item.value);
      CopyPrepare(src, dst, c, p, item);
      assert NewItem(item.primaryHash, item.secondaryHash, r) == item;
      s.InsertFresh(item.primaryHash, item.secondaryHash, r);
      CopyAppended(src, dst, s.Img(), c, p, item);
    }

    /**
     * One step of copy_to: s receives a copy of search-index entry p when
     * that entry is current and its item matches c.
     */
    method CopyEntry(c: Item -> bool, s: Shard, p: nat, ghost src: Image)
      requires Valid() && Img() == src && p < src.searchOffset
      requires s != this && s.hashTable != hashTable && s.hashTable != searchIndex
      requires s.searchIndex != hashTable && s.searchIndex != searchIndex && s.data != data
      requires s.Shaped() && CopiedUpTo(src, s.Img(), c, p)
      modifies s, s.hashTable, s.searchIndex, s.data
      ensures s.Shaped() && CopiedUpTo(src, s.Img(), c, p + 1)
    {
      if Hi(searchIndex[2 * p + 1]) == 0 {
        var item := EntryItem(p);
        if c(item) {
          CopyMatch(c, s, p, item, src);
        } else {
          CopySkip(src, s.Img(), c, p);
        }
      } else {
        assert EntryInvalidation(src.search, p) != 0;
        InvalidatedHoldsNothing(src, p);
        CopySkip(src, s.Img(), c, p);
      }
    }

    /** The walk of copy_to over the search index, from position 1 on. */
    method CopyEntries(c: Item -> bool, s: Shard, ghost src: Image)
      requires Valid() && Img() == src
      requires s != this && s.hashTable != hashTable && s.hashTable != searchIndex
      requires s.searchIndex != hashTable && s.searchIndex != searchIndex && s.data != data
      requires s.Shaped() && CopiedUpTo(src, s.Img(), c, 1)
      modifies s, s.hashTable, s.searchIndex, s.data
      ensures s.Shaped() && CopiedUpTo(src, s.Img(), c, src.searchOffset)
    {
      var p := 1;
      while p < searchOffset
        invariant 1 <= p <= searchOffset
        invariant Img() == src
        invariant s.Shaped() && CopiedUpTo(src, s.Img(), c, p)
      {
        CopyEntry(c, s, p, src);
        p := p + 1;
      }
    }

    /**
     * copy_to(c, s): erases s, then walks this shard's search index in
     * order and appends to s every current entry whose item matches the
     * coordinate c.  Afterwards s holds exactly the part of this shard's
     * map that matches c, has no dead bucket and no invalidated entry.
     */
    method CopyTo(c: Item -> bool, s: Shard)
      requires Valid() && s.Shaped()
      requires s.hashTable != hashTable && s.hashTable != searchIndex
      requires s.searchIndex != hashTable && s.searchIndex != searchIndex
      requires s.data != data
      modifies s, s.hashTable, s.searchIndex, s.data
      ensures s.Valid()
      ensures s.Contents() == FilterMap(Contents(), c)
      ensures NoDead(s.hashTable[..])
      ensures forall q | 1 <= q < s.searchOffset :: EntryInvalidation(s.searchIndex[..], q) == 0
      ensures s.dataOffset <= dataOffset && s.searchOffset <= searchOffset
    {
      assert s != this;
      ghost var src := Img();
      s.Erase();
      CopyStart(src, s.Img(), c);
      CopyEntries(c, s, src);
      CopyAll(src, c);
    }
  }
}
