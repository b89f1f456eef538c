# HyperDex hyperdisk shard

A model of one storage shard of HyperDex's disk layer (`hyperdisk::shard`),
with proofs about it. A shard is one fixed-capacity, memory-mapped region
holding three parts:

- a **hash table**: an open-addressed array of 64-bit words. The high 32 bits
  of a word say where in the search index the indexed object is found. The
  low 32 bits are the primary hash. A bucket is empty (never used), dead
  (deleted) or live;
- a **search index**: an append-only array of 128-bit entries, stored as two
  64-bit words. The first word packs the secondary hash (high) and the
  primary hash (low). The second packs the invalidation offset (high, 0 while
  current) and the data offset (low);
- a **data log**: an append-only byte region of records.

Two write cursors, `m_data_offset` and `m_search_offset`, say where the next
record and the next entry go.

The model is organised as follows:

- `Layout`, `DataLog`, `KeyMap`: the words, the records and the key-value map.
- `ShardImage`: the shard's state as a value (`Image`), what the shard holds
  (one optional item per search-index position, and the map they make up),
  and the invariant `Inv` that every operation keeps.
- `ShardSteps`: the effect of each mutation on an image, as a pure
  function: appending a record and its entry, invalidating the search index,
  appending a tombstone, erasing. These compose into one step per operation:
  a put of a new key, a put of a held key, a del, and an erase. Each of those
  four steps is proved to keep `Inv` and to change the map as the operation
  promises (`InsertStep`, `OverwriteStep`, `DeleteStep`, `EraseStep`).
  Invalidation alone does not keep `Inv`; only the whole step does.
- `Probe`, `Compaction`: lemmas about images. `Probe` says why the linear
  probe of `find_bucket` may stop. `Compaction` carries the exact-copy
  invariant of `copy_to` from one search-index position to the next.
- `Shard`: the class `Shard` with the three regions as arrays and the two
  cursors as fields. It has:
  - the record accessors;
  - both `find_bucket` probes as loops;
  - `invalidate_search_index`;
  - `get`, `put` and `del`;
  - `copy_to`.

  `WriteData`, `InvalidateSearchIndex`, `AppendEntry`, `AppendTombstone`,
  `Erase`, `Replace`, `Insert` and `Delete` are each proved to turn the
  shard's image into the image the matching pure effect describes.
  `Put` and `Del` choose between these and state what a caller needs:
  - the return code and the condition under which it is returned;
  - the new map;
  - the new cursors;
  - the change in the number of live buckets;
  - that a failed call changes nothing.

  `InsertFresh` and `CopyTo` state the new map and cursors as well.

The header `hyperdisk/shard.h` declares the class and states its contracts
in comments. Only `data_key_offset`, `inc` and `dec` have inline bodies
(hyperdisk/shard.h:137-138, 143-144). The model implements every core
member not listed under "## Left out", the way its comment describes where it
has one, and proves that comment. `data_key_offset` keeps its body.
`data_size` has no comment, and the model gives it the record layout below.

Model choices where the header says nothing:

- **Capacities:** 262144 buckets, 1048576 search-index entries and 2^30 data
  bytes.
- **Probe:** starts at `primary_hash % HASH_TABLE_ENTRIES` and is linear.
- **Record layout:** a little-endian u64 version, a u32 key size, the key, a
  u32 buffer count, then each buffer as a u32 length followed by its bytes.
- **Reserved slots:** search-index position 0 and data byte 0 are never
  used, so both cursors start at 1. This is what lets 0 mean "empty" in a
  bucket and "not invalidated" in an entry.
- **Table offset:** the header calls the high half of a bucket word the
  offset in the table at which the indexed object is found
  (hyperdisk/shard.h:67-69). The model reads this as a search-index
  position. Likewise, the `offset` that `find_bucket` returns for a found key
  (hyperdisk/shard.h:146-147) is read as the data offset of the search-index
  entry the bucket names: the offset of the older version's record.
- **Dead marker:** a bucket whose high half is 0 is empty; one whose high
  half is 0xFFFFFFFF is dead, and keeps its primary hash in the low half.
  The header says buckets can be dead or empty (hyperdisk/shard.h:148-149)
  but not how either is encoded.
- **Invalidation offset:** when `put` or `del` supersedes an entry, the
  offset it invalidates the entry with is the data offset of the new record
  or tombstone.
- **Tombstone:** `del` appends 8 zero bytes.
- **Order of `put`'s checks:** DATAFULL first, then HASHFULL (a new key and
  no free bucket), then SEARCHFULL. Nothing is written before all three pass.
- **Order of `del`'s checks:** NOTFOUND first, then DATAFULL (no room for the
  tombstone). Nothing is written before both pass.
- **Dead buckets:** `find_bucket` probes past dead buckets. When the key is
  absent, it gives back the first dead bucket it saw, else the empty bucket
  that ended the probe, else `HASH_TABLE_ENTRIES`. Stopping at the first
  dead bucket would break the promise that a key already in the table is
  found (hyperdisk/shard.h:145-152): the key may sit further along the probe,
  behind a bucket that was deleted after it was stored.
- **copy_to's walk:** `copy_to` walks the source's search index in order and
  copies every entry whose invalidation offset is 0. This is how the model
  reads "all non-stale data" (hyperdisk/shard.h:119-122): an entry is stale
  once something invalidated it. Under `Inv`, live buckets and current
  entries correspond one to one (`SlotsPointToCurrent`, `SlotsInjective`,
  `CurrentCovered`), so walking the live buckets of the hash table would
  copy the same items, in another order.
- **Coordinate:** the opaque predicate `c: Item -> bool`.

## Model

| member | source | states |
|---|---|---|
| Layout.Pack | hyperdisk/shard.h:67-70 | packing puts the first argument in the high 32 bits and the second in the low 32 bits: unpacking gives both back |
| Layout.PackHalves | hyperdisk/shard.h:80-81 | every 64-bit word is the packing of its high and low halves, so reading a word as two halves loses nothing |
| Layout.PackInjective | hyperdisk/shard.h:72-78 | two packed words are equal exactly when both halves are equal |
| Layout.LiveWord | hyperdisk/shard.h:67-70 | the word installed in a bucket is live and holds the search-index position high and the primary hash low |
| Layout.DeadWord | hyperdisk/shard.h:148-149 | a deleted bucket is dead, neither live nor empty, and keeps its hash |
| DataLog.U32RoundTrip | hyperdisk/shard.h:136 | a stored 32-bit key size reads back as the same number |
| DataLog.U32Bytes | hyperdisk/shard.h:136 | any four bytes are the encoding of the number they decode to |
| DataLog.U64RoundTrip | hyperdisk/shard.h:135 | a stored 64-bit version reads back as the same number |
| DataLog.U64Bytes | hyperdisk/shard.h:135 | any eight bytes are the encoding of the number they decode to |
| DataLog.DataSize | hyperdisk/shard.h:134 | data_size is larger than the version, the key-size field and the key together, and covers a length field per buffer |
| DataLog.DataSizeIsLength | hyperdisk/shard.h:134 | data_size of a key and value is the number of bytes their record takes in the log; a record of fewer than 2^32 bytes can be encoded |
| DataLog.BuffersRoundTrip | hyperdisk/shard.h:140 | the value buffers written after the count decode back to the same buffers, whatever follows |
| DataLog.RecordRoundTrip | hyperdisk/shard.h:134-140 | a record written to the log decodes back to the same version, key and value, whatever follows it |
| DataLog.BuffersBytes | hyperdisk/shard.h:140 | bytes that decode as n buffers begin with exactly the encoding of those buffers |
| DataLog.RecordBytes | hyperdisk/shard.h:134-140 | bytes that decode as a record begin with exactly that record's encoding, data_size bytes long |
| DataLog.RecordFrame | hyperdisk/shard.h:134-140 | a record reads the same from any log whose bytes agree on the record's data_size bytes |
| DataLog.KeyAtKeyOffset | hyperdisk/shard.h:137-138 | the key of the record at offset is stored at offset + 8 + 4, right after the version and the key size |
| DataLog.DataKeyOffset | hyperdisk/shard.h:137-138 | data_key_offset: offset + 8 + 4, past the 64-bit version and the 32-bit key size; `DataLog.KeyAtKeyOffset` proves the record's key is stored there |
| DataLog.ValueAt | hyperdisk/shard.h:140 | after the key of the record at offset comes the buffer count, and the buffers that follow decode to the record's value |
| DataLog.BufferAt | hyperdisk/shard.h:140 | the first of n buffers is its length field followed by that many bytes, and the other n-1 buffers come right after |
| KeyMap.ToMapDomain | hyperdisk/shard.h:119-121 | a key is in the shard's map exactly when some current search-index entry holds it |
| KeyMap.ToMapAt | hyperdisk/shard.h:154-157 | when no key occurs in two current entries, the map sends each current entry's key to that entry's item |
| KeyMap.ToMapClear | hyperdisk/shard.h:162-164 | invalidating one current entry removes exactly its key from the map |
| KeyMap.ReplaceItem | hyperdisk/shard.h:99-103 | invalidating a key's entry and appending a new one for the key rebinds the key to the new item, keeps keys unique and keeps the item count |
| KeyMap.FilterToMap | hyperdisk/shard.h:119-122 | keeping only the entries that match the coordinate keeps exactly the part of the map that matches it |
| KeyMap.CountFilter | hyperdisk/shard.h:119-122 | restricting to a coordinate never adds items |
| ShardImage.EntryPrimary | hyperdisk/shard.h:72-75 | the primary hash is the low half of an entry's first word; `ShardImage.EntryLayout` and `ShardImage.EntryWords` prove the layout round-trips |
| ShardImage.EntrySecondary | hyperdisk/shard.h:72-75 | the secondary hash is the high half of an entry's first word; proved with `ShardImage.EntryLayout` |
| ShardImage.EntryDataOffset | hyperdisk/shard.h:75-78 | the data offset is the low half of an entry's second word; proved with `ShardImage.EntryLayout` |
| ShardImage.EntryInvalidation | hyperdisk/shard.h:75-78 | the invalidation offset is the high half of an entry's second word; proved with `ShardImage.EntryLayout` |
| ShardImage.EntryLayout | hyperdisk/shard.h:72-81 | writing an entry's two packed words and reading its four fields gives back the primary hash, secondary hash, data offset and invalidation offset written |
| ShardImage.EntryWords | hyperdisk/shard.h:72-81 | each of an entry's two words is the packing of its two fields, so reading the fields loses nothing |
| ShardImage.InvalidatedHoldsNothing | hyperdisk/shard.h:76-78 | an entry with a non-zero invalidation offset contributes nothing to the shard's map |
| ShardImage.LiveSlotItem | hyperdisk/shard.h:67-70 | under the invariant a live bucket names a current entry with the bucket's primary hash and a whole record |
| ShardImage.SlotHoldsContents | hyperdisk/shard.h:145-147 | a key held by a live bucket is in the map, bound to the item of that bucket's entry |
| ShardImage.ContentsHeldBySlot | hyperdisk/shard.h:145-147 | every key in the map is held by some live bucket |
| ShardImage.SlotHoldsUnique | hyperdisk/shard.h:154-157 | two live buckets holding the same key are the same bucket |
| ShardImage.DataOffsetsDistinct | hyperdisk/shard.h:162-164 | distinct written entries record distinct data offsets, so invalidating by offset reaches only one entry |
| ShardImage.CurrentAtMostBuckets | hyperdisk/shard.h:150 | there are never more current entries than buckets |
| ShardSteps.InvalidatedEntry | hyperdisk/shard.h:162-164 | invalidate_search_index sets the invalidation offset of exactly the written entries whose data offset is to_invalidate, and keeps every hash and data offset |
| ShardSteps.InvalidatedStep | hyperdisk/shard.h:162-164 | looking at one more entry rewrites only that entry's second word, and only when its data offset is to_invalidate |
| ShardSteps.AppendNew | hyperdisk/shard.h:72-78 | the appended entry holds the primary and the secondary hash, the record's data offset and a zero invalidation offset, and its record decodes to what was put |
| ShardSteps.AppendView | hyperdisk/shard.h:48-49 | an append adds exactly one current item at the end and leaves every earlier entry's item unchanged |
| ShardSteps.AppendExtends | hyperdisk/shard.h:48-49 | an append keeps every written byte and every written entry's hashes, data offset and invalidation |
| ShardSteps.InvalidateView | hyperdisk/shard.h:162-164 | invalidating one entry's record by its data offset removes exactly that entry's item |
| ShardSteps.InvalidateExtends | hyperdisk/shard.h:76-78 | invalidation only ever changes an invalidation offset, and only from 0 to non-zero |
| ShardSteps.ExtendsTransitive | hyperdisk/shard.h:48-49 | append-only growth composes over several operations |
| ShardSteps.ViewTombstone | hyperdisk/shard.h:104-105 | appending a tombstone and marking the bucket dead leaves every entry's item unchanged |
| ShardSteps.ReachableInstall | hyperdisk/shard.h:145-150 | installing a live word in a bucket whose probe path has no empty bucket, or a dead word anywhere, keeps every live bucket reachable from its home |
| ShardSteps.InsertStep | hyperdisk/shard.h:99-103 | putting a new key into a free bucket on its probe path keeps the invariant, adds exactly that key with the new item, adds one item and keeps everything written |
| ShardSteps.OverwriteStep | hyperdisk/shard.h:99-103 | putting a key the shard holds keeps the invariant, rebinds the key to the new item, keeps the item count and keeps everything written |
| ShardSteps.DeleteStep | hyperdisk/shard.h:104-105 | deleting a held key keeps the invariant, removes exactly that key and keeps everything written |
| ShardSteps.EraseStep | hyperdisk/shard.h:119-121 | an erased shard satisfies the invariant, has no dead bucket and holds nothing |
| Probe.HolderOnPath | hyperdisk/shard.h:145-150 | the bucket holding a key lies on the probe path of the key's hash with no empty bucket before it |
| Probe.ProbeStopsAtEmpty | hyperdisk/shard.h:148-150 | a probe that reaches an empty bucket without finding the key proves the key absent |
| Probe.ProbeExhausted | hyperdisk/shard.h:150-152 | a probe that visits every bucket without finding the key proves the key absent |
| Probe.PathLiveFull | hyperdisk/shard.h:150 | a probe that finds every bucket live has found the table full |
| Probe.FullCount | hyperdisk/shard.h:150 | the table is full exactly when the number of live buckets equals HASH_TABLE_ENTRIES, so a put with fewer live buckets can always find a bucket |
| Compaction.CopyFits | hyperdisk/shard.h:119-122 | every current record of the source fits, in the destination, inside the space the source used up to it |
| Compaction.CopySkip | hyperdisk/shard.h:119-122 | an invalidated entry, or one whose item does not match the coordinate, is not copied, and the copy so far stays exact |
| Compaction.CopyFresh | hyperdisk/shard.h:154-157 | an item being copied has a key no earlier copied item has, so the copy never collides with itself |
| Compaction.CopyRoom | hyperdisk/shard.h:158-159 | the destination always has a free bucket for the next copy |
| Compaction.CopyPrepare | hyperdisk/shard.h:154-161 | before each copy the destination has a free bucket, lacks the key and has room for the record and its entry |
| Compaction.CopyAppended | hyperdisk/shard.h:119-122 | copying a matching current item extends the exact copy by one position |
| Compaction.CopyStart | hyperdisk/shard.h:119-121 | an erased destination is an exact copy of nothing |
| Compaction.CopyAll | hyperdisk/shard.h:119-122 | the items of all matching current entries make up exactly the part of the source's map that matches the coordinate |
| Shard.Shard.constructor | hyperdisk/shard.h:129 | a new shard satisfies the invariant, holds nothing, has every bucket empty and both cursors at the start |
| Shard.Shard.DataVersion | hyperdisk/shard.h:135 | data_version reads the version of the record at offset |
| Shard.Shard.DataKeySize | hyperdisk/shard.h:136 | data_key_size reads the length of the key of the record at offset |
| Shard.Shard.DataKey | hyperdisk/shard.h:139 | data_key reads keysize bytes, which are the key of the record at offset when keysize is its key size |
| Shard.Shard.ReadBuffer | hyperdisk/shard.h:140 | reads the first of n length-prefixed buffers and where the rest start |
| Shard.Shard.ReadBuffers | hyperdisk/shard.h:140 | reads n length-prefixed buffers, which are the buffers the bytes there decode to |
| Shard.Shard.DataValue | hyperdisk/shard.h:140 | data_value reads the value of the record at offset |
| Shard.Shard.FindBucket | hyperdisk/shard.h:145-153 | the checked find_bucket returns true exactly when the key is held, with its bucket and the data offset of its older version; otherwise a dead or empty bucket on the key's probe path, or HASH_TABLE_ENTRIES exactly when every bucket is live |
| Shard.Shard.BucketHolds | hyperdisk/shard.h:145-147 | one probe step: a live bucket holds the key exactly when its hash matches, its entry is current and its record has the key |
| Shard.Shard.FindFreeBucket | hyperdisk/shard.h:154-161 | the unchecked find_bucket, given no dead bucket and some free one, returns an empty bucket on the hash's probe path after live buckets only |
| Shard.Shard.WriteData | hyperdisk/shard.h:173-174 | copies bytes into the data log at a position, changing no other byte |
| Shard.Shard.InvalidateSearchIndex | hyperdisk/shard.h:162-164 | invalidate_search_index leaves the search index as `Invalidated` describes: exactly the matching entries get invalidate_with |
| Shard.Shard.AppendEntry | hyperdisk/shard.h:174-175 | appends the record and its entry at the two cursors, points the bucket at the entry and advances both cursors |
| Shard.Shard.AppendTombstone | hyperdisk/shard.h:104-105 | appends the tombstone at the data cursor and marks the bucket dead |
| Shard.Shard.Erase | hyperdisk/shard.h:119-121 | empties every bucket and resets both cursors |
| Shard.Shard.Get | hyperdisk/shard.h:96-98 | get returns only SUCCESS or NOTFOUND; SUCCESS exactly when the key is held, with its value and version |
| Shard.Shard.Replace | hyperdisk/shard.h:99-103 | a put of a held key turns the image into the invalidation of the old record followed by the append, keeps the invariant, rebinds the key to the new item, points the bucket at the new entry, advances the data cursor by data_size and the search cursor by one, and keeps the number of live buckets |
| Shard.Shard.Insert | hyperdisk/shard.h:99-103 | a put of a new key turns the image into the append, keeps the invariant, adds the key with the new item, makes the free bucket live, advances the data cursor by data_size and the search cursor by one, and adds one live bucket |
| Shard.Shard.Put | hyperdisk/shard.h:99-103 | put returns only SUCCESS, DATAFULL, HASHFULL or SEARCHFULL, each exactly under its condition. SUCCESS binds the key to the new item, advances the data cursor by data_size and the search cursor by one, and adds one live bucket exactly when the key was new. Failure changes nothing |
| Shard.Shard.Delete | hyperdisk/shard.h:104-105 | a del of a held key turns the image into the invalidation of the old record followed by the tombstone, keeps the invariant, removes exactly that key, makes the bucket dead, advances the data cursor by the tombstone's size, keeps the search cursor and removes one live bucket |
| Shard.Shard.Del | hyperdisk/shard.h:104-105 | del returns only SUCCESS, NOTFOUND or DATAFULL, each exactly under its condition. SUCCESS removes the key, advances the data cursor by the tombstone's size, keeps the search cursor and removes one live bucket. Failure changes nothing |
| Shard.Shard.EntryItem | hyperdisk/shard.h:72-78 | reads a current entry's hashes and its record, which together are the entry's item |
| Shard.Shard.InsertFresh | hyperdisk/shard.h:154-161 | the copy of one item into the destination: unchecked find_bucket, then append, adding the key with one more current entry and no dead bucket |
| Shard.Shard.CopyMatch | hyperdisk/shard.h:119-122 | copying a matching current entry keeps the destination an exact copy of the positions walked so far |
| Shard.Shard.CopyEntry | hyperdisk/shard.h:119-122 | one step of the walk copies entry p exactly when it is current and matches |
| Shard.Shard.CopyEntries | hyperdisk/shard.h:119-122 | the walk over the whole search index leaves an exact copy of all matching current entries |
| Shard.Shard.CopyTo | hyperdisk/shard.h:119-122 | copy_to erases the destination and leaves it valid, holding exactly the part of the source's map that matches the coordinate, with no dead bucket and no invalidated entry, and never uses more data-log bytes or search-index entries than the source |

## Left out

- `create` (hyperdisk/shard.h:92-93): creating, truncating and mapping the file is I/O. The constructor builds the initialised shard directly.
- `async` and `sync` (hyperdisk/shard.h:112-117), with SYNCFAILED and `errno`: they only flush the mapping to disk.
- `make_snapshot` and `shard_snapshot` (hyperdisk/shard.h:118): the snapshot class is not part of this model.
- `inc`, `dec` and `m_ref` (hyperdisk/shard.h:143-144, 170): atomic reference counting is a lifetime and concurrency concern.
- The locking rules and the tolerated races between get and put or del (hyperdisk/shard.h:48-62): the model is sequential.
- `stale_space` and `used_space` (hyperdisk/shard.h:106-111): only "a percentage" is promised, and the formula is not part of this model.
- The hash functions: the hashes are parameters, as in the header's signatures.
- `coordinate` (hyperdisk/shard.h:44): an opaque predicate on items. The class is not part of this model.
- `e::buffer`: a key is `seq<byte>` and a value is `seq<seq<byte>>`.
- Shard.Shard.CopyTo: makes no promise about the order in which the destination's entries are appended, beyond search-index order.
- Shard.Shard.FindBucket: on a missing key, the offset out-parameter is 0; the header leaves it unspecified.
- Shard.Shard.Put: on SUCCESS it states the new cursors and how many buckets are live, but not which bucket changed. `Replace` and `Insert` state the exact new hash table, with the bucket `find_bucket` chose; `Put` does not expose that bucket to its caller.
- Shard.Shard.Del: likewise states the number of live buckets after SUCCESS, not which bucket became dead. `Delete` states the exact new hash table.
- The byte layout of a record's value and the capacities of the three regions are model choices, as described above.
