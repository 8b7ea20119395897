# NITCbase storage core in Dafny

This project models the storage core of NITCbase, a small teaching relational database
written in C++, and proves properties of that model. The core has five parts:

- **The buffer pool** (`StaticBuffer`). It keeps a fixed array of frames with free, dirty,
  timeStamp and blockNum metadata. Logical timestamps approximate least-recently-used
  eviction. The pool also holds the block-allocation map, which is loaded from the first four
  disk blocks and written back, with every dirty frame, at teardown.
- **Record blocks** (`RecBuffer`, `BlockLayout`). A slotted 2048-byte block has a 32-byte
  header, one byte per slot of occupancy map, then fixed-width records of `numAttrs` 16-byte
  attributes. `getHeader`, `getRecord`, `getSlotMap` and `setRecord` work at exact byte
  offsets. `loadBlockAndGetBufferPtr` refreshes timestamps on a hit and fills a frame on a
  miss. `compareAttrs` is the three-valued attribute comparison.
- **The relation and attribute caches** (`RelCacheTable`, `AttrCacheTable`). There is one
  catalog entry and one attribute list per open relation id. Attributes are looked up by name
  or by offset, and each entry carries a search cursor.
- **The open-relation table** (`OpenRelTable`). It bootstraps both caches from fixed catalog
  slots, tears them down, and maps the two catalog names to their ids.
- **The block-access layer** (`BlockAccess`). It provides:
  - `linearSearch`, which resumes from the cursor kept in the relation cache;
  - `search`;
  - `insert`, which extends a relation's doubly-linked chain of record blocks when none has a
    free slot;
  - `renameRelation` and `renameAttribute`;
  - `deleteRelation`, which releases the relation's blocks, erases its attribute-catalog
    records and splices emptied blocks out of the attribute catalog's chain.

## Two levels

The model has two levels.

- **The byte level.** This covers the buffer pool and record blocks. The pool is a class over
  arrays: frame metadata, frame contents and the allocation map. It sits over a `Disk` of
  `DISK_BLOCKS` byte blocks. `RecBuffer` reads and writes frames at the offsets of
  `BlockLayout`.
  - The central invariant is `PoolSound`: no block is cached twice, and every clean frame
    mirrors its disk block.
  - `LogicalOf` gives the current content of a block: its frame when resident, else the disk
    copy.
  - Loading keeps `LogicalOf` of every block. Storing changes it for the one block written.
  - The destructor leaves every block's current content on the disk.
- **The decoded level.** This covers the block-access layer. A `RecordStore` holds one decoded
  `RecBlock` per disk block, plus the allocation map. A `RecBlock` is a header, a slot map
  `seq<bool>` and a map from slot to record `seq<Attr>`.
  - Each operation is a method that loops as the source does.
  - Each method's `ensures` ties its result and new state to a specification function:
    `Hits`/`NextHits` for scans, `InsertSpec`, `RenameRelationSpec`, `RenameAttributeSpec`
    and `DeleteRelationSpec`.
  - Lemmas prove what the source promises about those functions: scan order and
    completeness, slot choice, chain invariants, error cases, and what changes and what
    stays.

A scan is modelled as the sequence of places (chain index, slot) it reports. Consecutive
`linearSearch` calls driven by the cursor report that sequence one element at a time
(`ResumeAfterHit`). This is what the rename and delete loops rely on.

The by-offset `getAttrCatEntry` (AttrCacheTable.cpp:10-26) documents itself as returning
the attribute at the offset, and it reaches E_ATTRNOTEXIST only under the comment "there is
no attribute at this offset". The code never returns SUCCESS there, not even after copying a
matching entry. The model follows the code
(`GetAttrCatEntryByOffset`) and gives the evidently intended lookup beside it
(`GetAttrCatEntryAtOffset`); see Findings.

## Model

| member | source | states |
|---|---|---|
| StaticBuffer.StaticBuffer.constructor | NITCbase/mynitcbase/Buffer/StaticBuffer.cpp:9-20 | the allocation map holds the bytes of disk blocks 0..3 in order; every frame is free, clean, with timeStamp -1 and blockNum -1; the pool starts sound (clean frames mirror the disk) |
| StaticBuffer.StaticBuffer.Destroy | NITCbase/mynitcbase/Buffer/StaticBuffer.cpp:22-31 | the disk afterwards is the old disk with the allocation map written into blocks 0..3 and then every occupied dirty frame written to its block |
| StaticBuffer.FlushFramesAt | NITCbase/mynitcbase/Buffer/StaticBuffer.cpp:26-30 | after write-back, block b holds the frame that holds b when that frame is dirty, and its old disk content otherwise |
| StaticBuffer.FlushedImageIsLogical | NITCbase/mynitcbase/Buffer/StaticBuffer.cpp:22-31 | in a coherent pool with no block cached twice, after the destructor every block past the allocation map holds its current content, so no cached write is lost |
| StaticBuffer.StaticBuffer.IncrementTimeStamps | NITCbase/mynitcbase/Buffer/StaticBuffer.cpp:40-45 | every occupied frame is one tick older; free frames and all other fields are unchanged |
| StaticBuffer.FirstFreeFrom | NITCbase/mynitcbase/Buffer/StaticBuffer.cpp:50-56 | the result is -1 or a free frame, and every frame before it (from `from` on) is occupied |
| StaticBuffer.StaticBuffer.FreeFrameIndex | NITCbase/mynitcbase/Buffer/StaticBuffer.cpp:50-56 | returns the lowest free frame, or -1 when every frame is occupied |
| StaticBuffer.Victim | NITCbase/mynitcbase/Buffer/StaticBuffer.cpp:64-71 | the result has the largest timestamp of frames 0..n-1 and every earlier frame has a strictly smaller one (first index on ties) |
| StaticBuffer.StaticBuffer.OldestFrame | NITCbase/mynitcbase/Buffer/StaticBuffer.cpp:64-71 | with every frame occupied, returns the first frame with the largest timestamp |
| StaticBuffer.Chosen | NITCbase/mynitcbase/Buffer/StaticBuffer.cpp:50-75 | when some frame is free, the lowest free frame; when none is, the first frame with the largest timestamp |
| StaticBuffer.Evicted | NITCbase/mynitcbase/Buffer/StaticBuffer.cpp:72-74 | writing back the victim keeps the disk at DISK_BLOCKS blocks of BLOCK_SIZE bytes each |
| StaticBuffer.StaticBuffer.GetFreeBuffer | NITCbase/mynitcbase/Buffer/StaticBuffer.cpp:33-86 | E_OUTOFBOUND with no change for a block number outside [0, DISK_BLOCKS); otherwise all occupied frames age, the chosen frame becomes occupied, clean, holds blockNum with timestamp 0, no other entry changes beyond ageing, and the disk changes only by the write-back of a dirty victim |
| StaticBuffer.StaticBuffer.ClaimFrame | NITCbase/mynitcbase/Buffer/StaticBuffer.cpp:79-82 | frame v becomes occupied, clean, holds blockNum with timestamp 0; no other frame changes |
| StaticBuffer.FindFrameFrom | NITCbase/mynitcbase/Buffer/StaticBuffer.cpp:99-102 | the result is -1 or a frame holding b, and no frame before it (from `from` on) holds b |
| StaticBuffer.StaticBuffer.GetBufferNum | NITCbase/mynitcbase/Buffer/StaticBuffer.cpp:91-106 | E_OUTOFBOUND for an invalid block number, otherwise the first frame whose blockNum matches, otherwise E_BLOCKNOTINBUFFER |
| StaticBuffer.StaticBuffer.SetDirtyBit | NITCbase/mynitcbase/Buffer/StaticBuffer.cpp:108-132 | marks dirty exactly the frame holding the block and returns SUCCESS; E_OUTOFBOUND or E_BLOCKNOTINBUFFER with no change otherwise |
| StaticBuffer.StaticBuffer.GetStaticBlockType | NITCbase/mynitcbase/Buffer/StaticBuffer.cpp:134-144 | the allocation-map byte of the block, or E_OUTOFBOUND outside [0, DISK_BLOCKS) |
| Disk.Disk.ReadBlock | NITCbase/mynitcbase/Buffer/StaticBuffer.cpp:10-11 | returns exactly the stored content of the block, BLOCK_SIZE bytes |
| Disk.Disk.WriteBlock | NITCbase/mynitcbase/Buffer/StaticBuffer.cpp:72-74 | replaces the content of that block and of no other |
| BlockBuffer.LoadFrame | NITCbase/mynitcbase/Buffer/BlockBuffer.cpp:64-99 | the frame loadBlockAndGetBufferPtr hands out is a valid frame index |
| BlockBuffer.AfterHit | NITCbase/mynitcbase/Buffer/BlockBuffer.cpp:72-79 | a hit keeps frame contents, the disk and every frame's block, free and dirty bits; the hit frame's timestamp becomes 0, and every other occupied frame is one tick older |
| BlockBuffer.AfterMiss | NITCbase/mynitcbase/Buffer/BlockBuffer.cpp:82-92 | a miss leaves a well-formed pool whose chosen frame now holds the requested block |
| BlockBuffer.MissValid | NITCbase/mynitcbase/Buffer/BlockBuffer.cpp:82-92 | the pool built on a miss (aged metadata, claimed frame, block copied in, victim written back) is well formed |
| BlockBuffer.AfterLoad | NITCbase/mynitcbase/Buffer/BlockBuffer.cpp:64-99 | after loadBlockAndGetBufferPtr the frame LoadFrame names is occupied, holds the block and has timestamp 0; a hit changes no frame content and not the disk, a miss copies the block's disk content into that frame |
| BlockBuffer.FindFrameIgnoresTimes | NITCbase/mynitcbase/Buffer/BlockBuffer.cpp:72-79 | ageing timestamps does not change which frame holds a block |
| BlockBuffer.FindFrameHolder | NITCbase/mynitcbase/Buffer/BlockBuffer.cpp:67 | with no block cached twice, getBufferNum finds the occupied frame that holds the block |
| BlockBuffer.LoadHitKeepsContent | NITCbase/mynitcbase/Buffer/BlockBuffer.cpp:72-79 | a hit keeps the pool sound and the current content of every block |
| BlockBuffer.MissVictim | NITCbase/mynitcbase/Buffer/BlockBuffer.cpp:82-92 | on a miss the chosen frame is the free one when there is one, otherwise an occupied one, never one already holding the block; the disk copy of the block is kept |
| BlockBuffer.MissKeepsDistinct | NITCbase/mynitcbase/Buffer/BlockBuffer.cpp:82-92 | a miss keeps the metadata well formed and no block in two frames |
| BlockBuffer.MissKeepsCoherent | NITCbase/mynitcbase/Buffer/BlockBuffer.cpp:82-92 | after a miss every clean frame still mirrors its block on the disk |
| BlockBuffer.LoadMissKeepsContent | NITCbase/mynitcbase/Buffer/BlockBuffer.cpp:82-92 | a miss keeps the pool sound and the current content of every block |
| BlockBuffer.LoadKeepsContent | NITCbase/mynitcbase/Buffer/BlockBuffer.cpp:64-99 | hit or miss, the returned frame is occupied, holds the block, is the one getBufferNum finds, and holds the block's content; no block's content changes |
| BlockBuffer.WriteKeepsOthers | NITCbase/mynitcbase/Buffer/BlockBuffer.cpp:175-179 | storing new bytes into a resident block's frame and marking it dirty makes them that block's content and changes no other block's |
| BlockBuffer.RecBuffer.constructor | NITCbase/mynitcbase/Buffer/BlockBuffer.cpp:5-9 | the buffer names the given block of the given pool |
| BlockBuffer.RecBuffer.LoadBlockAndGetBufferPtr | NITCbase/mynitcbase/Buffer/BlockBuffer.cpp:64-99 | the pool steps as AfterLoad says, the result is LoadFrame and the frame holds the block's content |
| BlockBuffer.RecBuffer.GetHeader | NITCbase/mynitcbase/Buffer/BlockBuffer.cpp:11-29 | loads the block and returns lblock, rblock, numEntries, numAttrs and numSlots read from offsets 8, 12, 16, 20 and 24, with blockType and pblock left as the caller's structure had them |
| BlockBuffer.RecBuffer.GetRecord | NITCbase/mynitcbase/Buffer/BlockBuffer.cpp:31-53 | returns the numAttrs * ATTR_SIZE bytes at HEADER_SIZE + numSlots + numAttrs * ATTR_SIZE * slot of the block, after getHeader and a second load; when that range leaves the block (slot == numSlots, as linearSearch passes, can do so) the copy has no defined result and the model returns None |
| BlockBuffer.RecBuffer.GetSlotMap | NITCbase/mynitcbase/Buffer/BlockBuffer.cpp:104-126 | returns the numSlots bytes from HEADER_SIZE on, after getHeader; when the header's numSlots is negative or runs the map past the block the copy has no defined result and the model returns None |
| BlockBuffer.RecBuffer.SetRecord | NITCbase/mynitcbase/Buffer/BlockBuffer.cpp:143-187 | E_OUTOFBOUND with every block's content as it was when slot is outside [0, numSlots); otherwise writes the record at the offset getRecord reads, marks the frame dirty and changes no other block |
| BlockBuffer.RecBuffer.SetHeader | NITCbase/mynitcbase/BlockAccess/BlockAccess.cpp:389-397 | writes the seven header fields at their offsets, marks the frame dirty and changes no other block (setHeader is not part of this model's source files; this is its contract at the call site) |
| BlockBuffer.RecBuffer.StoreFrame | NITCbase/mynitcbase/Buffer/BlockBuffer.cpp:175-179 | the bytes go into the frame holding the block, that frame is marked dirty, and no other block's content changes |
| BlockBuffer.SetThenGetRecord | NITCbase/mynitcbase/Buffer/BlockBuffer.cpp:143-187 | after setRecord at a slot, the header and the slot map are unchanged and getRecord at that slot returns the record written |
| BlockBuffer.CStr | NITCbase/mynitcbase/Buffer/BlockBuffer.cpp:131 | the C string a character array stands for is the longest prefix of the array without a NUL: it is followed by a NUL or by the end of the array |
| BlockBuffer.CStrOfNulFree | NITCbase/mynitcbase/Buffer/BlockBuffer.cpp:131 | a string without a NUL is its own C string |
| BlockBuffer.CStrStopsAtNul | NITCbase/mynitcbase/Buffer/BlockBuffer.cpp:131 | for a string s without a NUL, the C string of s, a NUL and anything after it is s |
| BlockBuffer.StrCmpZeroIffSameCStr | NITCbase/mynitcbase/Buffer/BlockBuffer.cpp:131 | strcmp is 0 exactly when the two C strings (up to the first NUL) are equal |
| BlockBuffer.StrCmpAntisymmetric | NITCbase/mynitcbase/Buffer/BlockBuffer.cpp:131 | strcmp(s, t) == -strcmp(t, s) |
| BlockBuffer.StrCmpZeroIffEqual | NITCbase/mynitcbase/Buffer/BlockBuffer.cpp:131 | for NUL-free strings strcmp is 0 exactly for equal strings |
| BlockBuffer.Sign | NITCbase/mynitcbase/Buffer/BlockBuffer.cpp:135-140 | the result is -1, 0 or 1, with the sign of its argument |
| BlockBuffer.CompareAttrs | NITCbase/mynitcbase/Buffer/BlockBuffer.cpp:128-141 | the result is -1, 0 or 1: the sign of strcmp for STRING, and for any other type negative, zero or positive exactly as the first number is below, equal to or above the second |
| BlockBuffer.CompareAttrsAntisymmetric | NITCbase/mynitcbase/Buffer/BlockBuffer.cpp:128-141 | swapping the operands negates the comparison, for every type |
| BlockBuffer.CompareStringsZeroIffEqual | NITCbase/mynitcbase/Buffer/BlockBuffer.cpp:130-131 | on NUL-free strings a STRING comparison is 0 exactly when the strings are equal |
| BlockLayout.Int32At | NITCbase/mynitcbase/Buffer/BlockBuffer.cpp:22-26 | a 4-byte field decodes to a 32-bit signed integer |
| BlockLayout.Int32Bytes | NITCbase/mynitcbase/Buffer/BlockBuffer.cpp:22-26 | a 32-bit integer is stored in exactly four bytes |
| BlockLayout.Int32RoundTrip | NITCbase/mynitcbase/Buffer/BlockBuffer.cpp:22-26 | decoding the four bytes of an integer gives the integer back |
| BlockLayout.Int32BytesOfStored | NITCbase/mynitcbase/Buffer/BlockBuffer.cpp:22-26 | encoding an integer read from four bytes gives those bytes back |
| BlockLayout.Put | NITCbase/mynitcbase/Buffer/BlockBuffer.cpp:175-176 | memcpy into a block: the written range holds the data and every other byte is kept |
| BlockLayout.ReadHeader | NITCbase/mynitcbase/Buffer/BlockBuffer.cpp:22-26 | the header getHeader fills stays within 32-bit ranges exactly when the caller's blockType and pblock do, since those two are not read from the block |
| BlockLayout.ReadFullHeader | NITCbase/mynitcbase/Buffer/BlockBuffer.cpp:22-26 | reading all seven header words (getHeader's five plus blockType at 0 and pblock at 4) gives 32-bit fields |
| BlockLayout.WriteHeader | NITCbase/mynitcbase/BlockAccess/BlockAccess.cpp:389-397 | writing a header keeps the block a BLOCK_SIZE block |
| BlockLayout.WriteHeaderFrame | NITCbase/mynitcbase/BlockAccess/BlockAccess.cpp:389-397 | writing a header writes nothing at or after byte 28 |
| BlockLayout.WriteHeaderFields | NITCbase/mynitcbase/BlockAccess/BlockAccess.cpp:389-397 | after writing a header, bytes 4k..4k+3 hold field k (blockType, pblock, lblock, rblock, numEntries, numAttrs, numSlots) |
| BlockLayout.HeaderRoundTrip | NITCbase/mynitcbase/BlockAccess/BlockAccess.cpp:389-397 | reading back a written header gives every field that was written |
| BlockLayout.FullHeaderWriteBack | NITCbase/mynitcbase/BlockAccess/BlockAccess.cpp:419-422 | writing back a header read in full leaves the block byte for byte as it was, which is what the getHeader/setHeader pairs of insert and deleteRelation intend |
| BlockLayout.PartialHeaderWriteBack | NITCbase/mynitcbase/BlockAccess/BlockAccess.cpp:419-422 | as written, when the caller's structure holds a blockType other than the block's, a getHeader/setHeader pair changes the block |
| BlockLayout.RecordBytes | NITCbase/mynitcbase/Buffer/BlockBuffer.cpp:48-51 | getRecord copies exactly numAttrs * ATTR_SIZE bytes |
| BlockLayout.WriteRecord | NITCbase/mynitcbase/Buffer/BlockBuffer.cpp:175-176 | setRecord keeps the block a BLOCK_SIZE block |
| BlockLayout.SlotMapBytes | NITCbase/mynitcbase/Buffer/BlockBuffer.cpp:120-123 | getSlotMap copies exactly numSlots bytes |
| BlockLayout.RecordRoundTrip | NITCbase/mynitcbase/Buffer/BlockBuffer.cpp:175-176 | a record written at a slot is read back at that slot |
| BlockLayout.RecordsApart | NITCbase/mynitcbase/Buffer/BlockBuffer.cpp:175 | the records of two different slots of one block do not overlap |
| BlockLayout.WriteRecordFrame | NITCbase/mynitcbase/Buffer/BlockBuffer.cpp:175-176 | writing one record leaves the header, the slot map and every other slot's record byte for byte as they were |
| BlockLayout.SlotsFit | NITCbase/mynitcbase/Buffer/BlockBuffer.cpp:49 | every slot below the number of slots a block gives numAttrs attributes holds a record that lies inside the block |
| BlockLayout.LinearSearchReadRange | NITCbase/mynitcbase/BlockAccess/BlockAccess.cpp:56-63 | the range linearSearch copies on one pass is exactly one record long, whatever the slot |
| BlockLayout.LinearSearchReadsPastBlock | NITCbase/mynitcbase/BlockAccess/BlockAccess.cpp:56-63 | in a catalog block (six attributes, twenty slots) the pass with slot == numSlots copies bytes 1972..2067, twenty bytes past the 2048-byte block |
| RecordStore.Count | NITCbase/mynitcbase/BlockAccess/BlockAccess.cpp:614 | the number of occupied entries of a slot map is at most its length |
| RecordStore.CountExtremes | NITCbase/mynitcbase/BlockAccess/BlockAccess.cpp:614 | the count is 0 exactly when every entry is free, and equals the length exactly when every entry is occupied |
| RecordStore.CountClear | NITCbase/mynitcbase/BlockAccess/BlockAccess.cpp:606-615 | freeing an occupied slot lowers the count of occupied slots by exactly one, matching numEntries-- |
| RecordStore.CountSet | NITCbase/mynitcbase/BlockAccess/BlockAccess.cpp:455-461 | occupying a free slot raises the count by exactly one, matching numEntries++ |
| RecordStore.CountPositive | NITCbase/mynitcbase/BlockAccess/BlockAccess.cpp:620 | a slot map with an occupied slot counts at least one |
| RecordStore.CountAllFree | NITCbase/mynitcbase/BlockAccess/BlockAccess.cpp:404-408 | an all-free slot map counts zero, matching numEntries 0 of a new block |
| RecordStore.FirstUnused | NITCbase/mynitcbase/BlockAccess/BlockAccess.cpp:363-370 | the block allocation takes the lowest block marked unused, -1 when there is none |
| RecordStore.RecordStore.SetRecord | NITCbase/mynitcbase/Buffer/BlockBuffer.cpp:143-187 | decoded setRecord: the record goes into the slot and nothing else changes; E_OUTOFBOUND with nothing changed outside [0, numSlots) |
| RecordStore.RecordStore.SetHeader | NITCbase/mynitcbase/BlockAccess/BlockAccess.cpp:397 | setHeader replaces the block's header and nothing else |
| RecordStore.RecordStore.SetSlotMap | NITCbase/mynitcbase/BlockAccess/BlockAccess.cpp:408 | setSlotMap replaces the block's slot map by one of numSlots entries and changes nothing else (setSlotMap is not part of this model's source files) |
| RecordStore.RecordStore.ReleaseBlock | NITCbase/mynitcbase/BlockAccess/BlockAccess.cpp:563 | releaseBlock marks the block unused and changes no block content (releaseBlock is not part of this model's source files) |
| RecordStore.RecordStore.AllocRecBlock | NITCbase/mynitcbase/BlockAccess/BlockAccess.cpp:363-370 | the allocating constructor takes the lowest unused block as a REC block with an empty header, or E_DISKFULL with nothing changed |
| Chain.FreeSlotFrom | NITCbase/mynitcbase/BlockAccess/BlockAccess.cpp:327-332 | the result is -1 or a free slot, with every slot before it occupied |
| Chain.FreeBlockFrom | NITCbase/mynitcbase/BlockAccess/BlockAccess.cpp:311-349 | the chain index of the first block with a free slot, every block before it full, or the chain length |
| Chain.Placed | NITCbase/mynitcbase/BlockAccess/BlockAccess.cpp:442-462 | after placing, the slot is occupied and holds the record, numEntries is one higher, the rest of the header, the other slots and records of the block and every other block are unchanged |
| Chain.Linked | NITCbase/mynitcbase/BlockAccess/BlockAccess.cpp:389-439 | appending a block keeps the store at DISK_BLOCKS blocks |
| Chain.InsertChoosesFirstFreeSlot | NITCbase/mynitcbase/BlockAccess/BlockAccess.cpp:311-349 | insert places the record in the lowest free slot of the first block in chain order that has one: every slot before it in chain order is occupied; with no free slot every slot of the chain is occupied |
| Chain.InsertStoresRecord | NITCbase/mynitcbase/BlockAccess/BlockAccess.cpp:442-468 | a successful insert stores the record in a slot now occupied, in a block of the new chain, raises numRecs by one and changes no other slot and no other block's slot map or records |
| Chain.InsertErrors | NITCbase/mynitcbase/BlockAccess/BlockAccess.cpp:352-370 | E_MAXRELATIONS exactly for a full relation catalog, E_DISKFULL exactly for another full relation with no unused block, and on an error nothing changes |
| Chain.InsertAppendsBlock | NITCbase/mynitcbase/BlockAccess/BlockAccess.cpp:352-440 | when every block is full the lowest unused block is appended: REC, pblock -1, lblock the old tail, rblock -1, all slots but 0 free, numEntries 1 once the record is in; the old tail (or firstBlk) and lastBlk point at it |
| Chain.PlacedKeepsChain | NITCbase/mynitcbase/BlockAccess/BlockAccess.cpp:442-468 | storing a record in a free slot of a chain block keeps the chain well formed with numRecs one higher |
| Chain.LinkedKeepsChain | NITCbase/mynitcbase/BlockAccess/BlockAccess.cpp:372-440 | appending the lowest unused block keeps the chain well formed, doubly linked, with it as lastBlk (and firstBlk of an empty chain) |
| Chain.AppendKeepsChain | NITCbase/mynitcbase/BlockAccess/BlockAccess.cpp:389-423 | a store that gives the new block the tail header and changes only the old tail's rblock keeps the longer chain well formed |
| Chain.LinkedShape | NITCbase/mynitcbase/BlockAccess/BlockAccess.cpp:389-423 | the append writes the new block's header and free slot map and changes only rblock of the old tail |
| Chain.InsertKeepsChain | NITCbase/mynitcbase/BlockAccess/BlockAccess.cpp:290-471 | insert keeps a well-formed chain well formed: linked both ways, allocated, every numEntries counting its block and numRecs counting the chain |
| Scan.Hits | NITCbase/mynitcbase/BlockAccess/BlockAccess.cpp:46-122 | every place the scan reports lies on the chain at or after its start |
| Scan.HitsSound | NITCbase/mynitcbase/BlockAccess/BlockAccess.cpp:46-122 | every place the scan reports is an occupied matching slot at or after its start |
| Scan.HitsComplete | NITCbase/mynitcbase/BlockAccess/BlockAccess.cpp:46-122 | every occupied matching slot at or after the start is reported |
| Scan.HitsOrdered | NITCbase/mynitcbase/BlockAccess/BlockAccess.cpp:62-79 | places are reported in strictly increasing (block, slot) scan order, none twice |
| Scan.HitsFirst | NITCbase/mynitcbase/BlockAccess/BlockAccess.cpp:102-119 | the scan reports nothing exactly when no slot matches; otherwise its first report is the first matching slot |
| Scan.HitsResume | NITCbase/mynitcbase/BlockAccess/BlockAccess.cpp:35-39 | resuming at the slot after the first hit reports exactly the remaining hits |
| Scan.HitsFrame | NITCbase/mynitcbase/BlockAccess/BlockAccess.cpp:46-122 | a scan depends only on the blocks it has still to visit, and only from its start slot |
| Scan.HitsStep | NITCbase/mynitcbase/BlockAccess/BlockAccess.cpp:72-121 | inside a block a matching slot is reported first and any other slot is passed over |
| RelCache.RelCatEntryToRecord | NITCbase/mynitcbase/Cache/OpenRelTable.cpp:21-24 | a relation-catalog entry is stored as six attributes |
| RelCache.RelCatEntryRoundTrip | NITCbase/mynitcbase/Cache/OpenRelTable.cpp:21-24 | decoding a stored entry gives the entry back (recordToRelCatEntry is not part of this model's source files) |
| RelCache.RelCatRecordRoundTrip | NITCbase/mynitcbase/Cache/OpenRelTable.cpp:21-24 | encoding a decoded well-typed record gives the record back |
| RelCache.EntryOf | NITCbase/mynitcbase/BlockAccess/BlockAccess.cpp:22-23 | getRelCatEntry: E_OUTOFBOUND outside the table, E_RELNOTOPEN for an empty slot, otherwise the cached entry |
| RelCache.RelCacheTable.constructor | NITCbase/mynitcbase/Cache/OpenRelTable.cpp:8-11 | every slot of the relation cache is empty |
| RelCache.RelCacheTable.GetRelCatEntry | NITCbase/mynitcbase/BlockAccess/BlockAccess.cpp:22-23 | the cached catalog entry of the relation, or the error EntryOf reports |
| RelCache.RelCacheTable.GetSearchIndex | NITCbase/mynitcbase/BlockAccess/BlockAccess.cpp:8-9 | the relation's cursor, or the error EntryOf reports |
| RelCache.RelCacheTable.SetRelCatEntry | NITCbase/mynitcbase/BlockAccess/BlockAccess.cpp:428-431 | an open relation gets the new entry, marked dirty; otherwise the error and no change |
| RelCache.RelCacheTable.SetSearchIndex | NITCbase/mynitcbase/BlockAccess/BlockAccess.cpp:115-116 | an open relation gets the new cursor; otherwise the error and no change |
| RelCache.RelCacheTable.ResetSearchIndex | NITCbase/mynitcbase/BlockAccess/BlockAccess.cpp:132 | an open relation's cursor becomes {-1, -1}; otherwise the error and no change |
| RelCache.SearchIndexOverride | NITCbase/mynitcbase/BlockAccess/BlockAccess.cpp:132-139 | a second cursor set on the same relation overrides the first |
| RelCache.SetThenGetSearchIndex | NITCbase/mynitcbase/BlockAccess/BlockAccess.cpp:115-116 | a cursor set on one relation is read back there and no other relation's entry changes |
| AttrCache.AttrCatEntryToRecord | NITCbase/mynitcbase/Cache/AttrCacheTable.cpp:32-40 | an attribute-catalog entry is stored as six attributes |
| AttrCache.AttrCatEntryRoundTrip | NITCbase/mynitcbase/Cache/AttrCacheTable.cpp:32-40 | recordToAttrCatEntry decodes by catalog index: decoding the stored form of an entry gives relName, attrName, attrType, offset, primaryFlag and rootBlock back |
| AttrCache.FirstNamed | NITCbase/mynitcbase/Cache/AttrCacheTable.cpp:54-59 | the first entry whose attrName strcmp finds equal to the name, every earlier entry compared unequal, or -1 |
| AttrCache.FirstAtOffset | NITCbase/mynitcbase/Cache/AttrCacheTable.cpp:97-106 | the first entry with that offset, every earlier entry having another, or -1 |
| AttrCache.CopyMatches | NITCbase/mynitcbase/Cache/AttrCacheTable.cpp:18-22 | the by-offset loop leaves the buffer holding the last entry at that offset, or untouched when there is none |
| AttrCache.WithCursor | NITCbase/mynitcbase/Cache/AttrCacheTable.cpp:126 | only the cursor of the one entry changes; every other entry and field stays |
| AttrCache.ListOf | NITCbase/mynitcbase/Cache/AttrCacheTable.cpp:47-50 | E_OUTOFBOUND for relId outside [0, MAX_OPEN), E_RELNOTOPEN for an empty slot, otherwise the relation's list |
| AttrCache.NamedEntry | NITCbase/mynitcbase/Cache/AttrCacheTable.cpp:45-63 | getAttrCatEntry by name: the first entry strcmp finds so named, SUCCESS exactly when one is, E_ATTRNOTEXIST otherwise, after the two relId checks |
| AttrCache.NamedCursor | NITCbase/mynitcbase/Cache/AttrCacheTable.cpp:65-86 | getSearchIndex by name: the cursor of the first entry so named, or E_ATTRNOTEXIST, after the relId checks |
| AttrCache.OffsetCursor | NITCbase/mynitcbase/Cache/AttrCacheTable.cpp:88-109 | getSearchIndex by offset: the cursor of the first entry at that offset, or E_ATTRNOTEXIST, after the relId checks |
| AttrCache.SetThenGetNamedCursor | NITCbase/mynitcbase/Cache/AttrCacheTable.cpp:111-132 | after a successful setSearchIndex by name, getSearchIndex by that name returns the value set |
| AttrCache.SetThenGetOffsetCursor | NITCbase/mynitcbase/Cache/AttrCacheTable.cpp:134-156 | after a successful setSearchIndex by offset, getSearchIndex at that offset returns the value set |
| AttrCache.FirstNamedSameNames | NITCbase/mynitcbase/Cache/AttrCacheTable.cpp:54-59 | the by-name lookup depends only on the entries' metadata, not on their cursors |
| AttrCache.FirstAtOffsetSameOffsets | NITCbase/mynitcbase/Cache/AttrCacheTable.cpp:97-106 | the by-offset lookup depends only on the entries' metadata, not on their cursors |
| AttrCache.AttrCacheTable.constructor | NITCbase/mynitcbase/Cache/OpenRelTable.cpp:8-11 | every slot of the attribute cache is empty |
| AttrCache.AttrCacheTable.GetAttrCatEntry | NITCbase/mynitcbase/Cache/AttrCacheTable.cpp:45-63 | the loop over the list returns exactly what NamedEntry specifies: E_OUTOFBOUND, E_RELNOTOPEN, the first entry strcmp finds so named, or E_ATTRNOTEXIST |
| AttrCache.AttrCacheTable.GetAttrCatEntryByOffset | NITCbase/mynitcbase/Cache/AttrCacheTable.cpp:10-26 | as written: the buffer ends with the last entry at that offset (or as given) and the status is never SUCCESS |
| AttrCache.AttrCacheTable.GetAttrCatEntryAtOffset | NITCbase/mynitcbase/Cache/AttrCacheTable.cpp:10-26 | as intended: SUCCESS exactly when an entry has that offset, with the first such entry; E_ATTRNOTEXIST otherwise, after the relId checks |
| AttrCache.AttrCacheTable.GetSearchIndex | NITCbase/mynitcbase/Cache/AttrCacheTable.cpp:65-86 | the loop over the list returns exactly what NamedCursor specifies: the relId errors, the cursor of the first entry strcmp finds so named, or E_ATTRNOTEXIST |
| AttrCache.AttrCacheTable.GetSearchIndexAt | NITCbase/mynitcbase/Cache/AttrCacheTable.cpp:88-109 | the loop over the list returns exactly what OffsetCursor specifies: the relId errors, the cursor of the first entry at that offset, or E_ATTRNOTEXIST |
| AttrCache.AttrCacheTable.SetSearchIndex | NITCbase/mynitcbase/Cache/AttrCacheTable.cpp:111-132 | the loop, comparing names with strcmp, changes the table as SetNamedCursor says (see SetNamedCursorFrame) and returns its status |
| AttrCache.AttrCacheTable.SetSearchIndexAt | NITCbase/mynitcbase/Cache/AttrCacheTable.cpp:134-156 | the first entry at that offset gets the cursor; the status and the new table are those of the relId checks and the traversal |
| AttrCache.AttrCacheTable.ResetSearchIndex | NITCbase/mynitcbase/Cache/AttrCacheTable.cpp:158-164 | setSearchIndex by name with {-1, -1}, returning its status |
| AttrCache.AttrCacheTable.ResetSearchIndexAt | NITCbase/mynitcbase/Cache/AttrCacheTable.cpp:166-171 | setSearchIndex by offset with {-1, -1}, returning its status |
| AttrCache.SetNamedCursorFrame | NITCbase/mynitcbase/Cache/AttrCacheTable.cpp:111-132 | setSearchIndex by name succeeds exactly when the relation is open and has an entry so named; it then changes only that first entry's cursor; other relations and every other entry and field stay, and on an error nothing changes |
| AttrCache.ByOffsetLookupMissesItsHit | NITCbase/mynitcbase/Cache/AttrCacheTable.cpp:10-26 | for a relation whose one attribute sits at the offset, the as-written lookup copies it but reports E_ATTRNOTEXIST, while the intended lookup returns it |
| OpenRelTable.CatalogAttrList | NITCbase/mynitcbase/Cache/OpenRelTable.cpp:54-76 | the list holds one entry per attribute-catalog slot first..first+n-1, in slot order, each with recId {ATTRCAT_BLOCK, slot} |
| OpenRelTable.ReadAttrList | NITCbase/mynitcbase/Cache/OpenRelTable.cpp:62-76 | the loop reads exactly CatalogAttrList of those slots |
| OpenRelTable.ReadThirdAttrList | NITCbase/mynitcbase/Cache/OpenRelTable.cpp:114-130 | the loop for id 2 builds slots 12..12+numAttrs-1 in order, or leaves the attribute catalog's list when numAttrs <= 0 |
| OpenRelTable.OpenRelTable.constructor | NITCbase/mynitcbase/Cache/OpenRelTable.cpp:5-131 | relation ids 0, 1, 2 hold the relation-catalog records of slots 0, 1, 2 with recId {RELCAT_BLOCK, slot}; attribute lists are slots 0..5, 6..11 and 12..; every other slot of both caches is empty |
| OpenRelTable.OpenRelTable.Destroy | NITCbase/mynitcbase/Cache/OpenRelTable.cpp:133-150 | afterwards every slot of both caches is empty |
| OpenRelTable.GetRelId | NITCbase/mynitcbase/Cache/OpenRelTable.cpp:157-168 | a name whose C string is RELATIONCAT maps to 0, one whose C string is ATTRIBUTECAT to 1, and every other name gives E_RELNOTOPEN |
| OpenRelTable.GetRelIdStopsAtNul | NITCbase/mynitcbase/Cache/OpenRelTable.cpp:157-168 | strcmp stops at a NUL, so RELATIONCAT followed by a NUL and anything else maps to 0 |
| OpenRelTable.GetRelIdFindsLoadedCatalog | NITCbase/mynitcbase/Cache/OpenRelTable.cpp:157-168 | on a catalog whose first two records name the catalogs, the id getRelId returns is that of the relation loaded there, whose name is the same C string |
| OpenRelTable.ThirdRelationHasNoId | NITCbase/mynitcbase/Cache/OpenRelTable.cpp:157-168 | getRelId never returns 2, so the relation the constructor loads at id 2 cannot be found by name |
| Catalog.SetField | NITCbase/mynitcbase/BlockAccess/BlockAccess.cpp:200-201 | after setting attribute i, attribute i holds the value and every other attribute is kept |
| Catalog.SetFieldIdempotent | NITCbase/mynitcbase/BlockAccess/BlockAccess.cpp:200-201 | setting the same attribute to the same value twice is setting it once |
| Catalog.WithField | NITCbase/mynitcbase/BlockAccess/BlockAccess.cpp:199-202 | getRecord, one field replaced, setRecord: only that record of that block changes, and no header or slot map |
| Catalog.RenameFields | NITCbase/mynitcbase/BlockAccess/BlockAccess.cpp:196-203 | the renames of a sequence of places keep the store at DISK_BLOCKS blocks |
| Catalog.RenameFieldsNext | NITCbase/mynitcbase/BlockAccess/BlockAccess.cpp:196-203 | one more pass of the rename loop is one more field write |
| Catalog.RenameFieldsShape | NITCbase/mynitcbase/BlockAccess/BlockAccess.cpp:196-203 | the rename loop changes no header and no slot map |
| Catalog.RenameFieldsWrites | NITCbase/mynitcbase/BlockAccess/BlockAccess.cpp:196-203 | every record the rename loop visits has the field set and its other attributes kept |
| Catalog.RenameFieldsKeeps | NITCbase/mynitcbase/BlockAccess/BlockAccess.cpp:196-203 | every record the rename loop does not visit stays as it was |
| Catalog.WriteThenRenameFields | NITCbase/mynitcbase/BlockAccess/BlockAccess.cpp:176-203 | the relation-catalog write followed by the loop sets the field in that record and every visited record, keeps every other record and every header and slot map |
| Catalog.ScanPastWrite | NITCbase/mynitcbase/BlockAccess/BlockAccess.cpp:196-203 | a scan resumed past a written slot reports what it reported before the write |
| Catalog.PathSameShape | NITCbase/mynitcbase/BlockAccess/BlockAccess.cpp:196-203 | field writes keep the rblock chains, since headers and slot maps are unchanged |
| Unlink.ReleaseAll | NITCbase/mynitcbase/BlockAccess/BlockAccess.cpp:555-564 | after releasing the chain d exactly the blocks of d are unused and every other entry is kept |
| Unlink.Splice | NITCbase/mynitcbase/BlockAccess/BlockAccess.cpp:620-658 | a splice, when defined, keeps the state well formed |
| Unlink.Cleared | NITCbase/mynitcbase/BlockAccess/BlockAccess.cpp:604-615 | the slot is free and numEntries one lower; the rest of the header, the other slots, the records, every other block, the allocation map and the relation cache are unchanged |
| Unlink.EraseAttr | NITCbase/mynitcbase/BlockAccess/BlockAccess.cpp:588-658 | a pass of the attribute loop, when defined, keeps the state well formed |
| Unlink.EraseAll | NITCbase/mynitcbase/BlockAccess/BlockAccess.cpp:576-665 | the attribute loop, when defined, keeps the state well formed |
| Unlink.EraseAllNext | NITCbase/mynitcbase/BlockAccess/BlockAccess.cpp:576-665 | one more pass of the loop moves the cursor onto the next place and is one more EraseAttr |
| Unlink.ClearStep | NITCbase/mynitcbase/BlockAccess/BlockAccess.cpp:604-615 | freeing a matching slot of the chain keeps the chain in shape, leaves the first block nonempty, and changes nothing the scan has still to look at |
| Unlink.ClearKeepsFirst | NITCbase/mynitcbase/BlockAccess/BlockAccess.cpp:652-654 | the first block of the attribute catalog keeps a record of another relation, so it never empties |
| Unlink.SpliceStep | NITCbase/mynitcbase/BlockAccess/BlockAccess.cpp:620-658 | splicing an emptied later block is defined, keeps the chain in shape and keeps every block still to be scanned as the scan sees it |
| Unlink.EraseStep | NITCbase/mynitcbase/BlockAccess/BlockAccess.cpp:588-658 | a pass on a matching slot of the chain is defined, keeps the chain in shape, and the rest of the scan reports the same places |
| Unlink.EraseAttrEffect | NITCbase/mynitcbase/BlockAccess/BlockAccess.cpp:604-658 | a pass frees the slot and lowers numEntries; when that reaches 0 the block is released, left.rblock = its rblock, and right.lblock = its lblock or, for the tail, the attribute catalog's lastBlk = its lblock; no other block changes |
| Unlink.EraseAttrCursor | NITCbase/mynitcbase/BlockAccess/BlockAccess.cpp:588-658 | a pass leaves the attribute catalog's cursor and firstBlk alone |
| Unlink.EraseAttrKeeps | NITCbase/mynitcbase/BlockAccess/BlockAccess.cpp:588-658 | a pass frees its slot, occupies none, keeps every record, releases at most its block, keeps every released block released, and keeps the relation catalog's cache entry and the attribute catalog's numRecs |
| Unlink.EraseAllKeeps | NITCbase/mynitcbase/BlockAccess/BlockAccess.cpp:576-665 | after the loop every visited place is free, no slot became occupied, every record, the relation catalog's cache entry and the attribute catalog's numRecs are kept, and only blocks of the attribute catalog can be released |
| Unlink.EraseAllClears | NITCbase/mynitcbase/BlockAccess/BlockAccess.cpp:576-665 | erasing every hit of a scan of the chain leaves no slot of the chain satisfying the scan's condition |
| BlockAccess.ResumeAfterHit | NITCbase/mynitcbase/BlockAccess/BlockAccess.cpp:30-39 | after a hit the cursor sits on it and the next calls report the remaining hits, so consecutive linearSearch calls enumerate every hit once, in scan order |
| BlockAccess.AttrScanStep | NITCbase/mynitcbase/BlockAccess/BlockAccess.cpp:238-247 | the next linearSearch of renameAttribute's loop reports the next record of the relation and moves the cursor onto it |
| BlockAccess.RenameLoopStep | NITCbase/mynitcbase/BlockAccess/BlockAccess.cpp:196-203 | one pass of renameRelation's loop keeps its invariant: the first i records renamed, the cursor on the last, the scan reporting the rest |
| BlockAccess.FirstNamedHit | NITCbase/mynitcbase/BlockAccess/BlockAccess.cpp:263-266 | the first record of the relation named newName, every earlier one named otherwise, or |h| |
| BlockAccess.LastNamedHit | NITCbase/mynitcbase/BlockAccess/BlockAccess.cpp:256-259 | the last record so far named oldName, every later one named otherwise, or -1 |
| BlockAccess.NamedHitStep | NITCbase/mynitcbase/BlockAccess/BlockAccess.cpp:254-266 | one more record of the loop: E_ATTREXIST is due exactly at the first record named newName, and the remembered record is this one when it is named oldName, otherwise the one before |
| BlockAccess.RelHitSlot | NITCbase/mynitcbase/BlockAccess/BlockAccess.cpp:170-172 | the relation-catalog record a lookup finds is a slot in RELCAT_BLOCK |
| BlockAccess.ScanCarries | NITCbase/mynitcbase/BlockAccess/BlockAccess.cpp:576-586 | a scan resumed from the same cursor over blocks it sees the same way reports the same hits |
| BlockAccess.EraseKeepsScan | NITCbase/mynitcbase/BlockAccess/BlockAccess.cpp:588-658 | erasing the record the cursor sits on leaves the rest of the scan as it was |
| BlockAccess.DeleteHitNext | NITCbase/mynitcbase/BlockAccess/BlockAccess.cpp:579-586 | in deleteRelation's loop the next linearSearch reports the next matching occupied record and moves the cursor onto it |
| BlockAccess.DeleteLoopStep | NITCbase/mynitcbase/BlockAccess/BlockAccess.cpp:576-665 | one pass of deleteRelation's attribute loop is defined and keeps its invariant |
| BlockAccess.DeleteLoopRest | NITCbase/mynitcbase/BlockAccess/BlockAccess.cpp:576-665 | from any state of the attribute loop, the remaining passes are defined and keep every block outside the attribute catalog |
| BlockAccess.BlockAccess.NextMatch | NITCbase/mynitcbase/BlockAccess/BlockAccess.cpp:46-125 | the loop returns the first hit of the scan from (block, slot), or {-1, -1} when there is none; the condition takes offset and type from the cache, or from the uninitialised entry when the cache has no such attribute |
| BlockAccess.BlockAccess.LinearSearch | NITCbase/mynitcbase/BlockAccess/BlockAccess.cpp:5-126 | starts at (firstBlk, 0) for the cursor {-1, -1}, else after the cursor; returns the next hit and sets the cursor to it, or {-1, -1} with the cursor untouched; for an attribute the cache lacks, the hits are those of the uninitialised entry's offset and type |
| BlockAccess.BlockAccess.Search | NITCbase/mynitcbase/BlockAccess/BlockAccess.cpp:478-502 | SUCCESS with exactly the record of the next hit and the cursor on it, or E_NOTFOUND with the cursor untouched, for any attribute name |
| BlockAccess.BlockAccess.FindFreeSlot | NITCbase/mynitcbase/BlockAccess/BlockAccess.cpp:311-349 | stops at the first free slot of the first block that has one; without one reports {-1, -1} and the chain's last block |
| BlockAccess.BlockAccess.PlaceRecord | NITCbase/mynitcbase/BlockAccess/BlockAccess.cpp:442-462 | the store becomes Placed: record stored, slot occupied, numEntries one higher |
| BlockAccess.BlockAccess.AppendBlock | NITCbase/mynitcbase/BlockAccess/BlockAccess.cpp:352-440 | E_DISKFULL with nothing changed, or the lowest unused block linked after the tail with firstBlk/lastBlk updated |
| BlockAccess.BlockAccess.Insert | NITCbase/mynitcbase/BlockAccess/BlockAccess.cpp:290-471 | the status, store, allocation map and relation-cache entry are those InsertSpec decides; nothing changes on an error |
| BlockAccess.BlockAccess.RenameAttrCatRelName | NITCbase/mynitcbase/BlockAccess/BlockAccess.cpp:185-203 | the loop renames the first noAttrs attribute-catalog records of oldName (none for noAttrs <= 0) and leaves the cursor on the last |
| BlockAccess.BlockAccess.RenameNextAttrRecord | NITCbase/mynitcbase/BlockAccess/BlockAccess.cpp:198-202 | one pass renames the next record of oldName and the scan continues with the hits after it |
| BlockAccess.BlockAccess.RenameRelation | NITCbase/mynitcbase/BlockAccess/BlockAccess.cpp:128-206 | the status, store and relation cache are those RenameRelationSpec decides |
| BlockAccess.BlockAccess.RenameFoundRelation | NITCbase/mynitcbase/BlockAccess/BlockAccess.cpp:167-205 | the relation-catalog record gets newName and the attribute-catalog scan renames as RenameFoundSpec says |
| BlockAccess.BlockAccess.SearchRelCat | NITCbase/mynitcbase/BlockAccess/BlockAccess.cpp:129-139 | after the reset, the first relation-catalog record named name in a slot of RELCAT_BLOCK, or {-1, -1}, and the cursor left on it |
| BlockAccess.BlockAccess.RenameAttribute | NITCbase/mynitcbase/BlockAccess/BlockAccess.cpp:208-288 | the status, store and relation cache are those RenameAttributeSpec decides |
| BlockAccess.BlockAccess.RenameAttrRecord | NITCbase/mynitcbase/BlockAccess/BlockAccess.cpp:227-287 | the attribute-catalog part as AttrRenameSpec decides |
| BlockAccess.BlockAccess.FindAttrToRename | NITCbase/mynitcbase/BlockAccess/BlockAccess.cpp:231-267 | taken exactly when a record of the relation is named newName, with the cursor on the first such; otherwise the last record named oldName and the cursor on the relation's last record |
| BlockAccess.BlockAccess.InspectNextAttr | NITCbase/mynitcbase/BlockAccess/BlockAccess.cpp:238-266 | one pass: done exactly at the end of the scan; otherwise the cursor moves on, the remembered record is updated and named reports newName exactly at its first record |
| BlockAccess.BlockAccess.NextAttrOfRel | NITCbase/mynitcbase/BlockAccess/BlockAccess.cpp:240-247 | one linearSearch reports the next attribute record of the relation and moves the cursor, or {-1, -1} with nothing changed |
| BlockAccess.BlockAccess.DeleteRelation | NITCbase/mynitcbase/BlockAccess/BlockAccess.cpp:504-707 | the status, store, allocation map and relation cache are those DeleteRelationSpec decides, which ends with the corrected relation-catalog write-back of the second Findings row |
| BlockAccess.BlockAccess.ReleaseRecordBlocks | NITCbase/mynitcbase/BlockAccess/BlockAccess.cpp:555-564 | every block of the record chain is released; no block content changes |
| BlockAccess.BlockAccess.DeleteAttrRecords | NITCbase/mynitcbase/BlockAccess/BlockAccess.cpp:571-665 | the loop erases the attribute-catalog records of the relation as EraseAll says, counts them, and changes no block outside the attribute catalog |
| BlockAccess.BlockAccess.EraseHit | NITCbase/mynitcbase/BlockAccess/BlockAccess.cpp:588-658 | erasing the record the cursor was moved onto keeps the loop invariant |
| BlockAccess.BlockAccess.NextAttrToDelete | NITCbase/mynitcbase/BlockAccess/BlockAccess.cpp:579-586 | one linearSearch reports the next record to delete and moves the cursor, or {-1, -1} with nothing changed |
| BlockAccess.BlockAccess.EraseAttrRecord | NITCbase/mynitcbase/BlockAccess/BlockAccess.cpp:588-658 | the state becomes EraseAttr of the old state |
| BlockAccess.BlockAccess.FreeRelCatSlot | NITCbase/mynitcbase/BlockAccess/BlockAccess.cpp:667-704 | the corrected end of deleteRelation (second Findings row): the relation-catalog slot is freed, numEntries written back one lower, and both numRecs lowered, as FreeRelCatRecord says |
| BlockAccess.RenameRelationOutcome | NITCbase/mynitcbase/BlockAccess/BlockAccess.cpp:128-165 | E_RELEXIST exactly when a relation-catalog record is named newName; E_RELNOTEXIST exactly when none is named newName or oldName; SUCCESS otherwise; the errors leave the disk as it was |
| BlockAccess.RenameRelationWrites | NITCbase/mynitcbase/BlockAccess/BlockAccess.cpp:167-203 | on success the relation-catalog record of oldName and the renamed attribute-catalog records (numAttrs of them when the catalog holds that many) get newName and nothing else changes: no header, slot map, other record or other attribute |
| BlockAccess.RenameAttributeOutcome | NITCbase/mynitcbase/BlockAccess/BlockAccess.cpp:208-274 | E_RELNOTEXIST exactly when the relation is absent; then E_ATTREXIST exactly when one of its attributes is named newName, E_ATTRNOTEXIST exactly when none is named newName or oldName, SUCCESS otherwise; errors leave the disk as it was |
| BlockAccess.RenameAttributeWrites | NITCbase/mynitcbase/BlockAccess/BlockAccess.cpp:276-287 | on success exactly one change: the last attribute record of the relation named oldName gets AttrName newName |
| BlockAccess.DeleteAttrLoop | NITCbase/mynitcbase/BlockAccess/BlockAccess.cpp:566-665 | once the relation is found, the attribute loop is defined and changes no block outside the attribute catalog |
| BlockAccess.DeleteRelationDefined | NITCbase/mynitcbase/BlockAccess/BlockAccess.cpp:504-707 | under DeleteRelationPre deleteRelation always has an outcome |
| BlockAccess.DeleteRelationOutcome | NITCbase/mynitcbase/BlockAccess/BlockAccess.cpp:504-531 | E_NOTPERMITTED exactly for the two catalog names, E_RELNOTEXIST exactly when the relation is absent, SUCCESS otherwise; errors leave the disk and allocation map as they were |
| BlockAccess.FreeRelCatEffect | NITCbase/mynitcbase/BlockAccess/BlockAccess.cpp:667-704 | the corrected end of deleteRelation changes only the relation catalog's block: its slot free, numEntries one lower (the source leaves numEntries unchanged, see Findings); numRecs drop by one and by count |
| BlockAccess.DeleteRelationReleases | NITCbase/mynitcbase/BlockAccess/BlockAccess.cpp:546-564 | on success every block of the record chain is unused and no other block outside the attribute catalog changes in the allocation map |
| BlockAccess.DeleteRelationEffect | NITCbase/mynitcbase/BlockAccess/BlockAccess.cpp:504-707 | on success, with the corrected end, the relation-catalog slot is free and numEntries one lower (the source leaves numEntries unchanged, see Findings), no attribute-catalog record of the relation remains, no slot becomes occupied, no record changes and no block outside the two catalogs changes |
| BlockAccess.DeleteRelationCounts | NITCbase/mynitcbase/BlockAccess/BlockAccess.cpp:684-704 | on success numRecs drops by one for the relation catalog and by the number of erased records for the attribute catalog |
| BlockAccess.RelCatCountAsWritten | NITCbase/mynitcbase/BlockAccess/BlockAccess.cpp:670-682 | as written, the relation catalog's block afterwards holds numEntries one more than its occupied slots |
| BlockAccess.RelCatCountKept | NITCbase/mynitcbase/BlockAccess/BlockAccess.cpp:670-682 | with numEntries written back, the relation catalog's numEntries keeps counting its occupied slots |

## Left out

- The RelCacheTable source is not part of this model. `RelCacheTable` is modelled by the contracts its callers rely on: get and set of entries and cursors, and the error codes of a closed or out-of-range id.
- `BlockBuffer::setHeader`, `RecBuffer::setSlotMap`, `releaseBlock` and the allocating `RecBuffer()` constructor are not part of this model's source files. They are modelled by contract (`RecBuffer.SetHeader`, `RecordStore.SetHeader`, `RecordStore.SetSlotMap`, `RecordStore.ReleaseBlock`, `RecordStore.AllocRecBlock`). `getFreeBlock`'s search is modelled as the lowest block marked `UNUSED_BLK`.
- Disk file emulation is replaced by a `Disk` class over `DISK_BLOCKS` blocks of `BLOCK_SIZE` bytes with total read and write operations. `DISK_BLOCKS` is `4 * BLOCK_SIZE`, as the allocation-map load of four whole blocks implies.
- The bridge between the byte level and the decoded level is not modelled. Decoding an attribute from its 16 bytes is part of the float/char union below, so the block-access layer works on decoded `RecBlock`s.
- Floating point: `nVal` is a float and `compareAttrs` subtracts doubles. Numbers are modelled as `int` and compared by sign only, with no rounding. The `(int)` and `(bool)` casts in `recordToAttrCatEntry` are read as taking the stored number as it is.
- Names are arbitrary strings. `strcpy` into 16-byte fields, and any truncation or overflow it causes, is not modelled. Every name comparison (`getRelId`, both by-name attribute lookups, `setSearchIndex`, the catalog scans of rename and delete) is C's `strcmp` on the modelled strings (`StrCmp`), reading the end of a string as NUL, so two names are equal exactly when their parts before the first NUL (`CStr`) are.
- 32-bit integer width is modelled only for the words of a block (`IsInt32`, `Int32At`, `Int32Bytes`). The decoded level uses unbounded integers, and so do the buffer frames' timestamps: the source's `timeStamp++` on a C `int` could overflow, while in the model ageing never does.
- B+-tree indexes and index blocks are not modelled. `rootBlock` is carried in attribute entries but unused, and the index destruction in `deleteRelation` is commented out in the source.
- `main.cpp` only prints the catalogs, and `Algebra.cpp` delegates to schema-layer code this model does not contain. Neither is modelled.
- `malloc`/`free` and the linked lists of attribute-cache entries are modelled as `Option<seq<AttrCacheEntry>>` per relation id. Aliasing between lists is not modelled: with `numAttrs <= 0` for relation 2, the constructor stores the attribute catalog's list head for id 2, and the model stores a copy of that list. The source's destructor then frees that one list twice, at i == 1 and again at i == 2, which is undefined behaviour; `OpenRelTable.Destroy` models only the case where the lists are distinct, emptying every slot.
- The unreachable `E_OUTOFBOUND` branch of `loadBlockAndGetBufferPtr` is excluded: a valid block number is a precondition of every `RecBuffer`, since `getBufferNum`'s error would otherwise be taken for a frame index.
- The relation catalog is modelled as the single block `RELCAT_BLOCK`, as every operation of the source reads it.
- OpenRelTable.OpenRelTable.constructor: the source's `malloc`ed cache entries leave `searchIndex` and `dirty` uninitialised, for the relation-cache entries and for every attribute-cache entry (OpenRelTable.cpp:64-67, 88-91, 116-119). The model takes them as `{-1, -1}` and `false`.
- OpenRelTable.OpenRelTable.constructor: the loop for id 2 reads attribute-catalog slot 12 + i for every i below the announced attribute count, with no bound. With more than 8 attributes it reads slot 20 or later, past the 20-slot block, where the source's copy leaves the frame and its result is undefined; the model reads empty records there (`RecordOf` of a slot the block does not hold).
- `getRelId` hard-codes the two catalog names, so the relation loaded at id 2 has no id by name. The model keeps that behaviour (`ThirdRelationHasNoId`).
- Error codes are a datatype `Status`. Their numeric values are not modelled.
- Block-access methods take the chains they walk as ghost parameters, and their preconditions state that those chains are the rblock paths from firstBlk. A chain that loops or leaves the disk is outside the model.
- BlockAccess.DeleteRelationSpec: it is `None` for an attribute-catalog chain whose splice would write outside the disk, where the source's behaviour is undefined. `DeleteRelation` requires `DeleteRelationPre` (a doubly-linked attribute catalog whose numEntries count its slots, and whose first block holds another relation's record), under which the outcome is always defined (`DeleteRelationDefined`).
- BlockAccess.RenameRelationWrites: it states that `numAttrs` attribute-catalog records are renamed only under `RenameRelationPre`, which requires that the catalog holds that many records of oldName. Otherwise the source's loop acts on `{-1, -1}`; the function `RenameRelationSpec` then renames the records there are, while the methods that run the loop exclude that input (see the lines below).
- StaticBuffer.Evicted: its own contract states only that the disk keeps its shape. What write-back does to each block is stated by `FlushFramesAt` and `LoadKeepsContent`.
- BlockBuffer.LoadFrame: its own contract states only the frame range. `LoadKeepsContent` states that the frame holds the block.
- BlockBuffer.AfterMiss: its own contract states only well-formedness and residency. `MissVictim`, `MissKeepsCoherent` and `LoadMissKeepsContent` state the rest.
- BlockBuffer.AfterWrite: its own contract states only well-formedness. `WriteKeepsOthers` states its effect.
- BlockLayout.WriteHeader: its own contract states only the block size. `WriteHeaderFields`, `WriteHeaderFrame` and `HeaderRoundTrip` state its effect.
- BlockLayout.WriteRecord: its own contract states only the block size. `RecordRoundTrip` and `WriteRecordFrame` state its effect.
- Chain.Linked: its own contract states only the store size. `LinkedShape` and `LinkedKeepsChain` state its effect.
- Catalog.RenameFields: its own contract states only the store size. `RenameFieldsWrites`, `RenameFieldsKeeps` and `RenameFieldsShape` state its effect.
- Unlink.EraseAttr: its own contract states only well-formedness. `EraseAttrEffect`, `EraseAttrKeeps` and `EraseStep` state its effect.
- Unlink.EraseAll: its own contract states only well-formedness. `EraseAllKeeps`, `EraseAllClears` and `EraseAllNext` state its effect.
- Unlink.Splice: its own contract states only well-formedness. `SpliceStep` and `EraseAttrEffect` state its effect.
- BlockBuffer.RecBuffer.GetRecord: when the record's bytes leave the block (slot == numSlots, which linearSearch passes), the source's `memcpy` reads past the buffer and its result is undefined; the model returns `None` there instead of some bytes.
- BlockAccess.BlockAccess.NextMatch: when the cache has no attribute of that name, the source ignores getAttrCatEntry's status and compares with an uninitialised `AttrCatEntry`. The model takes its contents as the parameter `stale`, the same for every call of one scan; callers inside the model always search cached attributes and pass `UNSET_ENTRY`.
- BlockAccess.BlockAccess.LinearSearch: as for `BlockAccess.BlockAccess.NextMatch` on the line above.
- BlockAccess.BlockAccess.Search: as for `BlockAccess.BlockAccess.NextMatch` on the line above.
- BlockAccess.BlockAccess.Insert: when a new block is appended, `InsertPre` requires numSlotsPerBlk >= 1. With fewer slots the source writes `slotMap[0]` of an empty array and its behaviour is undefined, so the model does not cover that input.
- BlockAccess.BlockAccess.DeleteRelation: it follows the corrected end of deleteRelation (second Findings row), which writes the decremented numEntries of the relation catalog's header back. The source never writes it back; `RelCatCountAsWritten` models that as-written end and shows the count it leaves.
- BlockAccess.DeleteRelationSpec: as for `BlockAccess.BlockAccess.DeleteRelation` on the line above.
- BlockAccess.BlockAccess.FreeRelCatSlot: as for `BlockAccess.BlockAccess.DeleteRelation` on the line above.
- BlockAccess.FreeRelCatEffect: as for `BlockAccess.BlockAccess.DeleteRelation` on the line above.
- BlockAccess.DeleteRelationEffect: as for `BlockAccess.BlockAccess.DeleteRelation` on the line above.
- Chain.Placed: at the decoded level each getHeader/setHeader pair keeps the block's blockType and pblock. That is the corrected pair of the third Findings row; as written the pair stores the caller's uninitialised fields (`PartialHeaderWriteBack`).
- BlockAccess.BlockAccess.PlaceRecord: as for `Chain.Placed` on the line above.
- Chain.Linked: as for `Chain.Placed` on the line above.
- BlockAccess.BlockAccess.AppendBlock: as for `Chain.Placed` on the line above.
- Unlink.Cleared: as for `Chain.Placed` on the line above.
- Unlink.Splice: as for `Chain.Placed` on the line above.
- BlockAccess.BlockAccess.EraseAttrRecord: as for `Chain.Placed` on the line above.
- BlockLayout.Int32At: its own contract states only ranges and lengths. `Int32RoundTrip` and `Int32BytesOfStored` state that `Int32At` and `Int32Bytes` are inverse.
- BlockLayout.Int32Bytes: as for `BlockLayout.Int32At` on the line above.
- BlockLayout.ReadHeader: its own contract states only 32-bit ranges. `HeaderRoundTrip`, `WriteHeaderFields` and `PartialHeaderWriteBack` state which words they read.
- BlockLayout.ReadFullHeader: as for `BlockLayout.ReadHeader` on the line above.
- BlockLayout.RecordBytes: its own contract states only the length. `RecordRoundTrip`, `WriteRecordFrame` and `SetThenGetRecord` state which bytes are read.
- BlockLayout.SlotMapBytes: its own contract states only the length. `SetThenGetRecord` and `RecBuffer.GetSlotMap` state which bytes are read and that writing a record keeps them.
- BlockLayout.LinearSearchReadRange: its own contract states only the length of the range. `LinearSearchReadsPastBlock` and `SlotsFit` state where it lies.
- Scan.Hits: its own contract states only that reported places lie on the chain from the start. `HitsSound`, `HitsComplete` and `HitsOrdered` state exactly which places are reported.
- RelCache.RelCatEntryToRecord: its own contract states only the record length. `RelCatEntryRoundTrip` states that decoding the record gives the entry back.
- AttrCache.AttrCatEntryToRecord: its own contract states only the record length. `AttrCatEntryRoundTrip` states that decoding the record gives the entry back.
- BlockAccess.BlockAccess.RenameRelation: it requires `RenameRelationPre`, which excludes a relation-catalog record whose #Attributes exceeds the attribute-catalog records of oldName. There the source's loop gets `{-1, -1}` from linearSearch and builds `RecBuffer(-1)`; getBufferNum's E_OUTOFBOUND is then taken for a frame index, which is undefined behaviour.
- BlockAccess.BlockAccess.RenameFoundRelation: it excludes the same case, more #Attributes than attribute-catalog records of oldName, where the source's behaviour is undefined as above.
- BlockAccess.BlockAccess.RenameAttrCatRelName: it requires that `noAttrs` passes find as many attribute-catalog records of oldName; with fewer, the source's pass acts on `RecBuffer(-1)` and its behaviour is undefined as above.
- BlockBuffer.RecBuffer.GetSlotMap: when the header's numSlots is negative or runs the map past the block, the source's `memcpy` reads past the frame and its result is undefined; the model returns `None` there.
- BlockBuffer.RecBuffer.SetRecord: it requires that a record at an in-range slot lies inside the block. For a header whose record would leave the block the source's `memcpy` writes past the frame, which is undefined behaviour, so the model does not cover that input.

## Findings

| source | as written | input that shows it | evidently intended | confidence | as-written member | corrected member |
|---|---|---|---|---|---|---|
| NITCbase/mynitcbase/Cache/AttrCacheTable.cpp:18-25 | the by-offset `getAttrCatEntry` copies every entry at the offset into the buffer and then returns E_ATTRNOTEXIST | a relation whose single attribute is at the requested offset: the buffer gets it, but the status is E_ATTRNOTEXIST | return SUCCESS with the first entry at that offset, and E_ATTRNOTEXIST only when there is none | not executed | AttrCache.AttrCacheTable.GetAttrCatEntryByOffset (shown by AttrCache.ByOffsetLookupMissesItsHit) | AttrCache.AttrCacheTable.GetAttrCatEntryAtOffset |
| NITCbase/mynitcbase/BlockAccess/BlockAccess.cpp:670-682 | `deleteRelation` decrements the relation-catalog header's numEntries in a local copy and never calls `setHeader` | any successful deleteRelation: the relation catalog's block then has one occupied slot fewer but the same numEntries | write the decremented header back | not executed | BlockAccess.RelCatCountAsWritten | BlockAccess.RelCatCountKept |
| NITCbase/mynitcbase/BlockAccess/BlockAccess.cpp:419-422 | `getHeader` fills only lblock, rblock, numEntries, numAttrs and numSlots, so each getHeader/setHeader pair of insert and deleteRelation writes the caller's uninitialised blockType and pblock into the block | a caller structure whose blockType differs from the block's: the pair changes the block | read all seven fields (or initialise the structure) so that the pair leaves untouched fields as they were | not executed | BlockLayout.PartialHeaderWriteBack | BlockLayout.FullHeaderWriteBack |
| NITCbase/mynitcbase/BlockAccess/BlockAccess.cpp:56-63 | linearSearch copies the record at `slot` before checking `slot >= numSlots` | a catalog block (6 attributes, 20 slots) with slot == 20: bytes 1972..2067 are copied, 20 bytes past the 2048-byte block | check the slot bound before reading, so that only slots below numSlots are read, all of which lie inside the block | not executed | BlockLayout.LinearSearchReadsPastBlock | BlockLayout.SlotsFit |
