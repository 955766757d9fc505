# UFFS: flash protocol, cache, files and codes, in Dafny

This project models UFFS, a file system for raw NAND flash, and proves what its protocols keep. All numbers in the
table are lines of the repository's files.

## What is modelled

**The block log.** A block is a sequence of pages, each with a tag; it is used as an append-only log of (page id, data)
and means the last writer of each id. `BlockLog` states the log invariant and what it gives the lookups;
`LogicalBlock` says what a block means (`Logical`), and what a merge of a block with dirty pages is (`Merge`).
`BlockInfoCache` is the tag cache with the lookups over it.

**The device.** `DeviceModel.Device` is one mounted device: a flash of blocks, the tree's map from objects to blocks,
the erased and bad lists, the pool of page buffers with its LRU list and dirty groups. Its ghost fields are `owner`
(where each block is), `content` (the pages a reader sees of every object) and `history` (every state the device goes
through, flash and marks of bad blocks, one per page write, erase or mark). `Valid()` ties them together: keys of
buffers are distinct, every dirty buffer is listed in exactly one group, that of its object, counts are list lengths,
every block has one owner, a block in use is a log of its object with one time stamp, and `content` is stored pages
overridden by dirty ones. Every flush has `content` outside its `modifies` clause: it cannot change what a reader sees.
`FlushedTo` says where a flush leaves the pages: appended to the block of the object (`Appended`) or moved to another one
(`Moved`). `Onward` is what every operation keeps: no object becomes dirty but the one written, and none has fewer pages
on flash than before. Any page write may report a bad block, as
long as `faults`, the number of such reports still to come, is not 0; nothing else is known of when they come. `WornBy`
says what they cost: one erased block each. `RoomFor` and `Ready` say when buffers and blocks suffice: no buffer held by
others, no locked group, and erased blocks enough for the faults to come, a merge, and the object that has no block yet.

**Mount and crash.** `MountModel` says what a block is to a mount and which of two blocks of one key stays
(`Winner`); `Mounting.Mount` is the whole mount, with bad blocks, clean-up of unclean pages and erases that may fail
(those of the blocks in `failing`). `BlocksPlaced` is what a whole mount makes of any blocks: each has one place, and
what is on the erased list is blank.
`CrashSafety` takes the recorded states of a merge flush, in which blocks may have turned bad (`MidCopy`), cuts it at any
of them with the page being written in any unsealed condition, and mounts; `CrashRuns.FlushThenCut` does so for a flush
of a running device, and `CrashRuns.FlushCutMount` adds the mount of what is left, whatever it is.
`MountLengths` and `FileLengths` go from a device at rest to a mounted tree.

**Files.** `FileObjects.FileObject` is an open file over a device; its ghost field `bytes` is the byte sequence, and
`FileRep` says which page of which block holds which of them. Writes and reads are proved against `Splice`, `Padded`
and `WrittenAt` on sequences. `Laid` is the order in which blocks of a file reach flash: between two operations none is
in the tree behind one with pages missing on flash.

**Volumes.** `Volumes.Volume` is a device with its directories and files. Its ghost field `spec` maps serials to
directories and files with their attributes and to the bytes of files; `Held` says how the pages of the device hold
them, and is kept by creates, writes, reads and flushes. Its ghost field `settled` is the set of directories and files
of which flash holds every page as a reader sees it: `SettledBy` says which those are, from the operations alone. Serials are given out by a search for the smallest free one. `Volumes.FormatRunMount` is one
theorem from formatting to a mount: for every list of operations the outcome is what the operations do to the bytes one
by one (`RunMayEnd`, `AllDone`), and the mounted tree has the same keys, blocks, attributes and lengths. When an operation may be
refused or fall short is said of directories and files alone (`MayBeFull`, `MayHaveRoom`): the blocks they need are
counted (`Parts`), and a volume without faults refuses exactly when they leave fewer than the reserve.
`Volumes.Volume.FlushCutMount` cuts a flush in any state such runs reach, and mounts: what was settled is found whole
(`Durable`), and no file has a block behind one with pages missing (`NoHoles`).

**Independent parts.** `ErasedList` (allocation of erased blocks, two mutually recursive methods), `TreeIndex` (hash
chains in a pool of nodes, against a map), `DirFind` (the directory cursor), `EccTables`, `Ecc`, `EccBits`, `EccPages`
and `TagEcc` (both Hamming codes, by their bits and by the flips they correct), `SpareLayout`, `Crc` (table against bit-serial division by the polynomial of section C.2 of
RFC 1662), `BitvecHash` and `Bitvecs` (the sparse bitmap of the vendored SQLite, against a set).

## Form of the model

Objects whose fields the C code updates are classes with those fields; lists and tables that it edits in place are
`seq` or `map` fields, data corrected in place and spare buffers are arrays. Loops are loops. Each method is proved
against a function or predicate on values, and the lemmas are about those. A tag is a record; an object of the file
system is named by the serials of its parent and its own, and its type is a function of that name.

A page write that reports a bad block leaves the tag written and the data unknown. An erase is atomic; which erases of a
mount report a bad block is a parameter, the set `failing`. What flash
answers to an erase or to a blank test (`ErasedList`) is an arbitrary function of the block.

## What turned out not to hold

- Allocation that returns no block: the nodes tried on the way are in no list any more, so their blocks are lost until
  the next mount. Blocks are conserved if and only if the list is empty or has a usable block behind none but bad ones
  (`ErasedList.BlocksKept`); `ErasedList.OneBlockLost` is a list of one block that is lost.
- The bitmap's divisor (`BitvecHash.DivisorCovers`) is computed in 32 bits: it covers the bits if and only if
  `size + 61 < 2^32`; beyond that it is 0, for instance for a size of `2^32 - 1`. The class is for sizes within.
- A block without a head page can take a key from another at mount and is then erased itself: the key ends without a
  block (`MountModel.HeadlessTakesAway`). A key ends with a block if and only if the last block to take it has a head page
  (`MountModel.HeldIff`, and `MountModel.TwoClaims` for two blocks by their tags). Blocks that a flush writes have one
  (`CrashSafety.BlockInUse`).
- A block in use whose first tag has no known type (`MountModel.UntypedClaims`) is in no list and under no key after a
  mount; so are exactly such blocks (`MountSteps.LostBlocks`).
- A new buffer for a page that has one resets that page's length: buffers and flash stay in agreement if and only if
  somebody held the buffer, when nothing is reset (`BufferSteps.ResetKeepsOkIff`).

## Model

| member | source | states |
|---|---|---|
| FlashModel.NewerMeansNext | src/uffs/uffs_public.c:56-80 | of two stamps in 0..2 one is newer exactly when it is the other plus 1 mod 3, and of two different ones exactly one is newer |
| FlashModel.StampsCycle | src/uffs/uffs_public.c:51-80 | time stamps run 0, 1, 2, 0, and of two in range one counts as newer exactly if it is 1 over 0, 2 over 1, or 0 over 2 |
| BlockLog.LogInvMeaning | src/uffs/uffs_buf.c:659-710 | log invariant: a block is a log (each good page rewrites a known id or brings the next one) if and only if its ids are prefix-closed and first occurrences come in increasing order; then every page index is at least its page id |
| BlockLog.IdsAreThoseBelowTop | src/uffs/uffs_public.c:147-162 | in a log the ids that have a page are exactly those below the count of ids |
| BlockLog.FullLog | src/uffs/uffs_public.c:115-119 | pigeonhole behind the early return: if the last page of a log holds the last id, page i holds id i for every i |
| BlockLog.FullyLoadedMeansOnePagePerId | src/uffs/uffs_public.c:115-119 | the early return of the best-page search: in such a block every page is the last writer of its own id |
| BlockLog.BestIsLatest | src/uffs/uffs_public.c:94-136 | whatever page of an id the search starts from, the best page is the highest-index good page with that id |
| BlockLog.FastLengthIsSlowLength | src/uffs/uffs_public.c:311-323 | the full-block length shortcut equals the sum of the latest data lengths if and only if all data pages but the last are full (head blocks skip page 0) |
| BlockInfoCache.BlockInfo.constructor | src/uffs/uffs_blockinfo.c:327-341 | a cache entry newly assigned to a block has every tag expired and agrees with flash |
| BlockInfoCache.BlockInfo.Load | src/uffs/uffs_blockinfo.c:217-271 | loading a page makes its cached tag current, forgets none, and keeps the cache in agreement with flash and its count of expired tags right |
| BlockInfoCache.BlockInfo.LoadAll | src/uffs/uffs_blockinfo.c:217-271 | loading all pages leaves no expired tag: the cache is the tags on flash |
| BlockInfoCache.BlockInfo.Expire | src/uffs/uffs_blockinfo.c:372-395 | expiring forgets that one tag and no other; the count of expired tags stays right |
| BlockInfoCache.BlockInfo.ExpireAll | src/uffs/uffs_blockinfo.c:377-386 | expiring all pages leaves every tag expired and the count equal to the number of pages |
| BlockInfoCache.BlockInfo.Erased | src/uffs/uffs_flash.c:850-867 | after an erase of the block nothing stale is left: all tags are expired and those on flash are blank |
| BlockInfoCache.BlockInfo.InitErased | src/uffs/uffs_blockinfo.c:427-438 | filling the cache for an erased block without reading flash agrees with flash |
| BlockInfoCache.BlockInfo.FindPageWithId | src/uffs/uffs_public.c:147-162 | the first page at or behind index id that holds the id; none is reported exactly when, in a log, no page at all holds it |
| BlockInfoCache.BlockInfo.FindBestPage | src/uffs/uffs_public.c:94-136 | the best page is the last writer of the id of the given page, the early return included; none exactly for a page that is not good |
| BlockInfoCache.BlockInfo.FindLatest | src/uffs/uffs_buf.c:1512-1520 | both lookups in turn find the last writer of an id, or none exactly when the block does not have the id |
| BlockInfoCache.BlockInfo.IsPageErased | src/uffs/uffs_public.c:387-402 | true exactly for a page whose tag on flash is neither sealed, dirty nor valid |
| BlockInfoCache.BlockInfo.IsBlockUsed | src/uffs/uffs_public.c:185-194 | true exactly when the tag of page 0 on flash is dirty |
| BlockInfoCache.BlockInfo.FindFirstFreePage | src/uffs/uffs_public.c:221-233 | the first erased page at or behind a page, or none exactly if there is none |
| BlockInfoCache.BlockInfo.GetFreePagesCount | src/uffs/uffs_public.c:360-378 | counting from the last page down to the first good page gives the number of pages behind the log that are erased |
| BlockInfoCache.BlockInfo.GetBlockFileDataLength | src/uffs/uffs_public.c:300-353 | length of the file data on a block: the shortcut for a fully loaded FILE or DATA block, else the sum of the lengths of the last writers of the data ids |
| BlockInfoCache.BlockInfo.ScanDataLength | src/uffs/uffs_public.c:326-350 | the scan that meets the data ids in order of their first occurrence adds up the lengths of the last writers of all of them, each once |
| LogicalBlock.MergeOverrides | src/uffs/uffs_buf.c:659-795 | without a truncation mark a merge is the old pages overridden by the dirty ones: it has exactly the ids of both, and each page is the dirty one if there is one |
| LogicalBlock.MergeNothing | src/uffs/uffs_badblock.c:132-217 | a merge with no dirty pages copies the block |
| LogicalBlock.PutThenMerge | src/uffs/uffs_buf.c:994-1045 | appending the dirty page with the smallest id and merging the rest comes to the same as merging all: the append flush and the merge flush have one meaning |
| LogicalBlock.AppendedPage | src/uffs/uffs_buf.c:1010-1024 | programming the first page behind the log keeps the log invariant and puts the page at its id in what the block means |
| DeviceState.AppendKeepsBlockOk | src/uffs/uffs_buf.c:994-1045 | a block of an object stays one when a page is appended, with one used page more and the page put at its id |
| DeviceState.BlockOfIsOk | src/uffs/uffs_buf.c:659-795 | a block written in the order of the page ids is a block of the object and means exactly those pages |
| CopySteps.MergeStep | src/uffs/uffs_buf.c:659-795 | one round of the copy loop: it stops, or writes the last page, or the next one, exactly as the merge says |
| CopySteps.CopyStep | src/uffs/uffs_buf.c:784-812 | a page written well or badly: the device is in a state a copy goes through, a fresh block cut off behind some page, or with a page of right tag and unknown data |
| CopySteps.OneMoreBad | src/uffs/uffs_buf.c:804-812 | a block put aside as bad leaves the device in the middle of the copy: marked blocks were erased before, every other block but the next one tried is untouched |
| CopySteps.LatestPage | src/uffs/uffs_badblock.c:132-217 | the copy loop of a recovery finds for each id the last writer, with the type, parent, serial and time stamp of the block |
| CopySteps.CopiedNothingNew | src/uffs/uffs_badblock.c:132-217 | the copy of a recovery is the same merge with no dirty pages: the fresh block means what the old one meant |
| DeviceModel.Device.constructor | src/uffs/uffs_buf.c:210-294 | a formatted device satisfies the invariant: all blocks erased, all buffers empty, nothing stored |
| DeviceModel.Device.FindBuf | src/uffs/uffs_buf.c:427-461 | the buffer that holds a page of an object; none is reported only if there is none |
| DeviceModel.Device.FindFreeBuf | src/uffs/uffs_buf.c:389-416 | the buffer least recently used of those that are not held and not dirty, or none exactly if every buffer is held or dirty |
| DeviceModel.Device.MoveToHead | src/uffs/uffs_buf.c:159-169 | the buffer is first in the LRU list, the others follow in their order; the list still holds every buffer of the pool once |
| DeviceModel.Device.FindGroupSlot | src/uffs/uffs_buf.c:1342-1357 | the group of the dirty buffers of an object, or none exactly if no group is its |
| DeviceModel.Device.FindFreeGroupSlot | src/uffs/uffs_buf.c:1320-1331 | a group with no dirty buffer, or none exactly if all have some |
| DeviceModel.Device.FindMostDirtyGroup | src/uffs/uffs_buf.c:1145-1161 | the first unlocked non-empty group with a maximal count, or none exactly if there is no such group |
| DeviceModel.Device.FindBufInDirtyList | src/uffs/uffs_buf.c:464-472 | the buffer of a group with a page id, or none exactly if no buffer of the group has it |
| DeviceModel.Device.FindMinimumPageId | src/uffs/uffs_buf.c:559-578 | a buffer of the group with the smallest page id of all its buffers |
| DeviceModel.Device.OldPage | src/uffs/uffs_buf.c:705-780 | the old page for an id is what the block means at that id, whether it comes from a cached buffer or from flash; a cached one becomes the first of the LRU list |
| DeviceModel.Device.NextPage | src/uffs/uffs_buf.c:676-795 | what one round writes for an id, from the dirty list or the old block, is the next step of the merge of the two |
| DeviceModel.Device.CopyPages | src/uffs/uffs_buf.c:659-812 | without a bad block the fresh block holds exactly the merge of old block and dirty pages, written page by page and nothing else; every state on the way, also that of a write that reports a bad block, is a copy cut off somewhere |
| DeviceModel.Device.WriteMerged | src/uffs/uffs_buf.c:615-827 | blocks that turn bad are put aside and the next erased one is tried: on success the merge is on a block that was erased, and every other block has its owner and content; it fails only when no erased block is left, each fault costing exactly one; every state on the way is one in the middle of the copy |
| DeviceModel.Device.ReplaceBlock | src/uffs/uffs_buf.c:850-890 | the node takes the new block; the old one is erased unless never used and joins the end of the erased list, or is marked and joins the bad list: one owner per block throughout |
| DeviceModel.Device.BlockRecover | src/uffs/uffs_buf.c:593-918 | after a block-recover flush the object has a new block that means old pages overridden by dirty ones, its dirty buffers are valid, every other object keeps its block and pages, no block is lost; a failed one changes no buffer and no node and happens only with no erased block left |
| DeviceModel.Device.BreakFromDirty | src/uffs/uffs_buf.c:474-509 | a dirty buffer leaves the one group that lists it, whose count drops by one; for any other buffer it fails and changes nothing |
| DeviceModel.Device.CleanDirtyBuffers | src/uffs/uffs_buf.c:836-847 | every dirty buffer of the object becomes valid, every other buffer is as it was, and the group is empty |
| DeviceModel.Device.FlushByRecover | src/uffs/uffs_buf.c:1110-1130 | flushing by a merge keeps the device invariant and what a reader sees; the object ends on another block, which was erased, and its old block is erased and at the end of the erased list, or bad; whichever blocks turn bad on the way, the states recorded are those of the copy up to the last, the erase of the old block or its mark as bad; it fails only when no erased block is left |
| DeviceModel.Device.FlushNewBlock | src/uffs/uffs_buf.c:930-967 | the first pages of an object go to a new block that enters the tree, or the taken block is given back; what a reader sees is unchanged |
| DeviceModel.Device.AppendOne | src/uffs/uffs_buf.c:1003-1043 | appending the dirty page with the smallest id keeps the invariant, what a reader sees and the used pages of the block as a prefix; the group is one shorter, or unchanged when the write reports a bad block |
| DeviceModel.Device.FlushAppend | src/uffs/uffs_buf.c:975-1057 | appending to free pages keeps what a reader sees; without a bad block the tree is as it was and flash differs only behind the log of the one block, by as many pages as there were dirty buffers; on success the group is empty; a bad block turns it into a merge, and it fails only if that finds no erased block |
| DeviceModel.Device.FlushSlot | src/uffs/uffs_buf.c:1060-1143 | whatever way a group is flushed, what a reader sees does not change, no object becomes dirty and none has fewer pages on flash; success means the group is empty and the object has a block; with no force, enough erased pages behind the log and no fault to come, tree and all other blocks are as they were and the used pages of the block are kept as a prefix; with force, or too few free pages, the object moves to another block and the old one is erased; it succeeds whenever there are erased blocks for every fault still to come and for the flush |
| DeviceModel.Device.CopyLatest | src/uffs/uffs_badblock.c:132-217 | the copy for a recovery is the merge of the block with no dirty pages |
| DeviceModel.Device.WriteCopy | src/uffs/uffs_badblock.c:100-217 | blocks that turn bad during the copy are put aside and the next is tried; it fails only when no erased block is left |
| DeviceModel.Device.ProcessPendingRecover | src/uffs/uffs_badblock.c:82-273 | the object has a new block with the same pages; the old one is bad or erased; on failure nothing moved and no erased block is left, each bad write having cost one |
| DeviceModel.Device.FlushGroup | src/uffs/uffs_buf.c:1252-1262 | after success the object has no dirty buffer and, if it had one, a block in the tree; the pages are appended to the block of the object if they fit and no fault comes, else the object moves; no buffer of another object has changed |
| DeviceModel.Device.FlushMostDirtyGroup | src/uffs/uffs_buf.c:1211-1220 | flushes an unlocked group with the most dirty buffers, if there is an unlocked group with any, and no other; success with nothing flushed means there is none; the pages go where a flush without force puts them |
| DeviceModel.Device.FlushGroupMatchParent | src/uffs/uffs_buf.c:1295-1312 | after success no dirty buffer belongs to an object with this parent; what a reader sees is unchanged; with erased blocks enough for all faults it succeeds; no other buffer has changed; when every group fits behind its block and no fault comes, no object moves |
| DeviceModel.Device.FlushAll | src/uffs/uffs_buf.c:299-310 | after success no buffer is dirty; what a reader sees is unchanged; with erased blocks enough for all faults it succeeds; when every group fits behind the pages of its object and no fault comes, no object moves |
| DeviceModel.Device.GetFreeBuf | src/uffs/uffs_buf.c:1405-1413 | the least recently used of the buffers that can be reused, flushing one group if need be; none exactly if every buffer is held or dirty even then; nothing is flushed while there is one |
| DeviceModel.Device.BufPut | src/uffs/uffs_buf.c:1561-1581 | drops one reference, or fails exactly if there is none |
| DeviceModel.Device.BufNew | src/uffs/uffs_buf.c:1386-1427 | for a page without a buffer a blank one with one reference, first in the LRU list, had whenever no other is held and blocks suffice; a page with a buffer gets that one with its length reset, and the device invariant is kept if and only if the buffer was held |
| BufferSteps.ResetKeepsOkIff | src/uffs/uffs_buf.c:1391-1403 | resetting the length of a buffered page keeps buffers, flash and what a reader sees in agreement if and only if the buffer was held, when nothing is reset |
| DeviceModel.Device.BufGetEx | src/uffs/uffs_buf.c:1442-1554 | cache coherence: the buffer of a page holds the last bytes written to it, from the pool or from flash, also after a flush on the way; a page from flash comes first in the LRU list, one found in the pool leaves the list as it was; it is had whenever the page exists, no other buffer is held and blocks suffice |
| DeviceModel.Device.LoadBuf | src/uffs/uffs_buf.c:1505-1552 | loading finds the page exactly if the object has it and then holds its bytes |
| DeviceModel.Device.TakeGroupSlot | src/uffs/uffs_buf.c:1740-1757 | a group for the dirty buffers of the object: its own, a free one, or one freed by a flush that left the buffer as it was; nothing is flushed while the object has a group or one is free |
| DeviceModel.Device.FillBuf | src/uffs/uffs_buf.c:1759-1770 | the write changes exactly the bytes given of that page in what a reader sees; the buffer is in one group, its object's, whose count is the length of its list |
| DeviceModel.Device.BufWrite | src/uffs/uffs_buf.c:1728-1777 | a write within the page changes exactly that page of what a reader sees; one beyond it changes nothing; groups below the limit before a successful write are below it after; nothing is flushed while its group stays below the limit |
| DeviceModel.Device.BufRead | src/uffs/uffs_buf.c:1779-1793 | the bytes of the buffer from the offset on, cut at the end of the page |
| DeviceModel.Device.StorePage | src/uffs/uffs_fs.c:823-840 | buffer, write and put together: the page is the former one overwritten by the bytes; no other object becomes dirty, and none has fewer pages on flash; it cannot fail while buffers and blocks suffice |
| DeviceModel.Device.LoadPage | src/uffs/uffs_fs.c:1168-1190 | a page read through its buffer gives its length and its last bytes written |
| FlushSteps.RecoverContent | src/uffs/uffs_buf.c:593-918 | after a merge flush what a reader sees of every object is what it was before |
| FlushSteps.AppendContent | src/uffs/uffs_buf.c:994-1045 | after one append what a reader sees of every object is what it was before |
| FlushSteps.BadAppendContent | src/uffs/uffs_buf.c:1027-1035 | a page written with unknown data by a write that reported a bad block is hidden by its buffer, which is still dirty |
| FlushSteps.RecoverKeepsOk | src/uffs/uffs_buf.c:593-918 | a merge flush keeps the whole device invariant |
| FlushSteps.AppendKeepsOk | src/uffs/uffs_buf.c:975-1057 | one append keeps the whole device invariant |
| BufferSteps.WrittenKeepsOk | src/uffs/uffs_buf.c:1728-1777 | a write to a buffer keeps the whole device invariant with just that page changed in the content |
| BufferSteps.LiveBufferShows | src/uffs/uffs_buf.c:1478-1482 | a buffer found in the pool holds what a reader sees of its page |
| BufferSteps.NoBufferShowsFlash | src/uffs/uffs_buf.c:1512-1546 | a page without a buffer is on flash as a reader sees it |
| WriteSteps.BelowMaxAfterWrite | src/uffs/uffs_buf.c:1770-1774 | after a successful write every group is below the limit again |
| MountModel.HeldIff | src/uffs/uffs_tree.c:328-388 | a key ends with a block if and only if the last block to take it has a head page, and that block holds it |
| MountModel.HeadsHold | src/uffs/uffs_tree.c:402-433 | if all blocks that claim a key have a head page, the key ends with a block if and only if some block claims it |
| MountModel.TwoClaims | src/uffs/uffs_tree.c:328-433 | of two blocks that claim a key: it ends with one if and only if the later has a head page, or the earlier has one and the later is newer |
| MountModel.HeadlessTakesAway | src/uffs/uffs_tree.c:328-433 | two blocks of a file for which the key ends with neither, in the order in which the headless one comes last; and with the headed one in the other order |
| MountModel.UntypedClaims | src/uffs/uffs_tree.c:438-461 | a block in use of unknown type, which claims no key of the tree |
| MountSteps.KeyHasBlock | src/uffs/uffs_tree.c:539-641 | after step one a key has a node if and only if the last block to take it has a head page |
| MountSteps.LostBlocks | src/uffs/uffs_tree.c:438-468 | after step one a block is in no list and under no key if and only if it is in use, not bad, and of no known type |
| MountModel.OldestWins | src/uffs/uffs_tree.c:328-388 | whatever the order of the scan, the block that every other block of the key is newer than keeps the key |
| MountModel.SumDataAdds | src/uffs/uffs_tree.c:1101-1104 | adding one data block adds its length to its own file only |
| MountSteps.WinnerStep | src/uffs/uffs_tree.c:328-388 | a scanned block changes the holder of its own key only, by the rule that the block not newer stays |
| MountSteps.ScannedOlder | src/uffs/uffs_tree.c:356-388 | the older block takes the key, the newer one is put aside, every other key and list is kept |
| MountSteps.ScannedHeadless | src/uffs/uffs_tree.c:402-433 | a block without page 0 is erased even after it took the key from another: both are put aside and the key has no holder |
| MountSteps.EraseKeepsClean | src/uffs/uffs_tree.c:461-470 | a block in use that is erased and listed leaves the lists right: each listed block was found blank with a blank status byte and left alone, or is erased now; a bad one is marked, before the mount or because its erase failed; blocks in no list are as found |
| MountSteps.PlacedAfterOrphans | src/uffs/uffs_tree.c:539-1109 | one place for every block: after a whole mount of any blocks, orphan data blocks among them, each block is in just one list, or holds its key, or has no type the tree knows |
| Mounting.Mount.EraseAndList | src/uffs/uffs_tree.c:461-470 | a block is erased and joins the end of the erased list, or, exactly if its erase reports a bad block, is marked and joins the bad list |
| Mounting.Mount.TakeKey | src/uffs/uffs_tree.c:376-388 | the key loses its node, whose block is erased and listed; every other block and list entry is as it was |
| Mounting.Mount.ScanAndFix | src/uffs/uffs_tree.c:473-536 | a block is noted for clean-up exactly if the scan from the last page down meets an unclean page before a sealed one and the list has room |
| Mounting.Mount.BuildValidTreeNode | src/uffs/uffs_tree.c:274-470 | after this block the tree holds for each key the winner of the blocks scanned so far, with its length; it fails exactly for a page 0 that is not erased and not dirty |
| Mounting.Mount.ScanBlock | src/uffs/uffs_tree.c:569-632 | one block of step one: bad, erased, to be cleaned up or entered; the scan so far stays complete, and what it has listed is clean |
| Mounting.Mount.StepOne | src/uffs/uffs_tree.c:539-641 | after step one every block is in a list, holds its key, or has no known type, and each key is held by its winner; every block on the erased list was found blank and not programmed and is as it was found, or is erased, and exactly those found blank are still to be checked; the blocks noted are among those to be cleaned up; it fails exactly if some block has an impossible page 0 |
| Mounting.Mount.RecoverPending | src/uffs/uffs_badblock.c:279-293 | the pass over the blocks noted for clean-up finds none of them in the tree and leaves every block alone |
| Mounting.Mount.StepTwo | src/uffs/uffs_tree.c:643-664 | the erased list starts at the place the clock gives, with the same blocks in the same round, and all that step one found stays |
| Mounting.Mount.FindTree | src/uffs/uffs_tree.c:1125-1141 | step one, the pass over the noted blocks and step two together: each key is held by its winner, what is listed is clean, nothing is pending; the erased list starts at the place the clock gives |
| Mounting.Mount.StepThree | src/uffs/uffs_tree.c:1051-1109 | every file has its own length plus the lengths of its data blocks; the block of every data node without a file is erased and listed, and no other block joins a list; every block of a node is untouched |
| CrashSafety.BlockInUse | src/uffs/uffs_tree.c:539-641 | a block in use is not cleaned up and claims the key of its object |
| CrashSafety.CutBlockVerdict | src/uffs/uffs_tree.c:473-536 | a copy cut off at any page, that page left clean or unclean in any way or programmed with unknown data, is erased, cleaned up, or claims the key with the newer stamp; it never stops the mount |
| CrashSafety.MidCopyFinds | src/uffs/uffs_tree.c:328-388 | a mount after a cut during the copy, with any blocks put aside as bad before, finds the old block of the object and every other block |
| CrashSafety.MountFinds | src/uffs/uffs_tree.c:539-641 | a mount of a device between two operations finds the block of every object and nothing else |
| CrashSafety.HistoryIsCut | src/uffs/uffs_buf.c:593-918 | every state the device goes through in a block-recover flush, blocks turning bad included, is one of the states a cut may leave; when the flush was done the last is the state after the erase of the old block or its mark |
| CrashSafety.OldOrNew | src/uffs/uffs_buf.c:593-918 | rollback: after a cut at any step and a mount, in any scan order and whichever blocks turned bad, each object has one block; the flushed object has exactly its old pages before the last step and exactly the new ones after it, and the old ones for good when erased blocks ran out; every other object is as it was |
| CrashSafety.MountAfterCut | src/uffs/uffs_tree.c:1125-1141 | a mount up to step two succeeds, enters exactly the objects, each on the block found for it unchanged, and lists every other block |
| CrashSafety.MountWhole | src/uffs/uffs_tree.c:1115-1157 | a whole mount of any blocks: all steps and both passes run to their end, failing exactly if some block has an impossible page 0; every block has one place, and every listed one is blank or marked bad, whichever erases fail |
| CrashSafety.ScannedDistinct | src/uffs/uffs_tree.c:539-641 | no two nodes of the scanned tree share a block, and a data node names its file |
| CrashSafety.MountSurvives | src/uffs/uffs_tree.c:1115-1157 | whatever a mount does with blocks on which step one finds every object: exactly the objects are in the tree, each on its block unchanged, no data block of a file is taken for an orphan, every other block is listed |
| CrashRuns.FlushThenCut | src/uffs/uffs_buf.c:593-918 | a device flushes a group by a merge, blocks turning bad on the way and the old one bad or not, and the power goes at any recorded step, the page being written in any unsealed condition: a mount finds the pages flash held before, or, once the old block is erased or marked, exactly the pages a reader saw; every other object as it was; the flush fails only when erased blocks have run out |
| CrashRuns.FlushCutMount | src/uffs/uffs_tree.c:1115-1157 | flush, cut and whole mount in one: whatever the cut leaves, the mount succeeds with one node for each object, the flushed one with all its old pages or all its new ones, every other on its block as it was, every other block listed, the erased ones blank |
| MountLengths.NodeLength | src/uffs/uffs_public.c:300-353 | for a block whose pages but the last are full the length at mount is the number of data bytes on it, shortcut or scan |
| MountLengths.StepThreeTree | src/uffs/uffs_tree.c:1051-1109 | step three gives each file the bytes of its head block and of all its data blocks, and drops no node |
| MountLengths.Remount | src/uffs/uffs_tree.c:1115-1157 | mount inverts run time: the rebuilt tree has exactly the keys of the run, the same block for each, and for each file the bytes on its blocks |
| FileLengths.BlockHolds | src/uffs/uffs_fs.c:798-808 | a block of a file holds the bytes of the file between the start of the block and the start of the next |
| FileLengths.MountedLength | src/uffs/uffs_tree.c:1101-1104 | once all buffers are written out, head block and data blocks add up to the length the file had at run time |
| FileLengths.RemountDevice | src/uffs/uffs_tree.c:1115-1157 | from a device at rest to a mounted one: exactly the objects of the tree are found, each on the same block, which means the pages a reader saw, and each file has the length of its bytes; every other block is listed, the erased ones blank |
| FileLayout.FdnIsBlockOfByte | src/uffs/uffs_fs.c:784-808 | the block serial computed for an offset is the one block whose range holds it: Start(fdn) <= ofs < Start(fdn + 1), both directions |
| FileLayout.OffsetsFit | src/uffs/uffs_fs.c:784-808 | with 14-bit serials no offset and no intermediate product exceeds 32 bits |
| FileLayout.HomesDiffer | src/uffs/uffs_fs.c:866-905 | two pages of a file share block and page id if and only if they are the same page |
| FileLayout.SplitOffset | src/uffs/uffs_fs.c:866-905 | splitting an offset into block serial, page id and page offset and putting it together again gives the offset |
| FileSteps.NextPageIsNew | src/uffs/uffs_fs.c:875-897 | a page of the file is missing exactly if the file ends before it, and then it is the next page of its block |
| FileSteps.WritePageRep | src/uffs/uffs_fs.c:849-935 | writing within a page, or at the start of the next page, overwrites exactly those bytes of the file |
| FileObjects.StillLaid | src/uffs/uffs_fs.c:969-983 | the order of the blocks of a file on flash: whatever is written or flushed, a block of the file enters the tree only behind blocks that have all their pages on flash, but for the new one a write is filling |
| FileObjects.LaidBehindClean | src/uffs/uffs_fs.c:969-983 | a new block that enters the tree behind a flushed one is no exception to that order |
| FileObjects.CreateObject | src/uffs/uffs_fs.c:371-418 | a new directory or file has its attributes on page 0 and a block in the tree, and is written out; it fails exactly when fewer erased blocks than reserved are left, and then nothing has changed |
| FileObjects.CreateFile | src/uffs/uffs_fs.c:298-439 | a new file is empty with its attributes on page 0, and fails exactly when fewer erased blocks than reserved are left |
| FileObjects.OtherFileKept | src/uffs/uffs_fs.c:941-1021 | what is done to one file leaves the bytes of every other |
| FileObjects.FileObject.PutPage | src/uffs/uffs_fs.c:875-905 | one page written through a new or an existing buffer splices the bytes into the file |
| FileObjects.FileObject.WriteNewBlock | src/uffs/uffs_fs.c:811-847 | fills a new data block with as many bytes as fit; the file is longer by them; the blocks behind which others are in the tree have all their pages on flash |
| FileObjects.FileObject.WriteInternalBlock | src/uffs/uffs_fs.c:849-935 | writes exactly the bytes that fit from the offset to the end of the block, and moves the end of the file if need be |
| FileObjects.FileObject.FlushNewBlock | src/uffs/uffs_fs.c:969-983 | the block before the new one is flushed, then the new one: neither has a dirty buffer left, and every block of the file in the tree is behind blocks with all their pages on flash |
| FileObjects.FileObject.FlushAdded | src/uffs/uffs_fs.c:982-983 | the new block is flushed only when the one before it has no dirty buffer, and then enters the tree |
| FileObjects.FileObject.WriteBlock | src/uffs/uffs_fs.c:955-1015 | writes up to the end of the block; nothing only if a new block is needed and fewer blocks than reserved are left; when it has added a block, neither that nor the one before has a dirty buffer, and no block of the file is in the tree behind one with pages missing on flash |
| FileObjects.FileObject.DoWriteObject | src/uffs/uffs_fs.c:941-1021 | the bytes written are a prefix of those given, at the position; what remains means no block could be had |
| FileObjects.FileObject.WriteObject | src/uffs/uffs_fs.c:1033-1091 | file refinement: a write is overwrite, extension or append of a byte sequence with zeros in any gap past the end; short only when a new block is refused, and then position and length say how far it came; no other object changes, the attributes stay, and on flash no block of the file is behind one with pages missing |
| FileObjects.FileObject.ReadPage | src/uffs/uffs_fs.c:1150-1195 | a piece of the file up to the end of its page, never empty before the end of the file |
| FileObjects.FileObject.ReadObject | src/uffs/uffs_fs.c:1102-1208 | a read gives exactly the bytes of the file from the position on, as many as asked for or as there are, changes no content and makes nothing dirty |
| VolumeSteps.HeldAfterWrite | src/uffs/uffs_fs.c:1033-1091 | a write to one file leaves every directory, every other file, all attributes and the map of objects as they were |
| VolumeSteps.HeldAfterCreate | src/uffs/uffs_fs.c:298-439 | a new directory or file adds one entry, with its attributes on page 0, and leaves all others; its serial names no object before |
| VolumeSteps.SettledOnFlash | src/uffs/uffs_fs.c:680-700 | of a directory or file none of whose objects is dirty, flash holds every page as a reader sees it |
| VolumeSteps.SerialsFit | src/inc/uffs/uffs_tree.h:146-147 | on a device of at most 16384 blocks every object in the tree has a serial that fits the 14 bits of a tag, because each data block of a file has a block of its own |
| VolumeSteps.FileOffsetsFit | src/uffs/uffs_fs.c:784-808 | on such a device no byte of a file has a block serial beyond 14 bits or an offset beyond 32 |
| VolumeSteps.TreeOfVolume | src/uffs/uffs_tree.c:1115-1157 | what a mount needs holds at any time: keys tell objects apart, data blocks have their files, files are held with their bytes |
| VolumeSteps.PartsAreNodes | src/uffs/uffs_fs.c:811-847 | the objects in the tree are exactly the heads of the directories and files and the data blocks that hold bytes |
| VolumeSteps.BlocksCounted | src/uffs/uffs_tree.c:1187-1264 | every block of a device is an object's, erased or bad, and none is two of these: the three counts add up to all blocks |
| Volumes.Volume.constructor | src/uffs/uffs_buf.c:210-294 | a formatted volume is empty and sound |
| Volumes.Volume.BlocksLeft | src/uffs/uffs_fs.c:380-383 | the erased blocks are as many as all blocks less the bad ones and those the directories and files need; so the test for the reserve is a test of how full the volume is |
| Volumes.Volume.FindFreeSerial | src/uffs/uffs_tree.c:1164-1185 | the smallest serial no directory or file has, or none exactly if all are taken |
| Volumes.Volume.Create | src/uffs/uffs_fs.c:298-439 | a new entry with the attributes given, under a directory with the smallest free serial, written out at once; refused only without such a directory, without a free serial, or when directories, files, reserve and faults together need more blocks than there are; made only when they do not without the faults |
| Volumes.Volume.WriteFile | src/uffs/uffs_fs.c:1033-1091 | a write changes the bytes of that file as an overwrite, extension or append does, and nothing else, bad blocks turning up or not; short only when it has filled the volume to the reserve |
| Volumes.Volume.ReadFile | src/uffs/uffs_fs.c:1102-1208 | a read gives the bytes of the file and changes nothing |
| Volumes.Volume.Sync | src/uffs/uffs_buf.c:299-310 | everything is written out: no buffer is dirty, and nothing a user sees has changed |
| Volumes.Volume.FlushObject | src/uffs/uffs_fs.c:680-700 | a flush of a directory or file: its head block and, for a file, all its data blocks have no dirty buffer left; nothing a user sees has changed |
| Volumes.Volume.Do | src/uffs/uffs_fs.c:298-1208 | one operation: directories and files are as it makes them; flash holds every page of those settled, a new one, a flushed one, or all after a flush of all buffers, as a reader sees it |
| Volumes.Volume.Run | src/uffs/uffs_fs.c:298-1208 | any run of creates, writes, reads and flushes of any directories and files acts on their attributes and bytes as the operations do one by one; flash holds every page of those that were flushed since they were last written; refusals and short writes happen only on a full volume; the volume stays sound throughout, with as many blocks turning bad as it keeps back beside two |
| Volumes.Volume.FlushCutMount | src/uffs/uffs_buf.c:593-918 | in any state such runs reach: a merge flush, in which blocks may turn bad, cut at any step and mounted gives the directories and files of the volume, the flushed object with the pages flash held before or those a reader saw, every other on its block as it was; every directory and file that was settled has all its pages as a reader saw them; no file has a block behind one with pages missing |
| Volumes.Volume.Mount | src/uffs/uffs_tree.c:1115-1157 | a volume written out is mounted to the same keys, the same block for each object, its pages, for each directory and file its attributes, and for each file its length; every other block is listed, the erased ones blank |
| Volumes.FormatRunMount | src/uffs/uffs_tree.c:1115-1157 | mount inverts run time: format, any operations, write out and mount give exactly the directories and files the operations make, each on the same block with the same pages and its attributes, each file with its running length; every other block is listed, the erased ones blank; refusals and short writes only on a full volume; blocks may turn bad all along |
| ErasedList.TakeMeaning | src/uffs/uffs_tree.c:1202-1264 | a block is had if and only if some block can be used and every one before it turns out bad; those before are exactly the ones reported bad |
| ErasedList.TakeConserves | src/uffs/uffs_tree.c:1202-1264 | when a block is had, erased and bad blocks before are those after plus the one returned, as multisets |
| ErasedList.NoneLosesBlocks | src/uffs/uffs_tree.c:1202-1264 | when none is had, the blocks tried are in no list any more: blocks are kept if and only if the list was empty |
| ErasedList.BlocksKept | src/uffs/uffs_tree.c:1202-1264 | erased, bad and returned blocks are those before if and only if the list is empty or has a usable block behind none but bad ones |
| ErasedList.OneBlockLost | src/uffs/uffs_tree.c:1234-1264 | one block on the list whose erase finds it bad: it ends in no list |
| ErasedList.TakenNotReported | src/uffs/uffs_tree.c:1234-1264 | no block reported bad during the call is the one returned |
| ErasedList.Allocator.GetErasedNode | src/uffs/uffs_tree.c:1202-1227 | takes the first block that is or can be erased; list, bad list and block returned are those of the outcome, and nodes in other hands are untouched; terminates on the list; it is still to be checked only if it was and the check passed |
| ErasedList.Allocator.EraseNode | src/uffs/uffs_tree.c:1234-1264 | erases the block in hand; a bad one is swapped for the next good one and put on the bad list; the node needs no check any more |
| ErasedList.Allocator.GetErasedNodeNoCheck | src/uffs/uffs_tree.c:1187-1200 | takes the first node of the list, or none exactly if it is empty |
| ErasedList.Allocator.InsertToErasedListTail | src/uffs/uffs_tree.c:1365-1390 | the block joins the end of the list; the bad list is unchanged |
| ErasedList.Allocator.InsertToBadBlockList | src/uffs/uffs_tree.c:1392-1406 | the block joins the head of the bad list; the erased list is unchanged |
| TreeIndex.LinkedPush | src/uffs/uffs_tree.c:1266-1275 | linking a node before the head keeps the chain doubly linked, finite and without repetition |
| TreeIndex.LinkedBreak | src/uffs/uffs_tree.c:1281-1317 | unlinking a node, be it first, last or between, leaves the other nodes doubly linked in their order |
| TreeIndex.InsertOk | src/uffs/uffs_tree.c:1266-1275 | all chains stay sound and the index gains exactly the key |
| TreeIndex.BreakOk | src/uffs/uffs_tree.c:1281-1317 | all chains stay sound and the index loses exactly the key |
| TreeIndex.NewParentOk | src/uffs/uffs_fs.c:1820-1828 | a new parent of a directory or file leaves every key, chain and node findable |
| TreeIndex.Index.InsertToEntry | src/uffs/uffs_tree.c:1266-1275 | insertion adds one key to the map |
| TreeIndex.Index.BreakFromEntry | src/uffs/uffs_tree.c:1281-1317 | breaking removes one key from the map |
| TreeIndex.Index.Find | src/uffs/uffs_tree.c:666-839 | a search gives the node of the key in the map, or none exactly if the map does not have it |
| TreeIndex.Index.SetParent | src/uffs/uffs_fs.c:1820-1828 | a rename moves a directory or file without touching its key or its chain |
| DirFind.AllFromIs | src/uffs/uffs_find.c:180-262 | the children met by the search are exactly the directories and files with that parent, directories first, none twice |
| DirFind.FindInfo.DoFindObject | src/uffs/uffs_find.c:180-262 | one step: the cursor moves to the first child not yet reported, or reports the end exactly if there is none |
| DirFind.FindInfo.FindObjectFirst | src/uffs/uffs_find.c:274-285 | starts over and reports the first child |
| DirFind.FindInfo.FindObjectNext | src/uffs/uffs_find.c:298-314 | reports the next child; what is left is what was left without it |
| DirFind.FindInfo.Enumerate | src/uffs/uffs_find.c:274-314 | First, then Next until it fails, reports every child once in order; pos ends as the number of children |
| DirFind.FindInfo.FindObjectCount | src/uffs/uffs_find.c:359-365 | the count is the number of children |
| EccTables.BitCountForm | src/uffs/uffs_ecc.c:44-61 | every entry of the bit-count table is the number of bits of its index |
| EccTables.ColumnForm | src/uffs/uffs_ecc.c:73-106 | every entry of the column table is the six parities of its index and their sum |
| EccTables.ParitiesLinear | src/uffs/uffs_ecc.c:73-106 | the column parities of a byte with bits flipped are those of the byte and of the flipped bits together |
| Ecc.EncodeIsLinear | src/uffs/uffs_ecc.c:115-148 | the ECC of data with flipped bits differs by the ECC of the flipped bits |
| EccBits.EccIs | src/uffs/uffs_ecc.c:115-148 | the bits of the ECC in terms of the data: for each index line one bit is the complement of the parity of all data bits in bytes with that index bit set, the other of those with it clear; the six column bits are complements of the column parities, the two lowest bits are 1 |
| EccBits.OneEcc | src/uffs/uffs_ecc.c:115-148 | these bits leave no choice: two ECCs with them are equal |
| EccBits.ZeroChunk | src/uffs/uffs_ecc.c:139-143 | a chunk of zeros has the ECC FF FF FF |
| Ecc.FlipChangesAcc | src/uffs/uffs_ecc.c:115-148 | one flipped bit anywhere in a chunk of any length changes the parities by the index of its byte and its column |
| Ecc.OneDataBit | src/uffs/uffs_ecc.c:185-241 | the difference one flipped data bit makes names its byte and bit |
| Ecc.OneBitOfEcc | src/uffs/uffs_ecc.c:185-241 | one flipped ECC bit is told apart from a data bit |
| Ecc.TwoDataBits | src/uffs/uffs_ecc.c:185-241 | two flipped data bits are never mistaken for one |
| Ecc.TwoBitsOfEcc | src/uffs/uffs_ecc.c:185-241 | two flipped ECC bits are never mistaken for a data bit |
| Ecc.DataAndEccBit | src/uffs/uffs_ecc.c:185-241 | a flipped data bit with a flipped ECC bit is reported, or corrected at the right place |
| EccPages.EccMakeChunk256 | src/uffs/uffs_ecc.c:115-148 | the loop gives the ECC whose bits are the complements of the line and column parities of the chunk |
| EccPages.EccMake | src/uffs/uffs_ecc.c:151-171 | the ECC of a page is that of its chunks in turn, for any length, each with the complements of its parities |
| EccPages.PageEccIs | src/uffs/uffs_ecc.c:151-171 | bytes 3k to 3k+2 of the ECC of a page are the complements of the parities of chunk k |
| EccPages.EccCorrectChunk256 | src/uffs/uffs_ecc.c:185-241 | correction in place changes the chunk as the code says and nothing around it |
| EccPages.EccCorrect | src/uffs/uffs_ecc.c:244-281 | correction of a page goes chunk by chunk up to the first that fails, adding up the bits corrected |
| EccPages.OneFlip | src/uffs/uffs_ecc.c:185-241 | one flipped bit of a chunk or its ECC: 1 is returned and the data is right |
| EccPages.TwoFlips | src/uffs/uffs_ecc.c:185-241 | two flipped bits of a chunk and its ECC: -1 is returned or the data is right |
| EccPages.PageCorrected | src/uffs/uffs_ecc.c:244-281 | page ECC for any data length: one flip per chunk at most, and the page is restored with the flips counted; two at most, and it fails or the page is right |
| TagEcc.EccMake8 | src/uffs/uffs_ecc.c:292-322 | the 12-bit ECC is made of the complements of the line and column parities of up to eight bytes |
| TagEcc.Ecc8Is | src/uffs/uffs_ecc.c:292-322 | the twelve bits of a tag ECC in terms of the data: complements of the parities of the three index lines, set and clear, and of the six column groups |
| TagEcc.EccCorrect8 | src/uffs/uffs_ecc.c:336-383 | correction in place changes the bytes as the code says |
| TagEcc.TagStore.TagMakeEcc | src/uffs/uffs_flash.c:67-71 | the ECC is computed with the ECC field set to all ones and then stored there |
| TagEcc.TagStore.TagEccCorrect | src/uffs/uffs_flash.c:73-86 | the stored ECC is compared with that of the payload, and the correction is made in place |
| TagEcc.TagOneFlip | src/uffs/uffs_flash.c:67-86 | any one flipped bit of a stored tag: 1 is returned and the 52 payload bits are right |
| TagEcc.TagTwoFlips | src/uffs/uffs_flash.c:67-86 | any two flipped bits of a stored tag: -1 is returned or the payload is right |
| SpareLayout.InitSpareLayout | src/uffs/uffs_flash.c:89-149 | for every status-byte offset and ECC size that fit, tag and ECC go to consecutive bytes that skip the status byte |
| SpareLayout.CalculateSpareDataSize | src/uffs/uffs_flash.c:151-186 | the size is one more than the end of tag, ECC and status byte: room for the seal byte |
| SpareLayout.PlacesAreDisjoint | src/uffs/uffs_flash.c:89-186 | no two bytes of tag and ECC share a place, none is at the status byte, all are before the seal byte |
| SpareLayout.LoadAlong | src/uffs/uffs_flash.c:602-639 | bytes loaded along a layout land at its positions and nothing else changes |
| SpareLayout.MakeSpare | src/uffs/uffs_flash.c:602-639 | the spare is all ones but for ECC, tag and the seal byte 0 at its end |
| SpareLayout.UnloadSpare | src/uffs/uffs_flash.c:333-365 | unloading gathers the bytes at the positions of tag and ECC |
| SpareLayout.SpareRoundTrip | src/uffs/uffs_flash.c:333-639 | unload after make gives the same tag and ECC; the seal byte stays 0 and the status byte 0xFF |
| Crc.TableIsSerial | src/uffs/uffs_crc.c:42-75 | every table entry is its index divided bit by bit by the reflected polynomial 0x8408 |
| Crc.ByteUpdateIsSerial | src/uffs/uffs_crc.c:77 | the table step for a byte is eight steps of bit-serial division |
| Crc.Crc16Update | src/uffs/uffs_crc.c:79-88 | the loop is bit-serial division of the data from the given value |
| Crc.Crc16Sum | src/uffs/uffs_crc.c:90-93 | the sum starts from 0xFFFF and is not complemented |
| Crc.DivideConcat | src/uffs/uffs_crc.c:79-88 | updating over a concatenation composes |
| Crc.DivideIsFeed | src/uffs/uffs_crc.c:79-88 | dividing byte by byte is feeding the bits one by one, lowest first |
| Crc.BurstDetected | src/uffs/uffs_crc.c:79-93 | messages of equal length that differ only within 16 consecutive bits have different sums |
| BitvecHash.DivisorCovers | src/test/sqlite3/sqlite-src-3070900/src/bitvec.c:215 | the sub-bitmaps cover all bits if and only if the sum size + NPTR - 1 does not wrap around in 32 bits; if it does, the divisor is 0 |
| BitvecHash.ProbeEnds | src/test/sqlite3/sqlite-src-3070900/src/bitvec.c:144-149 | probing ends because a table that is not full has an empty slot |
| BitvecHash.ProbeMisses | src/test/sqlite3/sqlite-src-3070900/src/bitvec.c:144-149 | an empty slot at the end of the probing means the value is not in the table |
| BitvecHash.ProbeInserts | src/test/sqlite3/sqlite-src-3070900/src/bitvec.c:197-227 | a value put there is found from then on, and so are all others |
| Bitvecs.Bitvec.constructor | src/test/sqlite3/sqlite-src-3070900/src/bitvec.c:114-122 | a new bitmap is the empty set |
| Bitvecs.Bitvec.Test | src/test/sqlite3/sqlite-src-3070900/src/bitvec.c:129-151 | Test is membership in all three forms, also for indices out of range |
| Bitvecs.Bitvec.Set | src/test/sqlite3/sqlite-src-3070900/src/bitvec.c:165-228 | Set adds exactly the bit in all three forms, also when the hash table is split on the way |
| Bitvecs.Bitvec.SetInHash | src/test/sqlite3/sqlite-src-3070900/src/bitvec.c:189-228 | the hash table is split exactly when a value that is not in it meets a table with NINT - 1 values, or one with MXHASH values and its home slot taken |
| Bitvecs.Bitvec.Clear | src/test/sqlite3/sqlite-src-3070900/src/bitvec.c:236-268 | Clear removes exactly the bit in all three forms |
| Bitvecs.Bitvec.Rehash | src/test/sqlite3/sqlite-src-3070900/src/bitvec.c:205-223 | splitting a full hash table and setting its values again loses none; the recursion ends because sub-bitmaps are smaller |
| Bitvecs.Rebuild | src/test/sqlite3/sqlite-src-3070900/src/bitvec.c:250-266 | rebuilding the hash table without one value keeps exactly the others, each found by probing |
| Bitvecs.Lookup | src/test/sqlite3/sqlite-src-3070900/src/bitvec.c:144-149 | probing from the home slot finds a value exactly if it is in the table |

## Left out

- DeviceModel.Device.BufWrite: a write of no bytes at offset 0 to a buffer of length 0 is excluded; it would make a page of length 0 dirty, which a flush takes for the end of a truncated file.
- DeviceModel.Device.FlushSlot: the test of the dirty list's page ids and types before a flush is left out, since `Valid()` implies it.
- DeviceModel.Device.BlockRecover: write results other than success and bad block (I/O error, corrected flips that ask for a refresh) are left out, and so are failing reads of the old block and the lack of a clone buffer; the erase of the old block does not report a bad block; name checksums are not kept.
- DeviceModel.Device.AppendOne: an I/O error of the write is left out; the bad-block branch is modelled.
- DeviceModel.Device.ProcessPendingRecover: the pages are read back from flash without read errors; the I/O-error branch that gives the good block back is left out.
- CrashSafety.MountAfterCut: up to step two; `CrashSafety.MountWhole` is the whole mount.
- CrashSafety.MountWhole: failing loads of tags, mini headers and pages are left out.
- CrashRuns.FlushCutMount: as `CrashSafety.MountWhole`; the power is not cut during the mount itself.
- CrashRuns.FlushThenCut: the erase of the old block and the mark of a bad block are single steps, and the erase does not report a bad block; write results other than success and bad block are left out.
- Volumes.Volume.FlushCutMount: as `CrashRuns.FlushThenCut`; the old block is not one that has just reported a bad block (`badOld` of that method).
- CrashSafety.OldOrNew: stated for the block-recover flush of an object that has a block; an interrupted append makes mount erase the whole block, so nothing of the kind holds for it.
- Mounting.Mount.StepOne: failing loads of tags and mini headers, and blocks on the pending list before the scan, are left out.
- Mounting.Mount.StepThree: the one-entry cache of the last file looked up is left out; data nodes are visited in an arbitrary order.
- Mounting.Mount.RecoverPending: blocks noted for clean-up during the scan; the recovery of a noted block that is in the tree is `DeviceModel.Device.ProcessPendingRecover`.
- Mounting.Mount.StepTwo: the marker that keeps a node's `need_check` as it is is left out; the clock is a parameter.
- FileLengths.RemountDevice: takes what it needs of the tree as hypotheses; `Volumes.Volume.Mount` is the form without them.
- MountLengths.Remount: takes what it needs of flash, keys and files as hypotheses; `Volumes.Volume.Mount` is the form without them.
- FileObjects.FileObject.WriteObject: with buffers, groups and erased blocks enough (`Ready`): more erased blocks than writes that are still to report a bad block; the pass over pending blocks at the end of a write or read is left out, as is flushing after every write (`CONFIG_FLUSH_BUF_AFTER_WRITE`).
- FileObjects.FileObject.WriteNewBlock: with buffers and erased blocks enough, as `WriteObject`; the order of blocks on flash is stated with an exception for the block being filled, since a group that reaches its limit on the way is flushed at once, before the two flushes at the end of the write.
- FileObjects.FileObject.WriteInternalBlock: with buffers and erased blocks enough, as `WriteObject`.
- FileObjects.FileObject.WriteBlock: with buffers and erased blocks enough, as `WriteObject`.
- FileObjects.FileObject.DoWriteObject: with buffers and erased blocks enough, as `WriteObject`.
- FileObjects.FileObject.ReadPage: without read errors, with buffers and erased blocks enough.
- FileObjects.FileObject.ReadObject: without read errors, with buffers and erased blocks enough; the pass over pending blocks at its end is left out.
- Volumes.Volume.constructor: devices of at most 16384 blocks, the number of serials a tag has (the source does not limit them), and at least two blocks kept back beside those that may turn bad; with more faults than that a flush may find no erased block.
- Volumes.Volume.FindFreeSerial: suspended nodes, which also hold serials, are left out.
- Volumes.Volume.WriteFile: as `FileObjects.FileObject.WriteObject`.
- Volumes.Volume.ReadFile: without read errors.
- Volumes.Volume.Sync: write results other than success and bad block are left out.
- Volumes.Volume.Create: name lookup, opening flags and suspended nodes are left out; the parent is a serial, and the attributes, the name among them, are bytes that are not looked into.
- Volumes.Volume.FlushObject: an I/O error is left out, so the flush of the head block is always reached.
- Volumes.Volume.Run: each write or read opens and closes its file; deletion, truncation and renaming are not among the operations.
- DeviceModel.Device.CopyPages: failing reads of the old block and write results other than success and bad block are left out.
- DeviceModel.Device.WriteMerged: I/O errors and refresh results of writes are left out.
- DeviceModel.Device.FlushAppend: an I/O error of the write is left out.
- DeviceModel.Device.CopyLatest: read errors of the old block are left out.
- DeviceModel.Device.WriteCopy: the I/O-error branch is left out.
- DeviceModel.Device.BufGetEx: read errors, and blocks noted for recovery during the load, are left out.
- DeviceModel.Device.LoadBuf: read errors, and blocks noted for recovery during the load, are left out.
- BlockInfoCache.BlockInfo.Load: failing tag reads are left out. Operations of the device assign a new cache entry each time they need one; that the cached tags survive from one to the next, and are expired by a write or an erase, is stated for one entry (`Program`, `Expire`, `Erased`) and not kept as part of the device.
- BlockInfoCache.BlockInfo.LoadAll: failing tag reads are left out.
- BlockInfoCache.BlockInfo.Expire: one page; `ExpireAll` is the form for all pages.
- Mounting.Mount.ScanAndFix: pages whose tag or mini header cannot be read are left out.
- Mounting.Mount.BuildValidTreeNode: failing loads and reads are left out.
- Mounting.Mount.ScanBlock: failing loads of tags and mini headers are left out.
- Bitvecs.Bitvec.Rehash: running out of memory during the split is left out.
- FileObjects.CreateFile: name lookup, opening flags and suspended nodes are left out; the file's serial is a parameter.
- FileObjects.CreateObject: name lookup, opening flags and the contents of attributes are left out; with erased blocks enough for the faults to come.
- ErasedList.Allocator.GetErasedNode: the list's `prev` links and insertion at its head are left out; refresh of a node taken with `need_check` is the erase that follows a failed blank test.
- ErasedList.Allocator.InsertToErasedListTail: the marker that keeps a node's `need_check` as it is (used by step two) is left out.
- EccPages.EccCorrect: absent ECC buffers (null arguments, for which the source returns -1) are left out.
- TagEcc.EccCorrect8: what bits beyond the eighth byte do is left out; the tag is eight bytes.
- SpareLayout.InitSpareLayout: offsets and sizes that do not fit the one-byte entries of a layout are excluded; layouts supplied by a driver are not modelled.
- SpareLayout.UnloadSpare: bad-block counting from the status byte and the seal test are left out.
- Bitvecs.Bitvec.Set: running out of memory (`SQLITE_NOMEM`) and null bitmaps are left out; the loop that descends through sub-bitmaps is a recursion, and the union of the three forms is three fields.
- Bitvecs.Bitvec.Clear: the caller's scratch buffer is a sequence.
- DirFind.FindInfo.FindObjectFirst: loading a child's attributes, names and lengths is left out.
- TreeIndex.Index.Find: directory, file and data searches are one method over one table with three ranges; suspended nodes and searches by name or block are left out.
- TreeIndex.Index.InsertToEntry: a node whose key is in the index already is excluded; the source would link it in front of the other, but its callers insert new serials or take the other node out first.
- Truncation, deletion, seeking and renaming of open files (beyond a new parent in the index), locks, mount-table plumbing, POSIX wrappers, emulator, command line and operating-system ports.
- Statistics, pools, formatting, time stamps of files.
- Bit-field packing of tags, hardware ECC drivers, partial erases, and the LRU order and reference counts of the tag cache.
- The other vendored SQLite files: their core functions depend on files that are not part of this model.
