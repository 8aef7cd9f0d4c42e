# A verified model of NOVA

NOVA is a log-structured file system for byte-addressable non-volatile main memory (NVMM). Every
inode has a log, a chain of 4 KB pages; an index in DRAM is rebuilt from it. This project models
the parts on which its crash consistency rests, and proves what they promise:

- **A regular file** (`FileLog`, `FileData`, `FileBooks`, `FileStage`, `FileState`, `FileRead`,
  `FileCrash`, `FileGc`, `FileSpace`, `FileInode`). Writes are copy-on-write, commit with one store of the log tail
  and then free the blocks they replaced; truncation, reads, garbage collection and remounts are part
  of the same class. The class refines an array of bytes. A crash at any moment of a write, inside the
  collections that it triggers too, and whatever part of the unflushed counters it loses, is followed
  by a mount that rebuilds a sound file with the old or with the new array. A crash in a truncate is
  too, except for what the first finding says.
- **Garbage collection of logs** (`LogChain`, `LogCollect`, `CopyLog`, `LogCompact`). The fast
  collection unlinks dead pages, the thorough one copies the live records to a new chain. Both are
  traced store by store, and what holds after one of them holds after any number. `FileGc` runs them
  on the log of a file, however it lies on its pages. `FileGarbage` says what they take for garbage:
  just the records that have nothing left to say.
- **The layout of log pages** (`LogWalk`).
- **The lite journal** (`Journal`), as code and as a state machine over all CPUs, and its
  **transactions** (`Transactions`): new inode, link and unlink, rename.
- **The block allocator** (`Ranges`, `FreeLists`, `Allocator`), **the recovery scan**
  (`ScanWindow`, `Bitmap`) and **the saved free lists** (`SavedLists`, `HomeLists`).
- **Inode numbers** (`InodeMap`) and **directories** (`Directory`, `DirInode`).

`dafny verify dfyconfig.toml` checks everything.

## How to read it

*Persistence.* Stores become durable in program order: a crash leaves a prefix of the durable
stores, and before a flush any part of the cells in flight (`CrashPoint.torn`, `Journal.Poke`).
Stores that the source never flushes may be lost altogether: the counters of invalid pages
(`FileCrash.Lags`) and the flags of superseded directory records.
This is the order that the flushes in the source establish when the platform writes back with
`clflush`; where the source issues one fence for two flushes, the model takes the first flush to be
complete.

*Imperative code stays imperative.* Fields that the source updates are fields of a class, its loops
are loops. Trees of the kernel become maps or sequences: a radix tree is a map, a red-black tree is
its in-order sequence together with an arbitrary tree of that order (`FreeLists.AnyShape`), so that
searches are proved for every shape.

*Wrapped predicates.* `FileData.Inside` and `Ranges.Unfolded` are always true. A predicate that is
stated under them is opened only in proofs that mention them; a lemma named `...Parts` does that.

*Traces.* A method that must survive a crash at any point puts the durable state on record after
every store. `LogCollect.Trace`, `LogCompact.Trace` and `Journal.CanRun` also say that each recorded
state is one store away from the one before. `FileGc.FastPoints` and `FileGc.ThoroughPoints` turn the
states of a collection into moments of the file.

## Findings

Where the code does not do what it is for, the model keeps the code, gives an input that shows it and
proves exactly when the property holds.

- *A truncate* commits the new size before it clears the rest of the last page, and a mount does not
  clear it (inode.c:1256-1296). `FileCrash.CutCrashGrow` and `FileCrash.OldBytesReturn`: after a cut, a
  crash in between and a growth, the old bytes are back. `FileCrash.UnclearedRecoversIff` and the trace of
  `FileInode.File.Truncate`: size and bytes are right at every moment, and the file is sound at all of them
  if and only if it was zero from the new size to the end of that page.
- *The read fast path* copies several pages at once from a record whose counter of invalid pages is zero
  (dax.c:93-101), but the counter is not flushed (inode.c:523). `FileRead.LostUpdateBreaksRead`: two writes
  and a lost update after which a read returns replaced bytes (`FileRead.LostUpdateHappens`: the crash
  that leaves this file). `FileRead.ReadIsRightIff`: a read is right for every content of the file if and
  only if on each of its rounds the index maps every page to the block that the record of the first page
  has for it (the record still owns the page, or the block came back to it). Exact counters ensure that
  (`FileRead.ExactIsFollowed`).
- *Undoing a journal record* passes the address on with the tag in its top byte (journal.c:140-144).
  `Journal.TaggedMountFails` and `Journal.TaggedMountArrivesIff`: as it stands the mount arrives at the
  committed memory if and only if every word that a pending record names already has the value that
  the record would restore. With the tag masked it always does (`Journal.MountArrives`).
- *The thorough collection* moves `last_setattr` to every attribute record it copies (inode.c:1734-1735),
  while the validity test still compares with it (inode.c:1576). `CopyLog.ModeChangeCanBeLost`,
  `CopyLog.LastAttrSurvivesIff` and `LogCompact.MarkIsStaleIff`: the last attribute record is lost if and
  only if it does not set the size and one that does was copied before it. Index and size never
  suffer, wherever that mark points (`LogChain.SaneImageReplays`, `LogCompact.CompactionKeepsFile`).
- *Directory records*: the flag of a superseded record is not flushed (dir.c:98-99), and the collection
  takes every delete record for garbage (inode.c:1595-1600). `DirInode.CollectedDeleteResurrects` and
  `DirInode.TwoLostFlagsEndReplay`: directories in which the collection drops the page with a deletion,
  and a crash then brings the file back or ends the mount. The flag is also set before the removal is
  committed; if it gets to NVMM and the transaction does not, the name is gone
  (`Directory.EarlyFlagsLoseNames`). `Directory.FlagsHarmlessIff`: after a crash that lost any flags and
  kept any early ones the replay is right if and only if no early flag is that of a live record and every
  record whose flag is lost is followed by a delete record of its name before the name is added again.
- *A failed request for larger pages* lowers the count of free blocks (balloc.c:478):
  `Allocator.CountIsLost`. `Allocator.BlockAllocator.NewBlocks` says exactly when: if the caller's own list,
  or a fullest one if that counts too few, counts enough blocks and has no node with all of them.
- *The first node of a list after a mount* is the range that was loaded first, not the leftmost one
  (bbuild.c:233-234), and the search for blocks begins there. `SavedLists.FirstIsLeftmostIff`: it is
  leftmost if and only if the range loaded first is the lowest of its list, which is always so if every
  range was saved from the list of its first block. `SavedLists.FirstNodeNotLeftmost`: a free block out
  of reach, until the first node becomes null and is repaired (balloc.c:538-543). Freeing the blocks
  between the first node and its left neighbour then takes the first node out of the tree
  (`FreeLists.FreeList.FreeBlocks` says exactly when); in lists whose first node is leftmost neither
  happens.
- *Freeing blocks that are free already* is noticed if and only if the search ends at a range that has
  one of them (balloc.c:248-263): `Ranges.FindFreeSlot`. Whether it does depends on how the tree happens
  to be balanced (`Ranges.ShapeDecides`), and if it does not, the list is ruined
  (`FreeLists.FreeList.FreeBlocks`).
- *The inode numbers in reserve* at first (inode.c:42-44) are those below 16 if and only if the CPUs divide
  16 (`InodeMap.NormalAreUnusedIff`); otherwise up to two more for each CPU are never handed out
  (`InodeMap.ReservedExactly`, and `InodeMap.ThreeCpus` for three CPUs).
- *Size-setting records have to be kept* by a collection, as inode.c:1578-1581 has it:
  `FileLog.DroppingSizeSetterIsUnsound`.

## Model

| member | source | states |
|---|---|---|
| FileLog.CollectionKeepsView | inode.c:1561-1614 | dropping any dead write records and any attribute or link records but the last ones, and skipping any dead ones at recovery, leaves the replayed index, size, attributes and link count as they were, for every log that writes and truncates can produce |
| FileLog.CollectionKeepsIndexAndSize | inode.c:2171-2253 | the same for index and size when even the last attribute record is dropped, provided attribute records repeat the size |
| FileLog.DroppingSizeSetterIsUnsound | inode.c:1578-1581 | a log in which dropping a size-setting record brings cut-off pages back |
| FileLog.LastWriteOwns | inode.c:2239-2251 | if the last record that sets the size is a write, it still owns a page |
| FileLog.OwnersAreLogged | inode.c:498-541 | every page of the index belongs to a write record of the log that covers it |
| FileLog.KeysBelowSize | inode.c:2171-2253 | no page of the index lies beyond the file size rounded up |
| FileLog.StartIsIrrelevant | inode.c:2171-2253 | what the inode held before the rebuild does not matter once a record sets the size |
| FileLog.ReplayMoved | inode.c:1670-1695 | moving records moves the index with them and changes nothing else |
| FileBooks.FullCounterIsDead | inode.c:1589-1592 | a write record whose counter equals its pages owns no page of the index |
| FileBooks.ZeroCounterIsWhole | dax.c:93-101 | with exact counters a counter of zero means that every page of the record is current |
| FileBooks.TakeAllKeepsBooks | inode.c:498-541 | handing pages over to new records keeps every live block accounted for once and off the free list |
| FileBooks.TakeAllCounts | inode.c:515-535 | and keeps the live-page count of every record |
| FileBooks.DropRangeKeepsBooks | inode.c:318-373 | cutting pages off keeps the books and every account |
| FileBooks.DropRangeFrees | inode.c:172-210 | and frees exactly the blocks behind these pages |
| FileBooks.TakeAllFrees | inode.c:515-535 | records that cover a run of pages free exactly the blocks that backed these pages before |
| FileBooks.TakeAllGrows | inode.c:515-535 | while the index is reassigned blocks only become free and counters only go up, so that every moment lags behind the end |
| FileBooks.MovedCounts | inode.c:1670-1695 | live-page counts survive the copying of records |
| FileState.CollectedIsSound | inode.c:1561-1614 | a collection keeps the whole invariant of a mounted file, also in the middle of a write |
| FileState.CommitSound | dax.c:483-500 | after the tail store and the reassignment the file reads the new bytes and the invariant holds |
| FileState.TruncateSound | inode.c:1183-1216 | after a truncation the file reads as the resized array |
| FileRead.ReadIsRightIff | dax.c:22-140 | for every sound file: what the read loop fetches is the content, for all contents, if and only if each of its rounds follows the index |
| FileRead.RoundIsWrong | dax.c:93-101 | a round that leaves the index returns a wrong byte for some content of the same file |
| FileRead.ExactIsFollowed | dax.c:93-101 | with exact counters every round follows the index |
| FileRead.LostUpdateBreaksRead | dax.c:93-101 | two writes and a lost counter update after which the read returns the replaced page |
| FileRead.LostUpdateHappens | inode.c:515-535 | that file is what a mount finds after a crash right after the commit of the second write |
| FileRead.BlockCameBack | dax.c:93-101 | owning the pages is not necessary: a file whose read is right because a block was freed and taken again for the same page |
| FileCrash.RebuiltFrame | inode.c:2239-2251 | a mount that skips records with full counters finds index and size again, and a sound file but for its bytes, however far the counters lag |
| FileCrash.SoundRecovers | inode.c:2171-2253 | whatever a mount finds when only cells outside the file were in flight, it rebuilds a sound file with the same bytes, zeros beyond the end included |
| FileCrash.StagingIsInvisible | dax.c:395-475 | as long as the tail has not moved, a mount rebuilds the old file, whatever part of the new blocks got to NVMM |
| FileCrash.CommittedSurvives | nova.h:253-264 | a mount after the tail store rebuilds the new file, at every moment of the reassignment, and none of its blocks is on a free list |
| FileCrash.TruncateSurvives | inode.c:1147-1181 | a mount after the commit of a truncate finds the new size and bytes, whether the last page is not cleared, half cleared or cleared |
| FileCrash.ShortIsSoundIff | inode.c:1256-1296 | all that such a file can lack is zeros beyond its end |
| FileCrash.UnclearedRecoversIff | inode.c:1256-1296 | before the last page is cleared, a crash leaves a sound file if and only if the file was zero from the new size to the end of that page |
| FileCrash.TruncateTrace | inode.c:1183-1216 | the same over all moments of the truncate from its commit on |
| FileCrash.CutTraceShort | inode.c:1183-1216 | so every moment of a truncate recovers the new size and bytes, and soundness at all of them is a question of the old content alone |
| FileCrash.OldBytesReturn | inode.c:1256-1296 | cut, crash, mount and growth bring back what the file held there before the cut, in every file |
| FileCrash.CutCrashGrow | inode.c:1147-1181 | a file of one page for which it does |
| FileGc.SoundCountersTell | inode.c:1589-1592 | in a sound file a full counter belongs to a record without a page, which is what the collections rely on |
| FileGc.SoundIsTrusted | inode.c:1765-1873 | all that the results about thorough collections ask of log, index and counters holds in a sound file |
| FileGc.DroppedRecovers | inode.c:1561-1614 | a mount after a crash at which any rejected records are missing from the log rebuilds a sound file with the same bytes, with any lagging counters |
| FileGc.FastCrashRecovers | inode.c:1886-1974 | so does one after any store of a fast collection in the middle of a write |
| FileGc.CompactedIsSound | inode.c:1765-1873 | the file after a thorough collection in the middle of a write satisfies the whole invariant and has the same bytes |
| FileGc.ThoroughCrashRecovers | inode.c:1838-1866 | a mount after any store of a thorough collection, before the switch of the head or after it, rebuilds a sound file with the same bytes |
| FileGc.RunFast | inode.c:1988-2036 | the collection run on any layout of the file's log: the log read afterwards from the head is that of its last recorded state |
| FileGc.RunThorough | inode.c:1765-1873 | the same for the thorough collection, with index and counters; a log of one page is left alone |
| FileState.AbandonedIsSound | dax.c:396-425 | a write that stops for want of blocks leaves the file as it was |
| FileInode.File.CowFileWrite | dax.c:324-513 | the bytes are overwritten (or, on failure, unchanged); it fails only if a request for blocks was turned down because no list counted enough, for no more data pages than the write has, or for as many log pages as the log has, at most 256, and one at first; a write that succeeds loses no block: what was free, in use or in the log still is; nothing outside the formerly free blocks is stored to; from every moment before the tail store a mount with any lagging counters rebuilds a sound file with the old bytes, from every one after it a sound file with the new bytes, and between the two lies the tail store alone |
| FileInode.File.StageAll | dax.c:395-475 | the write loop fills new blocks with exactly the target bytes of their pages and appends records beyond the tail, or ends with a request that was turned down |
| FileInode.File.StageChunk | dax.c:396-475 | one round: allocate, find room in the log, fill the ends from the old file, copy, append; or a request turned down and the write as it was, and which request that was |
| FileInode.File.FillChunk | dax.c:187-245 | the new blocks hold the target bytes of every page of the chunk, and no other block changes |
| FileInode.File.HandleHeadTailBlocks | dax.c:187-245 | the uncovered ends of the first and last new block hold the old bytes, or zeros in a hole |
| FileInode.File.CopyPartialBlock | dax.c:161-180 | copies part of a page without disturbing what the file reads |
| FileInode.File.CommitWrite | dax.c:483-500 | the staged records become the log, the index is reassigned, a mount from every moment in between rebuilds the target, and every block is still accounted for |
| FileInode.File.ReassignFileTree | dax.c:247-280 | the books afterwards are those of taking all records in order |
| FileInode.File.AssignWriteEntry | inode.c:498-541 | every page of the record now points at it; old blocks are freed and counted invalid page by page |
| FileInode.File.FindNextEntry | inode.c:437-450 | the record at the least key that is not below the given page |
| FileInode.File.FreeContiguous | inode.c:172-210 | the freed blocks together with the pending run grow by exactly the given block |
| FileInode.File.DeleteFileTree | inode.c:318-373 | exactly the pages of the range leave the index, across holes, and exactly their blocks become free |
| FileInode.File.CollectFast | inode.c:1886-1974 | a fast collection at any time keeps the invariant and the bytes; exactly the durable states of its trace are put on record, and a mount from each recovers the bytes; at no moment the log holds a new record |
| FileInode.File.CollectThorough | inode.c:1765-1873 | so does a thorough one; log, index and counters are those of the new chain, and at every moment the log is the old or the new one |
| FileInode.File.MaybeCollect | inode.c:1988-2036 | an append may extend the log and collect first; if anything changes, all moments are on record and the last of them is the present |
| FileInode.File.ExtendLog | inode.c:1988-2036 | log space in the middle of a write: there is none only if a request was turned down, for as many pages as the log has, at most 256, and one at first; the write goes on undisturbed, the same blocks are in use, and every moment recovers the old bytes, whatever the blocks being filled hold |
| FileInode.File.NewDataBlocks | balloc.c:509-615 | however the free blocks are spread over the lists of the CPUs: n blocks, or a whole node with fewer, leave the free set if and only if some list counts n; a single block is to be had if and only if one is free |
| FileSpace.Request | balloc.c:489-578 | the request as the allocator serves it, for every spread of the free blocks, every CPU and every first node |
| FileSpace.RefusedMeansFew | balloc.c:533-552 | a request for n blocks that is turned down leaves at most n - 1 free blocks for each CPU |
| FileState.CommitConserves | dax.c:247-280 | the commit of a write keeps every block: it is free, backs a page or was taken before if and only if it is free or backs a page afterwards |
| FileState.TruncateConserves | inode.c:1183-1216 | so does a truncate |
| FileInode.File.PrepareRecord | inode.c:1299-1327 | the record gets an address that the log has at no moment of the collection before it |
| FileInode.File.AppendAttributes | inode.c:1299-1327 | attribute and link records leave the bytes alone: exactly the record is added to the file after the collection, by one tail store, is in the log at no moment before it, and changes just the attributes or the link count that the log means; every moment before and after recovers the bytes |
| FileInode.File.ClearLastPageTail | inode.c:1147-1181 | zeroes the last page beyond the new size |
| FileInode.File.Truncate | inode.c:1329-1380 | the bytes are cut or extended by zeros; moments before the record's commit recover the old array, those after it the new size and bytes, and all of those a sound file if and only if the last page had nothing to clear; the log means the new size and attributes afterwards, a mount from every moment after the commit finds them, and the log has the record at no moment before it; no block is lost |
| FileInode.File.TruncateFileBlocks | inode.c:399-435 | drops exactly the pages between the two sizes |
| FileInode.File.Read | dax.c:22-140 | on every sound file returns what its rounds fetch, and, if each round follows the index or the counters are exact, the bytes of the array: as many as were asked for or all up to its end |
| FileRead.ReadAfterWrite | dax.c:49-56 | of an overwritten array a read returns the new bytes where they are and the old ones elsewhere, and at the place of the write just what was written |
| FileInode.File.WriteThenRead | dax.c:22-140 | with exact counters a write that succeeds is followed by a read that returns its bytes |
| FileInode.File.ReadChunk | dax.c:60-130 | one round fetches from the blocks of the first page's record, or zeros in a hole |
| FileInode.File.RebuildFileInodeTree | inode.c:2171-2253 | the rebuild loop computes the replay of the log that skips full counters: index, size, attributes and link count |
| FileInode.File.ApplySetattrEntry | inode.c:1256-1296 | a smaller size cuts exactly the pages beyond it |
| FileInode.File.Remount | inode.c:2171-2253 | a mount from any moment gives a file with the size and bytes that the moment recovers to, and a valid one unless zeros beyond the end may be missing; attributes and link count are those of the replay |
| FileInode.File.CrashAndRemount | inode.c:2171-2253 | a crash at any recorded moment of the last operation, followed by a mount with any surviving memory, counters and inode size, gives size and bytes before or after it; the file is valid at every moment of a write, and of a truncate at those from which a sound file can be rebuilt (all of them if and only if there was nothing to clear) |
| FileInode.File.constructor | inode.c:1008-1095 | a new file is sound and empty |
| LogChain.CurrPageInvalid | inode.c:1616-1644 | a page is garbage if and only if each of its records is; FileGarbage.InvalidIffSuperseded says which records are |
| FileGarbage.InvalidIffSuperseded | inode.c:1561-1614 | with exact counters and right marks the validity test rejects a write if and only if no page of the index is its own, an attribute record if and only if another one follows and it does not set the size, and a link record if and only if another one follows |
| FileGarbage.FastTakesGarbage | inode.c:1886-1974 | after a fast collection of such a file, exactly the pages before the tail page that hold nothing but such records are off the chain and back with the allocator |
| FileGarbage.ThoroughCopiesTheRest | inode.c:1838-1866 | the thorough collection copies exactly the other records, except that it loses an attribute record that does not set the size if one that does was passed before it |
| LogChain.Unlink | inode.c:1658-1668 | redirecting the predecessor takes a page out of the chain and keeps it acyclic |
| LogChain.ReadLog | inode.c:2171-2253 | walking the links from the head to the tail reads exactly the committed records of the chain |
| LogChain.SaneImageReplays | inode.c:2171-2253 | a rebuild from any sane crash image gives index and size of the uncollected log, wherever the marks of the last attribute and link records point |
| LogChain.SaneImageKeepsView | inode.c:2171-2253 | and its attributes and link count if these marks are right |
| LogCollect.DropStep | inode.c:1658-1668 | both stores of freeing a page leave a sane image: the link first, then the page |
| LogCollect.HeadStep | inode.c:1948-1970 | so do moving the head off a dead first page and giving that page back |
| LogCollect.InodeLog.FreeCurrPage | inode.c:1658-1668 | one page leaves the chain, on record store by store |
| LogCollect.InodeLog.FastGc | inode.c:1886-1974 | afterwards the chain is exactly the live pages before the tail page, the pages from it on and the new pages; exactly the other pages went back (FileGarbage.FastTakesGarbage says which those are); every state on the way is one store from the last and sane |
| LogCollect.EveryCrashReplays | inode.c:1907-1970 | whichever store a crash follows, the head leads by an acyclic chain of pages that are not free to the tail page, and recovery rebuilds the old index and size, and the old view if the marks are right |
| CopyLog.LeftOutIff | inode.c:1806-1834 | which records the copying pass leaves out, as a function of the log alone |
| CopyLog.LastAttrSurvivesIff | inode.c:1734-1735 | the last attribute record is copied if and only if it sets the size or no size-setting record precedes it among the collected ones |
| CopyLog.ModeChangeCanBeLost | inode.c:1576-1581 | a log in which a change of mode is lost |
| CopyLog.LeftOutIsInvalid | inode.c:1561-1614 | apart from that record, the pass leaves out exactly what the validity test rejects |
| CopyLog.LaidAddrs | nova.h:820-827 | records packed into a page stay clear of the link and have distinct addresses in that page |
| CopyLog.CopyStep | inode.c:1820-1833 | copying one record keeps new pages, addresses, marks and index in step |
| CopyLog.CarryMore | inode.c:1828-1831 | the counter is copied with its record: each copy has it, and no other counter changes |
| CopyLog.NewPlace | inode.c:1820-1833 | no copy overwrites another |
| CopyLog.AssignFileEntry | inode.c:1670-1695 | looking at the pages that a record covers is enough to redirect all its owners |
| LogCompact.InodeLog.GetAppendHead | inode.c:2067-2100 | finds room for the record, going on to the next page or linking a new one if and only if this one is full, and fails if and only if it needs a page and there is none |
| LogCompact.InodeLog.CopyEntry | inode.c:1806-1836 | one record is left out or copied with its counter, unless there is no page; the old log stays readable after each store |
| LogCompact.InodeLog.CopyAll | inode.c:1805-1836 | all pages before the tail page are passed, and the last one passed still links to it; or the pass stops for want of a page, with the old log readable all along |
| LogCompact.InodeLog.FreeLogBlocks | inode.c:212-258 | exactly the pages of the given chain go back, while the log elsewhere stays readable |
| LogCompact.InodeLog.Switch | inode.c:1838-1866 | link, head, cut, free: up to the head store one reads the old log, from it on the new one; the old log's last page links to the tail page, so the check in between never fires |
| LogCompact.InodeLog.ThoroughGc | inode.c:1765-1873 | the whole collection with its two traces, or with the old log all along if there is no page for a copy; unused new pages and exactly the old pages before the tail page go back; the counters it leaves tell the truth about the new log if the old ones did about the old; FileGarbage.ThoroughCopiesTheRest says what is copied |
| LogCompact.NewLogIsMoved | inode.c:1805-1836 | the new log is the old one without what was left out, at the copies' addresses |
| LogCompact.CompactionKeepsFile | inode.c:1765-1873 | recovery from the new log finds every page at the copy of its record, and the same size, also when the mark of the last attribute record is stale |
| LogCompact.CompactionKeepsCounters | inode.c:1828-1831 | the copied counters can be trusted by the next collection as the old ones were, so that these results hold for any number of collections |
| LogCompact.CrashAfterSwitch | inode.c:1838-1866 | the same for the log that a crash leaves at any moment from the switch of the head on |
| LogCompact.CompactionKeepsView | inode.c:1765-1873 | and the same attributes and links unless the last attribute record was left out |
| LogCompact.MarkIsStaleIff | inode.c:1734-1735 | the mark is wrong for the next collection if and only if a size-setting record was copied |
| LogWalk.Write | inode.c:2067-2100 | records are placed by their true size, with a mark where a page is left |
| LogWalk.Read | nova.h:829-844 | a walk by marks and the least record size visits exactly the records written, in order, across all page boundaries |
| LogWalk.RecordFits | nova.h:820-844 | each record lies wholly in its page, right behind the one before it, or at the start of the next page if and only if it does not fit there |
| LogWalk.ReaderFollows | nova.h:820-844 | the reader turns the page if and only if the writer did |
| LogWalk.NothingOverwritten | inode.c:1646-1656 | neither records nor marks are ever overwritten |
| LogWalk.SecondFollowsFirst | dir.c:207-259 | the second record written to a log lies right behind the first one on its page |
| Journal.NextOfSlot | journal.c:39-48 | the ring has 64 slots in a circle |
| Journal.SlotsDiffer | journal.c:187-203 | head, one past it and two past it differ, so the distance tells how many records there are, also across the wrap |
| Journal.PublishKeeps | journal.c:84-119 | moving the tail over records of present values keeps the state recoverable |
| Journal.CommitKeeps | journal.c:121-131 | moving the head applies all stores of the transaction to the committed memory at once |
| Journal.EveryRunIsRecoverable | journal.c:84-213 | over all runs of any number of transactions on any CPUs, with stores reaching NVMM in any order, crashes anywhere and mounts cut short, each state can be recovered to the memory with exactly the committed transactions |
| Journal.MountArrives | journal.c:172-213 | a mount turns every such state into that memory and leaves all rings empty |
| Journal.MountIsARun | journal.c:149-213 | a mount is itself such a run, so crashes during recovery are covered |
| Journal.Creation | journal.c:84-119 | creating a transaction of one or two records is a run |
| Journal.UndoEntry | journal.c:133-147 | undoes the four places of a record, by size |
| Journal.UndoRestores | journal.c:50-73 | undoing writes committed values only, and all that the record names |
| Journal.LiteJournal.constructor | journal.c:215-243 | empty rings are a good state to start from |
| Journal.LiteJournal.CreateLiteTransaction | journal.c:84-119 | the method's stores are the steps of Creation |
| Journal.LiteJournal.CommitLiteTransaction | journal.c:121-131 | the committed memory takes over the whole transaction |
| Journal.LiteJournal.RecoverLiteJournal | journal.c:149-170 | one or two records are undone, head first, and the ring is emptied |
| Journal.LiteJournal.SoftInit | journal.c:172-213 | succeeds if and only if every tail is at most two records past its head, and then recovers every ring |
| Journal.TaggedMountArrivesIff | journal.c:140-144 | with the tag left in the address, the mount arrives if and only if every word that a pending record names already has the recorded value |
| Journal.CommittedIffNothingToUndo | journal.c:133-147 | which in a recoverable state says just that the memory is the committed one |
| Journal.TaggedMountFails | journal.c:140-144 | a torn transaction that the mount keeps |
| Transactions.SavedPlace | namei.c:81-88 | saving a steady word at a blank place keeps the record one of present values and adds exactly that word to what it names |
| Transactions.Transact | journal.c:84-131 | publishing records, making the stores that they name and committing is a run of the journal that is all or nothing |
| Transactions.MountSeesAllOrNothing | journal.c:172-213 | a mount after a crash at any step of such a transaction finds all of its stores or none |
| Transactions.SaveForNewInode | namei.c:81-88 | the record names exactly the words that are stored |
| Transactions.ForNewInode | namei.c:69-103 | the directory's tail and the valid byte of the inode change together or not at all; afterwards these words hold their new values and all others what they held |
| Transactions.SaveForLink | namei.c:295-308 | the record names exactly the words that are stored, with and without invalidation |
| Transactions.ForTimeAndLink | namei.c:282-327 | the tails of inode and directory and, if the last name goes, the valid byte change together or not at all; each word holds its own new value, and all others are as before |
| Transactions.SaveForRename | namei.c:748-788 | in every case the one or two records name exactly the words that are stored |
| Transactions.ForRename | namei.c:748-823 | up to six words change together or not at all: within a directory or between two, of a file or a directory, over an existing name or not; afterwards every tail is that of its own inode, ".." names the new directory, the replaced inode is invalid if no link is left, and all other words are as before |
| Ranges.FindRangeNode | balloc.c:126-153 | for every shape of the tree the search ends in the range with the number or at a neighbour of the gap where it belongs |
| Ranges.GapIsFree | balloc.c:126-153 | in an ordered tree a miss means that no range has the number |
| Ranges.FindFreeSlot | balloc.c:231-273 | the gap, and that an overlap is noticed if and only if the search ends at a range that has one of the numbers |
| Ranges.ShapeDecides | balloc.c:248-263 | two trees of the same ranges of which only one leads to the overlap |
| Ranges.InsertRangeNode | balloc.c:168-203 | the new node is linked at its place in the order, or a range that has its first number is reported |
| FreeLists.MergedSorted | balloc.c:328-361 | after freeing, ranges are sorted, disjoint and never adjacent |
| FreeLists.MergedHas | balloc.c:328-361 | exactly the freed blocks are added |
| FreeLists.MergedSum | balloc.c:328-361 | and the sum of the sizes grows by their number |
| FreeLists.TakenHas | balloc.c:445-476 | the blocks handed out were free, are not any more, and nothing else changes |
| FreeLists.FreeList.FreeBlocks | balloc.c:275-378 | refuses a run only if part of it is free; otherwise merges it, and keeps order, node count and block count and adds exactly the run if and only if none of it was free and the run does not join the first node to its left neighbour; a leftmost first node stays leftmost |
| FreeLists.OrderedIffApart | balloc.c:328-361 | merging a run keeps the order if and only if none of it is there already |
| FreeLists.FreeList.AddRun | balloc.c:328-361 | the four ways of merging, in place |
| FreeLists.FreeList.AllocBlocks | balloc.c:426-486 | an ordinary request always gets one to n blocks from the first node; a larger-page request gets all from the next node that has them, if and only if there is one from the first node on; otherwise only the count changes, and wrongly |
| FreeLists.FreeList.Serve | balloc.c:533-557 | the same with the repair of a null first node, which is never due where the first node is leftmost |
| Allocator.EveryRunIsSafe | balloc.c:275-597 | over all interleavings of allocations and frees of blocks in use, no block is lost, free twice, or both free and in use, every list stays in order, and lists without touching ranges stay so |
| Allocator.AllocKeeps | balloc.c:426-486 | what is handed out belongs to the device and was not in use |
| Allocator.BlockAllocator.CandidateFreeList | balloc.c:488-506 | the first of the fullest lists |
| Allocator.BlockAllocator.ChooseList | balloc.c:526-551 | the caller's own list if that has enough blocks, otherwise a fullest one, within three retries |
| Allocator.BlockAllocator.NewBlocks | balloc.c:509-579 | without interference a request is served if and only if some list counts enough blocks and, for larger pages, the chosen list has a node that has them all from its first node on; the chosen list is the own one if that counts enough, else a fullest one, also when the request fails; then its count goes down and nothing else |
| Allocator.CountIsLost | balloc.c:478-480 | a fragmented list that loses its count that way |
| Bitmap.FindNext | bbuild.c:586-602 | the next bit of the given value |
| Bitmap.BuildBlocknodeMap | bbuild.c:572-621 | the scan ends, and each list holds exactly the maximal runs of unset bits of its span |
| Bitmap.ListsAreComplement | bbuild.c:572-621 | together the lists are the complement of the bitmap, without overlap |
| SavedLists.AppendEntry | bbuild.c:359-388 | goes on to the next page when one is full, and fails exactly when all are |
| SavedLists.Save | bbuild.c:468-535 | with enough pages every range is saved, in order; without a page nothing is, and nothing was free |
| SavedLists.TakingAddsNoNode | bbuild.c:481-504 | taking the pages adds no node, so the number counted before suffices |
| SavedLists.Load | bbuild.c:182-242 | every range of the log ends up in the list of its first block, in order, and the first node of each list is the range that was loaded into it first |
| HomeLists.ListOfIsSpan | bbuild.c:57-67 | a block belongs to the list of a CPU if and only if it is in the span of that list, and otherwise to the shared one |
| HomeLists.ScannedIsAtHome | bbuild.c:572-622 | lists built by the recovery scan from these spans have every range in the list of its first block |
| SavedLists.FirstIsLeftmostIff | bbuild.c:232-234 | which is the leftmost one if and only if no other range of the list begins before it |
| SavedLists.AtHomeFirst | bbuild.c:232-234 | and is so in lists whose ranges are all at home |
| SavedLists.StraddleRuns | balloc.c:275-378 | two frees and an allocation that leave a range in the list before its own |
| SavedLists.FirstNodeNotLeftmost | bbuild.c:232-234 | saved and loaded, these lists have a free block before the first node, and two requests leave a null first node although that block is free |
| SavedLists.RoundTrip | bbuild.c:182-242 | the same blocks are free as before, the first nodes are leftmost exactly under that condition, and lists whose ranges are at home come back unchanged |
| SavedLists.LoadedIsSafe | bbuild.c:182-242 | loading what was saved from a safe pool gives a safe pool with the same free blocks, also when ranges move to another list |
| SavedLists.SafeIsDisjoint | bbuild.c:182-242 | what is saved from a safe pool can always be loaded |
| SavedLists.RemountRestores | bbuild.c:468-535 | taking pages for the log by any run of allocations, saving, loading and giving the pages back by any run of frees leaves exactly the same blocks free, and the pages counted before the first was taken hold every node |
| ScanWindow.SetRingArray | bbuild.c:872-892 | the array shows the window of the index with the write applied |
| ScanWindow.RingSetattr | bbuild.c:916-950 | the array shows the window of the index with the cut applied |
| ScanWindow.SetFileBm | bbuild.c:894-914 | marks the blocks of the window and clears the whole array |
| ScanWindow.ReplayWindow | bbuild.c:978-1030 | one pass shows the window of the replayed index |
| ScanWindow.MarkLogPages | bbuild.c:970-1040 | the walk along the links marks exactly the pages of the chain, beyond the tail page too |
| ScanWindow.TraverseFileInodeLog | bbuild.c:952-1056 | for files of any length the scan ends, marks exactly the log pages and the blocks that a rebuild would map, and leaves the array clear |
| ScanWindow.PassesAgree | bbuild.c:1020-1030 | skipping dead records makes no difference to the index |
| InodeMap.InoLeadsBack | inode.c:689-705 | an inode number determines its map and its number there |
| InodeMap.NotReserved | inode.c:42-44 | no number beyond the initial range of a map is reserved |
| InodeMap.ReservedExactly | inode.c:42-44 | which inode numbers are in reserve at first: those below 16, and if the CPUs do not divide 16 those up to twice their number beyond its last multiple |
| InodeMap.NormalAreUnusedIff | inode.c:42-44 | all normal numbers are unused at first if and only if the CPUs divide 16 |
| InodeMap.InodeMap.constructor | inode.c:31-66 | initially exactly these numbers are in use |
| InodeMap.InodeMap.AllocUnusedInode | inode.c:647-695 | the least unused number, never a reserved one; fails only when all but the last are used |
| InodeMap.InodeMap.FreeInuseInode | inode.c:697-764 | succeeds if and only if the number is in use, and then removes exactly it; the map stays valid if and only if the number is not reserved |
| InodeMap.InodeMap.FailureInsert | bbuild.c:69-145 | refuses a run only if part of it is there; otherwise the map stays valid, with exactly the run added, if and only if none of it was |
| InodeMap.InodeMap.RecoverPage | bbuild.c:1174-1246 | gathering numbers that follow each other adds exactly the inodes found valid |
| Directory.ReplayIsIndex | dir.c:376-472 | a replay rebuilds the live index, and no insertion in it fails |
| Directory.CollectedReplay | inode.c:1595-1600 | so does the replay of a log from which superseded and delete records were dropped |
| Directory.ReplayMeans | dir.c:376-472 | for any log and any flags: a replay succeeds if and only if no name is added twice without a deletion in between, and then finds exactly the records that still stand |
| Directory.LostFlagsHarmlessIff | dir.c:98-99 | after a crash that lost any set of flags, the replay is right if and only if every record whose flag is lost is followed by a deletion of its name before a record that the replay takes for live adds it again |
| Directory.EarlyFlagsLoseNames | dir.c:98-99 | any set of flags without their delete records takes exactly the names of these records out of the index |
| Directory.FlagsHarmlessIff | dir.c:98-99 | the same if-and-only-if for any set of lost flags together with any set of early ones |
| DirInode.CollectedDeleteResurrects | inode.c:1595-1600 | a directory on three pages whose collection drops exactly the page with a deletion, so that the deleted file comes back after a crash |
| DirInode.TwoLostFlagsEndReplay | dir.c:453-466 | one whose collection drops the deletion between two records of a name, so that the mount fails although the last deletion is in the log |
| DirInode.Dir.constructor | dir.c:207-259 | a directory begins with "." for itself at the start of the head page and ".." for its parent right behind it |
| DirInode.RecLenIs | nova.h:217-218 | the size of a directory record: 29 bytes and the name, rounded up to the next multiple of eight |
| DirInode.Dir.Append | inode.c:2067-2100 | a record goes to the tail, or to a new page if it does not fit, and the whole invariant is kept |
| DirInode.Dir.AddDentry | dir.c:264-306 | adds the name to index and log if and only if it is not taken; a refused name changes neither |
| DirInode.Dir.RemoveDentry | dir.c:311-341 | removes the name and flags its record if it is there, and logs the removal either way |
| DirInode.Dir.SetParent | namei.c:691-703 | the record that rename finds behind the first one on the head page is "..", after any appends and collections, and storing the new parent there keeps index and log in step |
| DirInode.Dir.FastCollect | inode.c:1886-1974 | exactly the dead pages before the tail page go with their records; the head page never does |
| DirInode.Dir.ThoroughCollect | inode.c:1765-1873 | the log becomes the live records before the tail page, packed on new pages in order, and the tail page; the same names lead to the same inodes, and "." and ".." are again at the start of the head page |
| DirInode.PackNext | inode.c:1820-1833 | a copy is laid behind the last one or on the next page, at an address of its own |
| DirInode.Dir.Rebuild | dir.c:376-472 | the loop computes the replay, and with all flags the live index |

## Left out

- FileInode.File.CowFileWrite: a fault while copying from the user is not modelled, nor is the test for it, which never fires because the result is unsigned (dax.c:336, dax.c:503); a write that runs out of blocks keeps the blocks it took.
- FileInode.File.NewDataBlocks: the lists are those of the CPUs; blocks of the shared list are never handed out (balloc.c:497-503), and `File.free` does not have them. How the blocks are spread over the lists may change between two requests, but no other file takes blocks in the middle of an operation.
- FileInode.File.ExtendLog: how many pages a collection leaves in the log is left open; pages beyond the first run of blocks are not taken from `File.free`, and those that a collection gives back do not return to it.
- FileInode.File.MaybeCollect: a thorough collection that has begun gets its pages; the pages of the log are not among the blocks of the file's memory, but that they are given back only when no log leads to them is part of the traces.
- FileInode.File.Truncate: the page cache and mapped pages are not modelled.
- LogCompact.InodeLog.CopyEntry: where the source cannot get a page for a copy, it stores through a null pointer; here the pass stops, with the old log in place.
- Transactions.ForRename: the words of one transaction differ, because a rename of one name of an inode to another does nothing.
- Journal.EveryRunIsRecoverable: concurrent transactions touch different words, because their callers hold the locks of the inodes.
- Bitmap.BuildBlocknodeMap: requires that the bitmap ends with the last list, that is, that the number of blocks is a multiple of eight; otherwise the scan in the source runs past the bitmap.
- SavedLists.RoundTrip: a range that begins in another list's span moves there, where it may touch a neighbour.
- DirInode.Dir.AddDentry: names with equal hashes are one name.
- DirInode.Dir.ThoroughCollect: attribute and link records of a directory are not modelled; new pages are given, one for each record at most.
- When a collection runs and how many pages it asks for (inode.c:1876-1884, inode.c:1972-1985): thresholds that no property here depends on.
- mmap, direct I/O, fsync, seek, symbolic links, timestamps, permissions, i_blocks, mount options and the superblock: they share none of the invariants above.
- Failures to allocate DRAM, statistics, and the internals of radix and red-black trees.
