# Verified model of the flash storage stack

This project models, in Dafny 4.11, the parts of the operating system that keep data on flash memory, and proves what
they promise of each other and over whole runs:

- **The YAFFS2 file system** (`fs/yaffs2/_private`): allocation, deletion and erasure of chunks with their redundant
  counters (`FlashBlocks`, `ChunkAllocator`, `ChunkBits`); who owns which chunk, and garbage collection
  (`References`, `FileStore`, `StoreRuns`); reading, writing and resizing files through the short-op cache
  (`CacheView`, `ShortOpCache`, `CacheRuns`); the tnode tree, its packed leaves and its checkpoint form
  (`TnodeTree`, `TnodePacking`, `TnodeCheckpoint`); the checkpoint byte stream (`CheckptLayout`, `CheckptStream`);
  mounting by a backward scan of the log (`LogReplay`, `LogExact`, `MountScan`); chunk tags (`PackedTags`); extended attributes
  (`NameValue`).
- **The BCH codec** (`fs/mtd/linux/bch.cpp`, `fs/mtd/nand/nandbch.cpp`): the field tables and the field they form
  (`Bits`, `BinaryPoly`, `GaloisField`, `FieldLaws`), the generator polynomial (`Generator`, `BinaryEval`,
  `BchGenerator`), the table-driven encoder (`Words`, `BchTables`, `BchStream`, `BchEncoder`, `EccBytes`), syndromes
  (`BchSyndromes`, `BchErrors`), the Berlekamp-Massey iteration over power series and Newton's identities (`GfSeries`,
  `Newton`, `Locators`, `BchLocator`), roots (`BchRoots`, `Traces`, `BchDegree2`, `BchBase`), decoding and correction of up to t errors (`BchCodec`,
  `NandBch`), and division of polynomials over the field (`GfPolyDivision`).
- **Two Hamming codes** (`EccTables`, `EccParity`, `EccOther`, `Ecc256`, `NandEcc`) and **quicksort** (`Qsort`).

Objects whose C functions update them in place are classes with a `Valid()` or `Inv()` predicate; tables, trees,
layouts and logs are values with functions and lemmas. Erasing, writing, marking bad and the free-space check may
succeed or fail in any way: they are nondeterministic choices. Every operation of a class keeps the class invariant,
so it holds in every reachable state; `StoreRuns.Run` and `CacheRuns.Run` state this for whole runs.

Findings, each with a concrete input and the exact condition where one can be given:

- The check for an erased chunk comes before the correction of the tags (`yaffs_packedtags2.c:157`): a single bit
  error that turns the stored sequence number into all ones loses the tags without a report. Every other single bit
  error is corrected (`PackedTags.TagBitFixedIff`, `PackedTags.OneBitLosesTags`).
- `build_gf_tables` accepts polynomials without a constant term, whose powers form no field
  (`GaloisField.PowersCoverIffOdd`, `GaloisField.EvenPolyAccepted`).
- The scan computes a chunk's base in 32 bits, so files past 4 GB can be recovered wrongly (`LogReplay.WrapsAt4G`). A
  file is recovered rightly if and only if for no chunk the shrink size of the newer headers lies above its 32-bit base
  and at or below its true base, and nothing past 4 GB that is newer than the newest header reaches further than that
  header and the newer pages below 4 GB (`LogExact.RecoveredIff`, for every log). Files whose data begins below 4 GB
  are always recovered (`LogReplay.ScanIsReplay`).
- `yaffs2_ybicmp` subtracts sequence numbers as ints: it orders two blocks by age if and only if the numbers are less than
  2^31 apart (`MountScan.YbicmpAgeIff`), and legal numbers further apart can form a circle (`MountScan.YbicmpCircle`).
- `nval_set` checks that the record fits, but the padding of the name writes four bytes more
  (`NameValue.PaddingOverrun`, `NameValue.OverrunIff`, `NameValue.WritesInsideIff`); `NameValue.XattrBuffer.Set` asks of records that pass the
  check that those four bytes are inside the buffer. `nval_del` moves overlapping bytes with `memcpy`; the model copies
  from the front, which is what the code needs.
- A whole-chunk write past the cache that is refused still forgets the cached entry. Data is lost if and only if the
  entry held what the store does not (`CacheView.ForgetUnseenIff`, `ShortOpCache.FileCache.WrPast`), which for a whole
  `yaffs_do_file_wr` can be told from the state before it (`ShortOpCache.FileCache.DoFileWr`, `ShortOpCache.LosesThere`);
  `CacheView.ForgottenByte` is a byte that changes. Writes past the end of a file lose nothing.
- When `yaffs2_handle_hole` runs out of space it cuts the file back in the store but not in the cache: zeros stay there with
  their count of bytes, and go to the tags past the end of the file when they are flushed. Counts stay inside the file if
  and only if no dirty entry counts past its end (`ShortOpCache.CutInsideIff`, `ShortOpCache.CountedPastEnd`).
- When the clock of the cache runs out, all use stamps but that of entry 0 are cleared, so entry 0 stays the latest for a
  whole round (`CacheView.LatestIff`).
- A failed flush is told neither by `yaffs2_checkpt_wr`, which returns a count, nor by `yaffs_checkpt_close`, which throws
  the result away. A save is reported although its last page is lost, if and only if its bytes go past the pages that
  fit and no portion is cut short (`CheckptStream.LostUnreportedIff`, `CheckptStream.LastPageLost`). A portion that
  ends exactly with the page that does not fit leaves the buffer full, and the next byte is stored past the page, at
  `data_bytes_per_chunk`, outside the buffer when a chunk has no more bytes than that; this happens if and only if
  portions end there and more bytes follow (`CheckptStream.WentPastIff`, `CheckptStream.StoredPastPage`).
- A checkpoint that is refused for lack of blocks is still closed: the flush writes a page where the last stream stopped
  inside a block (`CheckptStream.Save`, `CheckptStream.RefusedSaveWrites`).
- The save of a checkpoint has no limit on its blocks but the reader stops after `blocks / 16 + 2`, so a larger checkpoint
  is written and cannot be read back (`CheckptStream.AllReadableIff`, `CheckptStream.TooLargeToRead`).
- `yaffs_checkpt_close` compares the offset with the size of a size, so it always flushes a last page
  (`CheckptStream.Stream.CloseWrite`).

## Model

| member | source | states |
|---|---|---|
| `LogReplay.ScanIsReplay` | fs/yaffs2/_private/yaffs_yaffs2.c:1114-1158 | for every log and every file whose own data chunks begin below 4 GB, scanning newest first with the running minimum of the shrink size recovers the chunk map and size that replaying oldest first gives |
| `LogReplay.ScanCompletes` | fs/yaffs2/_private/yaffs_yaffs2.c:1219-1257 | from any point of the scan of such a file, what was found so far completed by the replay of the older chunks is the result: first seen wins, and every later cut applies |
| `LogReplay.CompleteStep` | fs/yaffs2/_private/yaffs_yaffs2.c:1114-1158 | scanning one more chunk, or counting it to the older part of the log, makes no difference; only a data chunk of the file itself has to begin below 4 GB |
| `LogReplay.CompleteHeader` | fs/yaffs2/_private/yaffs_yaffs2.c:1286-1371 | a newest header cuts at its own size, an older one only if it tells of a shrinking or has a deleted or unlinked parent |
| `LogReplay.ReplayBelowMax` | fs/yaffs2/_private/yaffs_guts.c:669-675 | no chunk id reaches the largest file size, so a file not yet cut loses nothing |
| `LogReplay.ScanLive` | fs/yaffs2/_private/yaffs_yaffs2.c:1114-1158 | after the scan the chunks still in use are exactly the header and the mapped data chunks, each referred to once |
| `LogReplay.DataScanned` | fs/yaffs2/_private/yaffs_yaffs2.c:1104-1158 | one data page, from its tags: it is mapped if and only if it is used, readable, of this object, with legal numbers, of its block's sequence number and with at most a full chunk of bytes; then the size is its end, otherwise nothing changes |
| `LogReplay.HeaderScanned` | fs/yaffs2/_private/yaffs_yaffs2.c:1160-1371 | one header page, from its tags: under the same condition it becomes the header and gives the size |
| `LogReplay.ScannedUnderHeaders` | fs/yaffs2/_private/yaffs_yaffs2.c:1219-1371 | a data page under two headers is mapped if and only if it begins below the newer size, the older header has no unlinked or deleted parent (3, 4), and begins below the older size if that tells of a shrinking |
| `LogReplay.OneChunkIff` | fs/yaffs2/_private/yaffs_yaffs2.c:1114-1158 | a log of one data chunk is recovered rightly if and only if the chunk begins below 4 GB |
| `LogReplay.WrapsAt4G` | fs/yaffs2/_private/yaffs_yaffs2.c:1114-1158 | the 32-bit chunk base makes the recovered size of a file that reaches past 4 GB wrong: a one-chunk log |
| `LogExact.RecoveredIff` | fs/yaffs2/_private/yaffs_yaffs2.c:1114-1158 | for every log and every file the scan recovers what the log means if and only if no chunk is misjudged and the size is right |
| `LogExact.MapRightIff` | fs/yaffs2/_private/yaffs_yaffs2.c:1114-1158 | the chunk map is right if and only if for no chunk id the shrink size left by the headers newer than its newest data page lies above its 32-bit base and at or below its true base |
| `LogExact.SizeRightIff` | fs/yaffs2/_private/yaffs_yaffs2.c:1114-1158 | the size is right if and only if no page past 4 GB newer than the newest header reaches past that header's size and all newer pages below 4 GB |
| `LogExact.ScanAt` | fs/yaffs2/_private/yaffs_yaffs2.c:1219-1257 | the scan keeps the newest data page of a chunk if and only if its 32-bit base is below the shrink size of the newer headers |
| `LogExact.ReplayAt` | fs/yaffs2/_private/yaffs_yaffs2.c:1114-1158 | the replay keeps it if and only if its true base is |
| `LogExact.Below4GRecoverable` | fs/yaffs2/_private/yaffs_yaffs2.c:1114-1158 | files whose data begins below 4 GB are recoverable |
| `LogExact.HeaderCovers` | fs/yaffs2/_private/yaffs_yaffs2.c:1114-1158 | a chunk at 4 GB under a newer header of 8 GB is recovered rightly, although it begins past 4 GB |
| `MountScan.YbicmpAgeIff` | fs/yaffs2/_private/yaffs_yaffs2.c:1008-1019 | the 32-bit difference orders two blocks by age, asked either way round, if and only if their sequence numbers are less than 2^31 apart |
| `MountScan.YbicmpCircle` | fs/yaffs2/_private/yaffs_yaffs2.c:1008-1019 | three legal sequence numbers that the comparison puts in a circle |
| `MountScan.ComparesByAge` | fs/yaffs2/_private/yaffs_yaffs2.c:1402-1577 | on a device whose sequence numbers are less than 2^31 apart the comparison is the order by age |
| `MountScan.ScannedNumbers` | fs/yaffs2/_private/yaffs_yaffs2.c:1476-1494 | the lowest and highest sequence numbers that are scanned, and their neighbours that are not |
| `MountScan.Scanner.ScanChunk` | fs/yaffs2/_private/yaffs_yaffs2.c:1021-1400 | one scanned chunk changes its own file by the scan step, which DataScanned, HeaderScanned and ScannedUnderHeaders spell out in the tags, and no other file; chunks with bad tags change nothing |
| `MountScan.Scanner.ScanBlock` | fs/yaffs2/_private/yaffs_yaffs2.c:1516-1558 | a block is scanned last chunk first |
| `MountScan.CollectBlocks` | fs/yaffs2/_private/yaffs_yaffs2.c:1402-1577 | the blocks that hold data, and their highest sequence number, or 0x1000 without any |
| `MountScan.SortBlocks` | fs/yaffs2/_private/yaffs_yaffs2.c:1402-1577 | the index is a permutation of the scannable blocks, ordered by age and by the comparison itself, if their sequence numbers are less than 2^31 apart |
| `MountScan.Scanner.ScanBackwards` | fs/yaffs2/_private/yaffs_yaffs2.c:1402-1577 | whatever the blocks, a file found is the replay of the log in order of age if and only if it is recoverable, and always if its data begins below 4 GB; which pages count is in DataScanned and HeaderScanned |
| `ChunkAllocator.Allocator.constructor` | fs/yaffs2/_private/yaffs_guts.c:2028-2069 | a device of erased blocks meets the invariant, with all its chunks free |
| `ChunkAllocator.Allocator.FindAllocBlock` | fs/yaffs2/_private/yaffs_guts.c:314-354 | an erased block is found exactly when the counter says there is one, so the second complaint is unreachable |
| `ChunkAllocator.Allocator.AllocChunk` | fs/yaffs2/_private/yaffs_guts.c:356-404 | one chunk that was unused is taken into use, or none, and outside the reserve only while more chunks are free than the reserve holds; counters and the single allocating block stay right |
| `ChunkAllocator.Allocator.SkipRestOfBlock` | fs/yaffs2/_private/yaffs_guts.c:419-430 | the block being filled is closed and nothing else changes |
| `ChunkAllocator.Allocator.WriteNewChunk` | fs/yaffs2/_private/yaffs_guts.c:432-504 | the payload is in one chunk that was unused, or nowhere after more failures than attempts allowed or with no erased block left; chunks in use keep their contents whatever fails |
| `ChunkAllocator.Allocator.GiveBack` | fs/yaffs2/_private/yaffs_guts.c:204-221 | a chunk whose write failed is given back and its block closed |
| `ChunkAllocator.StruckOut` | fs/yaffs2/_private/yaffs_guts.c:186-202 | the fourth strike, and not an earlier one, marks a block for retiring; an error in a block already to be collected first is not counted |
| `ChunkAllocator.Allocator.RetireBlock` | fs/yaffs2/_private/yaffs_guts.c:506-546 | a retired block leaves the counts right |
| `ChunkAllocator.Allocator.BlockBecameDirty` | fs/yaffs2/_private/yaffs_guts.c:2071-2140 | an unused block is erased, and then holds nothing, or retired; free and erased counts stay equal to the recount |
| `ChunkAllocator.Allocator.ChunkDel` | fs/yaffs2/_private/yaffs_guts.c:2614-2667 | exactly one chunk leaves use, and its block is erased exactly when that was its last and no shrink header holds it |
| `ChunkAllocator.Allocator.SoftDelChunk` | fs/yaffs2/_private/yaffs_guts.c:1091-1105 | the chunk stays in use and counts as free |
| `ChunkAllocator.Allocator.ReclaimSoft` | fs/yaffs2/_private/yaffs_guts.c:2142-2265 | a soft-deleted chunk stops counting as free before it is deleted |
| `ChunkAllocator.Allocator.CheckptErase` | fs/yaffs2/_private/yaffs_checkptrw.c:86-123 | checkpoint blocks become erased or dead, all other blocks and all chunks in use stay |
| `ChunkAllocator.Allocator.CheckptInvalidate` | fs/yaffs2/_private/yaffs_yaffs2.c:870-878 | an invalidated checkpoint leaves no block marked and the counts right |
| `ChunkAllocator.Allocator.CheckptTake` | fs/yaffs2/_private/yaffs_checkptrw.c:435-469 | the blocks a checkpoint took are subtracted from both counters |
| `ChunkAllocator.Allocator.CountFreeChunks` | fs/yaffs2/_private/yaffs_guts.c:4488-4511 | the count over all blocks, which in every reachable state equals the counter |
| `ChunkAllocator.Allocator.VerifyBlk` | fs/yaffs2/_private/yaffs_verify.c:52-90 | the block check tells exactly whether its counts are in range and agree with the bitmap |
| `ChunkAllocator.Allocator.VerifyBlocks` | fs/yaffs2/_private/yaffs_verify.c:105-156 | the device check tells exactly whether all blocks pass, at most one is allocated from and one collected and the two counters are right; in every reachable state it passes |
| `ChunkAllocator.Allocator.NothingWrong` | fs/yaffs2/_private/yaffs_verify.c:105-156 | what the checks look for happens in no reachable state |
| `FileStore.Store.VerifyBlocks` | fs/yaffs2/_private/yaffs_verify.c:105-156 | the run-time check passes between operations and in the middle of a collection |
| `FlashBlocks.BlockBounds` | fs/yaffs2/_private/yaffs_verify.c:52-90 | 0 <= soft_del_pages <= pages_in_use <= chunks per block, and a block without chunk bits has neither |
| `FlashBlocks.TenBits` | fs/yaffs2/_private/yaffs_guts.h:220-222 | the ten-bit count of pages holds 511, and one more turns it negative |
| `References.OneOwner` | fs/yaffs2/_private/yaffs_guts.c:995-1089 | no chunk is referred to by two files, or twice by one |
| `References.Rewritten` | fs/yaffs2/_private/yaffs_guts.c:2142-2265 | moving a chunk to a new place keeps "every chunk in use has one owner and its tags say so" |
| `References.Reclaimed` | fs/yaffs2/_private/yaffs_guts.c:2142-2265 | taking back a soft-deleted chunk keeps it |
| `References.SoftDeleted` | fs/yaffs2/_private/yaffs_guts.c:1107-1151 | soft deletion keeps it |
| `References.Deleted` | fs/yaffs2/_private/yaffs_guts.c:3255-3296 | deleting a chunk of a file keeps it |
| `References.Removed` | fs/yaffs2/_private/yaffs_guts.c:2267-2362 | the final deletion of an object keeps it |
| `References.KeptLinked` | fs/yaffs2/_private/yaffs_guts.c:2071-2140 | erasing an unused block keeps it |
| `FileStore.Store.GcProcessChunk` | fs/yaffs2/_private/yaffs_guts.c:2142-2265 | one chunk leaves the block being collected: reclaimed, or copied with the next serial number and the same bytes, where a copied header says the stored size of a file and no longer that it shrank or shadows anything; no object holds anything else than before |
| `FileStore.Store.CollectChunks` | fs/yaffs2/_private/yaffs_guts.c:2267-2362 | up to the allowed number of chunks are moved; without failure the whole block is emptied; a soft-deleted object that loses its last chunk is put on the list |
| `FileStore.Store.GcBlock` | fs/yaffs2/_private/yaffs_guts.c:2267-2362 | a collection, whole or five chunks at a time, changes nothing any live object holds: its data exactly, its header exactly or written anew with the stored size and without shrink and shadow fields; a whole one without failure leaves no chunk in use in the block, and when the block is done no soft-deleted object is left that lost its last chunk |
| `FileStore.Store.CleanUp` | fs/yaffs2/_private/yaffs_guts.c:2267-2362 | the objects on the list, soft-deleted and without data, go, and no other object changes |
| `FileStore.Store.CheckGc` | fs/yaffs2/_private/yaffs_guts.c:2502-2584 | a collection goes on with its block, or any full block is chosen and collected from its first chunk, all of it or five chunks; nothing any live object holds changes, and without a full block nothing at all |
| `FileStore.Store.WrDataObj` | fs/yaffs2/_private/yaffs_guts.c:2669-2721 | one chunk of one file holds the new bytes under the next serial number, every other chunk and header of every object what it held; the stored size is raised in 32 bits first, and stays so when the write is refused, which changes nothing else |
| `FileStore.Store.UpdateHeader` | fs/yaffs2/_private/yaffs_guts.c:2873-3017 | the object has the new header with the stored size of a file that is not unlinked; a header that tells of a shrinking marks its block |
| `FileStore.Store.SetStoredSize` | fs/yaffs2/_private/yaffs_guts.c:3298-3326 | cutting a file sets its stored size and keeps the invariant |
| `FileStore.Store.SkipRest` | fs/yaffs2/_private/yaffs_yaffs2.c:1402-1577 | closing the block being filled is seen by no object |
| `FileStore.Store.InvalidateCheckpt` | fs/yaffs2/_private/yaffs_yaffs2.c:870-878 | dropping the checkpoint between operations leaves none, and every object as it was |
| `FileStore.Store.SaveCheckpt` | fs/yaffs2/_private/yaffs_checkptrw.c:210-261 | the old checkpoint is erased and the chosen erased blocks are counted out, with every object as it was |
| `FileStore.Store.DeleteChunk` | fs/yaffs2/_private/yaffs_guts.c:3255-3296 | one chunk leaves the file |
| `FileStore.Store.SoftDelFile` | fs/yaffs2/_private/yaffs_guts.c:1506-1528 | an empty file goes at once, another loses its references while its chunks stay in use |
| `FileStore.Store.SoftDelOne` | fs/yaffs2/_private/yaffs_guts.c:1107-1151 | one chunk is soft-deleted and its reference cleared |
| `FileStore.ViewsMoved` | fs/yaffs2/_private/yaffs_guts.c:2208-2262 | when one chunk is copied and only its reference changes, every object holds what it held |
| `FileStore.CollectedTrans` | fs/yaffs2/_private/yaffs_guts.c:2267-2362 | collections compose: a header written anew any number of times says the stored size |
| `StoreRuns.Run` | fs/yaffs2/_private/yaffs_guts.c:2142-2362 | over every run of creations, data and header writes, size changes, chunk and file deletions, collections, skipped blocks, checkpoints and their invalidations, with any failures, the invariant holds, live objects hold the data, header and stored size the operations say, and each header on flash says what it was written with or what a collection since then had to make of it |
| `StoreRuns.SizeSaid` | fs/yaffs2/_private/yaffs_guts.c:2228-2233 | once the header of a file is written, the header on flash says the file's size until that changes, however often the file is collected |
| `StoreRuns.CollectedSay` | fs/yaffs2/_private/yaffs_guts.c:2208-2243 | after a collection each header says what it said or what the collector makes of it |
| `StoreRuns.SameContents` | fs/yaffs2/_private/yaffs_guts.c:2142-2362 | equal views are equal contents |
| `StoreRuns.StepWrite` | fs/yaffs2/_private/yaffs_guts.c:2669-2721 | a write changes one chunk if it succeeds and the stored size in any case |
| `StoreRuns.StepHeader` | fs/yaffs2/_private/yaffs_guts.c:2873-3017 | a header write changes the lasting part of one header |
| `StoreRuns.StepDevice` | fs/yaffs2/_private/yaffs_guts.c:2502-2584 | collections, skipped blocks and checkpoints change nothing any live object holds |
| `ChunkBits.BlockBits.Put` | fs/yaffs2/_private/yaffs_bitmap.c:49-63 | setting or clearing a bit changes one page of the set |
| `ChunkBits.BlockBits.Check` | fs/yaffs2/_private/yaffs_bitmap.c:65-71 | the bit tells membership |
| `ChunkBits.BlockBits.StillSomeChunks` | fs/yaffs2/_private/yaffs_bitmap.c:73-84 | some byte is nonzero exactly when a page is in use |
| `ChunkBits.BlockBits.CountChunkBits` | fs/yaffs2/_private/yaffs_bitmap.c:86-96 | the population count is the number of pages in use |
| `CacheRuns.Run` | fs/yaffs2/_private/yaffs_guts.c:3019-3359 | over every run of writes, reads, flushes and resizes, with writes cut short when space runs out, each read up to the first loss returns what a plain zero-extended byte sequence would; only a refused write past the cache can be that loss; and every chunk, cached or stored, counts all its bytes that are not zero, and none past the end of the file while space lasts |
| `CacheRuns.Step` | fs/yaffs2/_private/yaffs_guts.c:3019-3359 | each operation, as far as it was carried out, keeps cache and store in agreement with the byte sequence |
| `ShortOpCache.AddrIsDivModIff` | fs/yaffs2/_private/yaffs_guts.c:45-68 | the shift-and-divide split is quotient and remainder if and only if the shifted address is below 2^31, or below 2^32 when it is divided |
| `ShortOpCache.FileCache.FileRd` | fs/yaffs2/_private/yaffs_guts.c:3019-3089 | the bytes read are the file's, and reading changes no byte of any file |
| `ShortOpCache.FileCache.DoFileWr` | fs/yaffs2/_private/yaffs_guts.c:3091-3246 | exactly the bytes done are replaced, and every chunk they reach counts all bytes of the file in it; cached data is lost if and only if a whole-chunk write past the cache is refused, the chunk was seen with data the store does not hold, and the first piece of the write did not evict it; then the chunk reads as it is stored |
| `ShortOpCache.FileCache.WritebackFills` | fs/yaffs2/_private/yaffs_guts.c:3121-3151 | n_writeback is the number of bytes that the file will have in the chunk |
| `ShortOpCache.CountsWrote` | fs/yaffs2/_private/yaffs_guts.c:3180-3207 | one more piece keeps the counts right: none but zeros follow what is counted, and nothing past the end of the file is |
| `ShortOpCache.CountsSame` | fs/yaffs2/_private/yaffs_guts.c:1268-1286 | evictions, flushes and reads keep all counts |
| `ShortOpCache.CutCounts` | fs/yaffs2/_private/yaffs_guts.c:3298-3326 | after a cut the last chunk counts what is left of it and the others lie inside the file |
| `ShortOpCache.FileCache.WrPast` | fs/yaffs2/_private/yaffs_guts.c:3091-3246 | a whole-chunk write past the cache, stored with the count of a whole chunk; a refused one brings back the stored chunk, and loses data if and only if that differs from what was seen |
| `ShortOpCache.LosesThere` | fs/yaffs2/_private/yaffs_guts.c:3091-3246 | whether a refused piece loses data is told by the state before the first piece |
| `ShortOpCache.LossSeen` | fs/yaffs2/_private/yaffs_guts.c:3091-3246 | a loss changes a byte that the write never wrote |
| `CacheView.ForgetUnseenIff` | fs/yaffs2/_private/yaffs_guts.c:3091-3246 | forgetting an entry is invisible if and only if the store holds the same data with the same count of bytes |
| `CacheView.UnstoredIsDirty` | fs/yaffs2/_private/yaffs_guts.c:3091-3246 | only a dirty entry holds data the store does not |
| `CacheView.ForgottenByte` | fs/yaffs2/_private/yaffs_guts.c:3091-3246 | a byte written as 7 over a stored 5 reads as 5 once its entry is forgotten |
| `CacheView.VictimStored` | fs/yaffs2/_private/yaffs_guts.c:1338-1367 | making room stores the data and the count of the least recently used entry and nothing else |
| `ShortOpCache.FileCache.WrCached` | fs/yaffs2/_private/yaffs_guts.c:3091-3246 | a write through the cache changes the view of one chunk only: its bytes, and its count to the one given; without a chunk to allocate only an entry that is dirty already is written |
| `ShortOpCache.FileCache.WrFile` | fs/yaffs2/_private/yaffs_guts.c:3248-3253 | a write past the end leaves a hole of zeros and loses nothing; every chunk written counts all bytes of the file in it; the exact loss of a refused write within the file, from the state before |
| `ShortOpCache.FileCache.HandleHole` | fs/yaffs2/_private/yaffs_yaffs2.c:925-1001 | filling a hole of less than four chunks with zeros is seen by no reader, nor is taking them back when space runs out; a larger hole is not filled |
| `ShortOpCache.FileCache.TakeBack` | fs/yaffs2/_private/yaffs_yaffs2.c:988-990 | cutting the file back without flushing its cache entries changes no byte |
| `ShortOpCache.CutInsideIff` | fs/yaffs2/_private/yaffs_yaffs2.c:988-990 | cutting the file in the store alone keeps every count inside it if and only if no dirty entry of it counts past the new end |
| `ShortOpCache.CountedPastEnd` | fs/yaffs2/_private/yaffs_yaffs2.c:988-990 | a zero of a hole left in the cache: the file reads right, and a byte past its end is counted |
| `ShortOpCache.NoLossPastEnd` | fs/yaffs2/_private/yaffs_yaffs2.c:925-1001 | a whole chunk past the end of its file is never lost |
| `ShortOpCache.FileCache.ResizeFileDown` | fs/yaffs2/_private/yaffs_guts.c:3298-3326 | everything stored from the new size on is zero and uncounted, all below it as before; other files are untouched |
| `ShortOpCache.FileCache.ResizeFile` | fs/yaffs2/_private/yaffs_guts.c:3328-3359 | bytes below the new size stay, the others are zero, other files are untouched |
| `ShortOpCache.FileCache.PruneChunks` | fs/yaffs2/_private/yaffs_guts.c:3255-3296 | the stored chunks past the new size and only those are dropped |
| `ShortOpCache.FileCache.FlushSingle` | fs/yaffs2/_private/yaffs_guts.c:1268-1286 | flushing and discarding an entry is seen by no reader; the store gets its data and its count |
| `ShortOpCache.FileCache.FlushFileCache` | fs/yaffs2/_private/yaffs_guts.c:1288-1304 | afterwards the file is not in the cache |
| `ShortOpCache.FileCache.GrabChunkCache` | fs/yaffs2/_private/yaffs_guts.c:1338-1367 | a free entry, or the least recently used one, flushed |
| `ShortOpCache.FileCache.FindChunkCache` | fs/yaffs2/_private/yaffs_guts.c:1369-1387 | the entry of the chunk, if there is one |
| `ShortOpCache.FileCache.StampCache` | fs/yaffs2/_private/yaffs_guts.c:1389-1410 | only use stamps change: the entry gets the next stamp, and when the clock has run out all stamps but that of entry 0 are cleared |
| `CacheView.LatestIff` | fs/yaffs2/_private/yaffs_guts.c:1389-1410 | the entry used last has the latest stamp, and is not the next victim, unless the clock has just run out; then if and only if it is entry 0 or entry 0 has no stamp |
| `CacheView.Flush` | fs/yaffs2/_private/yaffs_guts.c:1268-1286 | writing a dirty entry to the store keeps entries unique and what every reader sees |
| `CacheView.Load` | fs/yaffs2/_private/yaffs_guts.c:3019-3089 | a fresh entry keeps entries unique and is seen by no reader |
| `CacheView.Bypass` | fs/yaffs2/_private/yaffs_guts.c:3091-3246 | a whole-chunk write and the invalidation of its entry change one chunk |
| `TnodeTree.RequiredDepth` | fs/yaffs2/_private/yaffs_guts.c:766-803 | the loop gives the least level whose tree reaches the chunk id |
| `TnodeTree.FileVar.Find` | fs/yaffs2/_private/yaffs_guts.c:766-803 | the descent returns the map's value, 0 outside |
| `TnodeTree.FileVar.Grow` | fs/yaffs2/_private/yaffs_guts.c:805-897 | growing the root changes no lookup |
| `TnodeTree.FileVar.AddFind` | fs/yaffs2/_private/yaffs_guts.c:805-897 | without a leaf no lookup changes; with one exactly its sixteen ids do; ids past the maximum are refused |
| `TnodeTree.FileVar.Put` | fs/yaffs2/_private/yaffs_guts.c:995-1089 | insertion changes only its key |
| `TnodeTree.PruneKeeps` | fs/yaffs2/_private/yaffs_guts.c:1530-1571 | pruning changes no lookup and keeps the leftmost path |
| `TnodeTree.PruneTidy` | fs/yaffs2/_private/yaffs_guts.c:1530-1571 | pruning leaves no tnode without data off the leftmost path |
| `TnodeTree.FileVar.Prune` | fs/yaffs2/_private/yaffs_guts.c:1573-1606 | no lookup changes, the top is never null, and the root cannot be lowered further |
| `TnodeTree.Pruned` | fs/yaffs2/_private/yaffs_guts.c:1530-1571 | the recursive loop computes the pruned tree |
| `TnodeTree.PathIsGroup` | fs/yaffs2/_private/yaffs_guts.c:766-803 | two ids take the same branches exactly when they share a leaf |
| `TnodePacking.LoadTnode0` | fs/yaffs2/_private/yaffs_guts.c:706-735 | a store changes only its own field, for every even width from 16 to 30, across words too |
| `TnodePacking.GetGroupBase` | fs/yaffs2/_private/yaffs_guts.c:737-764 | a load returns its field |
| `TnodePacking.OnesIsMask` | fs/yaffs2/_private/yaffs_guts.c:4253-4280 | the mask is 2^width - 1 |
| `TnodePacking.CalcShiftsCeiling` | fs/yaffs2/_private/yaffs_guts.c:70-88 | the logarithm to base two, rounded up |
| `TnodePacking.TnodeWidth` | fs/yaffs2/_private/yaffs_guts.c:4253-4280 | every chunk number of the device fits its field |
| `TnodeCheckpoint.TnodeWorker` | fs/yaffs2/_private/yaffs_yaffs2.c:510-547 | the leaves are written in order with the first chunk id of each |
| `TnodeCheckpoint.WrCheckptTnodes` | fs/yaffs2/_private/yaffs_yaffs2.c:549-566 | all leaves and the end marker |
| `TnodeCheckpoint.RdCheckptTnodes` | fs/yaffs2/_private/yaffs_yaffs2.c:568-613 | exactly the well-formed streams are accepted, and each chunk id gets what the last record for it says |
| `TnodeCheckpoint.RecordsSay` | fs/yaffs2/_private/yaffs_yaffs2.c:510-547 | the records of a tree say what the tree says |
| `TnodeCheckpoint.ParseEncode` | fs/yaffs2/_private/yaffs_yaffs2.c:568-613 | what was written is parsed back |
| `TnodeCheckpoint.ParseIff` | fs/yaffs2/_private/yaffs_yaffs2.c:568-613 | a stream is read if and only if it begins with whole records of legal chunk ids and the end marker; one that is cut short is refused |
| `TnodeCheckpoint.SaveAndRestore` | fs/yaffs2/_private/yaffs_yaffs2.c:510-613 | a saved and restored file has the same chunk for every chunk id |
| `CheckptStream.SaveAndLoad` | fs/yaffs2/_private/yaffs_checkptrw.c:328-469 | bytes written in any portions are read back in any portions; with cap pages in the erased blocks a save is reported if and only if it is opened and every portion of two bytes or more ends within cap + 1 pages, and whatever was reported the bytes inside the pages that fit and the first (end - start) / 16 + 2 blocks can be read, and no more |
| `CheckptStream.Save` | fs/yaffs2/_private/yaffs_yaffs2.c:768-813 | what is reported, which pages are then on flash, and when the buffer has been written past its end, from the sizes of the portions; a save that is refused still closes the stream, which writes a page exactly when the last one stopped inside a block |
| `CheckptStream.LostUnreportedIff` | fs/yaffs2/_private/yaffs_checkptrw.c:328-469 | a save is reported and its last page lost if and only if the bytes go past the pages that fit and no portion is cut short; with portions of two bytes or more, past by at most one page |
| `CheckptStream.AllWholeIff` | fs/yaffs2/_private/yaffs_checkptrw.c:328-356 | with portions of two bytes or more a save is reported if and only if its bytes are within one page more than fit |
| `CheckptStream.WentPastIff` | fs/yaffs2/_private/yaffs_checkptrw.c:328-356 | a byte is stored past the page if and only if some portions end exactly with one page more than fit and more bytes follow |
| `CheckptStream.AllReadableIff` | fs/yaffs2/_private/yaffs_checkptrw.c:358-433 | everything written can be read back if and only if it fits the pages there are and the blocks a reader enters |
| `CheckptStream.ExactFit` | fs/yaffs2/_private/yaffs_checkptrw.c:435-469 | 8 bytes on a device of one page of 8: reported and read back although the last flush fails |
| `CheckptStream.LastPageLost` | fs/yaffs2/_private/yaffs_checkptrw.c:435-469 | a ninth byte on that device: reported, and not to be read back |
| `CheckptStream.StoredPastPage` | fs/yaffs2/_private/yaffs_checkptrw.c:328-356 | 17 bytes on that device, the first 16 in one portion: reported, and one byte stored past the page |
| `CheckptStream.TooLargeToRead` | fs/yaffs2/_private/yaffs_checkptrw.c:159-208 | three bytes on three blocks of one byte: saved, but a reader enters two blocks |
| `CheckptStream.TwoBlocksRead` | fs/yaffs2/_private/yaffs_checkptrw.c:248-249 | nine bytes on two blocks of eight: saved and read back, since a reader enters both blocks |
| `CheckptStream.RefusedSaveWrites` | fs/yaffs2/_private/yaffs_yaffs2.c:768-813 | a save refused for lack of blocks writes a page where a reader had stopped |
| `CheckptStream.Stream.OpenWrite` | fs/yaffs2/_private/yaffs_checkptrw.c:210-261 | an empty stream, if blocks are available |
| `CheckptStream.Stream.FindErasedBlock` | fs/yaffs2/_private/yaffs_checkptrw.c:125-157 | the first erased block from the cursor on |
| `CheckptStream.Stream.Flush` | fs/yaffs2/_private/yaffs_checkptrw.c:272-326 | the buffer becomes the next page if and only if the erased blocks have room for it; once a flush has failed no later one succeeds |
| `CheckptStream.Stream.Wr` | fs/yaffs2/_private/yaffs_checkptrw.c:328-356 | only the count is returned: all bytes, or up to the one at which a flush fails before the last; after that one byte for each call, stored one place further past the page |
| `CheckptStream.Stream.CloseWrite` | fs/yaffs2/_private/yaffs_checkptrw.c:435-469 | success whatever the last flush gave; the pages on flash are those the bytes need, as far as they fit, and show the bytes and then zeros |
| `CheckptStream.Stream.FindBlock` | fs/yaffs2/_private/yaffs_checkptrw.c:159-208 | the first block from the cursor on that looks like checkpoint data, while fewer than (end - start) / 16 + 2 were entered |
| `CheckptStream.Stream.Fetch` | fs/yaffs2/_private/yaffs_checkptrw.c:358-433 | the next page passes the sequence, sum and xor checks exactly when there is one within the blocks a reader will enter |
| `CheckptStream.Stream.ReadPage` | fs/yaffs2/_private/yaffs_checkptrw.c:61-74 | a page passes, and is taken, if and only if its tags and header carry its number, the version and the sums of all bytes before it |
| `CheckptLayout.OneByteShows` | fs/yaffs2/_private/yaffs_checkptrw.c:422-426 | one wrong byte changes both running sums, so the next page does not pass |
| `CheckptStream.Stream.Rd` | fs/yaffs2/_private/yaffs_checkptrw.c:358-433 | the next bytes of the checkpoint; the read is short exactly when they go past the pages within reach |
| `CheckptStream.AllRead` | fs/yaffs2/_private/yaffs_checkptrw.c:61-74 | after a page is read to its end the running sums are those in the next header |
| `CheckptLayout.NoneBetween` | fs/yaffs2/_private/yaffs_checkptrw.c:159-208 | no block between two checkpoint blocks looks like one |
| `CheckptLayout.OnFlashMore` | fs/yaffs2/_private/yaffs_checkptrw.c:272-326 | one more page keeps the layout |
| `CheckptLayout.PagesByBlock` | fs/yaffs2/_private/yaffs_checkptrw.c:272-326 | all blocks of a checkpoint but the last are full |
| `CheckptLayout.EnteredIff` | fs/yaffs2/_private/yaffs_checkptrw.c:159-208 | the first g pages lie in n blocks if and only if g <= n * chunks per block |
| `PackedTags.TagBitFixedIff` | fs/yaffs2/_private/yaffs_packedtags2.c:150-188 | a flipped tag bit is put right and reported fixed if and only if it does not make the stored sequence number all ones |
| `PackedTags.OneBitLosesTags` | fs/yaffs2/_private/yaffs_packedtags2.c:150-188 | a legal chunk whose tags one bit turns into those of an erased chunk, unreported |
| `PackedTags.CodeBitFixed` | fs/yaffs2/_private/yaffs_packedtags2.c:150-188 | a flipped code bit is reported fixed and the tags are right |
| `PackedTags.TwoTagBitsReported` | fs/yaffs2/_private/yaffs_packedtags2.c:150-188 | two flipped tag bits are reported, unless they look erased |
| `PackedTags.CleanRoundTrip` | fs/yaffs2/_private/yaffs_packedtags2.c:63-148 | undamaged tags come back, data chunks and headers with extra information |
| `PackedTags.WordsRoundTrip` | fs/yaffs2/_private/yaffs_packedtags2.c:63-148 | unpacking the packed words gives the tags |
| `PackedTags.PackedHeaders` | fs/yaffs2/_private/yaffs_packedtags2.c:63-148 | literal headers: a file that shrank, a hard link that shadows, a swapped one, and a file too large for the extra tags |
| `PackedTags.PackTags2` | fs/yaffs2/_private/yaffs_packedtags2.c:96-106 | the words and, if asked for, their code |
| `PackedTags.UnpackTags2` | fs/yaffs2/_private/yaffs_packedtags2.c:150-188 | correction, then unpacking |
| `PackedTags.EndianTwice` | fs/yaffs2/_private/yaffs_endian.c:72-81 | swapping twice changes nothing and never makes or hides an erased mark |
| `EccOther.CalcOther` | fs/yaffs2/_private/yaffs_ecc.c:178-200 | the parities of the bytes |
| `EccOther.CorrectOther` | fs/yaffs2/_private/yaffs_ecc.c:202-253 | result, data and code after correction |
| `EccOther.CorrectsDataBit` | fs/yaffs2/_private/yaffs_ecc.c:202-253 | every flipped data bit is flipped back |
| `EccOther.CorrectsCodeBit` | fs/yaffs2/_private/yaffs_ecc.c:202-253 | every flipped code bit is repaired and the data left alone |
| `EccOther.DetectsTwoDataBits` | fs/yaffs2/_private/yaffs_ecc.c:202-253 | every two flipped data bits are reported and nothing is changed |
| `EccParity.AccumulateFlipped` | fs/yaffs2/_private/yaffs_ecc.c:178-200 | a flipped bit changes the sums by its own column, index and complemented index |
| `EccTables.ColumnParityIsColumn` | fs/yaffs2/_private/yaffs_ecc.c:20-51 | the table holds the xor of one column pattern per set bit |
| `EccTables.TablesAgree` | fs/mtd/nand/nandecc.cpp:23-40 | the two tables hold the same parities in different bits |
| `EccTables.ColumnXor` | fs/yaffs2/_private/yaffs_ecc.c:20-51 | the tabulated map is linear |
| `Ecc256.Calc` | fs/yaffs2/_private/yaffs_ecc.c:53-113 | the three code bytes of 256 bytes |
| `Ecc256.Correct` | fs/yaffs2/_private/yaffs_ecc.c:115-176 | result, data and code after correction |
| `Ecc256.CorrectsDataBit` | fs/yaffs2/_private/yaffs_ecc.c:115-176 | every flipped data bit is flipped back |
| `Ecc256.CorrectsCodeBit` | fs/yaffs2/_private/yaffs_ecc.c:115-176 | every flipped code bit is repaired and the data left alone |
| `Ecc256.DetectsTwoDataBits` | fs/yaffs2/_private/yaffs_ecc.c:115-176 | every two flipped data bits are reported and the data is unchanged |
| `NandEcc.Calculate` | fs/mtd/nand/nandecc.cpp:42-89 | the code equals the other implementation's with bytes 0 and 1 exchanged |
| `NandEcc.CountBits` | fs/mtd/nand/nandecc.cpp:92-99 | the number of set bits |
| `NandEcc.CorrectData` | fs/mtd/nand/nandecc.cpp:101-148 | the page is corrected as by the other implementation on the exchanged code |
| `NandEcc.OneRestoredTwoReported` | fs/mtd/nand/nandecc.cpp:101-148 | one data bit is restored, two are reported |
| `NandEcc.CodeBitHarmless` | fs/mtd/nand/nandecc.cpp:101-148 | a wrong code bit never touches the page |
| `NameValue.XattrBuffer.Set` | fs/yaffs2/_private/yaffs_nameval.c:84-127 | the name has the value, after it the records of the other names; the result codes; the old record's space is reused |
| `NameValue.XattrBuffer.Get` | fs/yaffs2/_private/yaffs_nameval.c:129-164 | the value, its length, or the reason for neither |
| `NameValue.XattrBuffer.Del` | fs/yaffs2/_private/yaffs_nameval.c:68-82 | the record and no other goes, and its bytes become free |
| `NameValue.XattrBuffer.Find` | fs/yaffs2/_private/yaffs_nameval.c:19-47 | where the record of a name begins, and its length |
| `NameValue.XattrBuffer.Used` | fs/yaffs2/_private/yaffs_nameval.c:49-66 | the bytes the records take |
| `NameValue.SetMap` | fs/yaffs2/_private/yaffs_nameval.c:84-127 | setting a name changes its value and no other |
| `NameValue.DeleteMap` | fs/yaffs2/_private/yaffs_nameval.c:68-82 | deleting a name removes it and no other |
| `NameValue.WritesInsideIff` | fs/yaffs2/_private/yaffs_nameval.c:84-127 | all bytes nval_set writes are inside the buffer if and only if four bytes are left after the record |
| `NameValue.PaddingOverrun` | fs/yaffs2/_private/yaffs_nameval.c:84-127 | a record the space check lets pass into 8 bytes although position 11 is written |
| `NameValue.OverrunIff` | fs/yaffs2/_private/yaffs_nameval.c:84-127 | for every record the check lets pass, a byte past the end is written if and only if it leaves less than four bytes |
| `GaloisField.Modulo` | fs/mtd/linux/bch.cpp:105-113 | the shift-and-add loop ends with v mod (2^m - 1) |
| `GaloisField.BuildTables` | fs/mtd/linux/bch.cpp:729-751 | the tables are accepted exactly when the powers of alpha return to 1 no earlier than 2^m - 1, and with a constant term they form a field's tables |
| `GaloisField.PowersCoverIffOdd` | fs/mtd/linux/bch.cpp:729-751 | the powers of alpha reach every nonzero element if and only if the polynomial has a constant term |
| `GaloisField.EvenPolyAccepted` | fs/mtd/linux/bch.cpp:729-751 | a polynomial the builder accepts although its powers form no field |
| `FieldLaws.MulIsProductModPoly` | fs/mtd/linux/bch.cpp:134-139 | multiplication through logarithms is the carry-less product modulo the polynomial |
| `FieldLaws.MulAssoc` | fs/mtd/linux/bch.cpp:134-139 | it is associative |
| `FieldLaws.MulXor` | fs/mtd/linux/bch.cpp:134-139 | it distributes over addition |
| `FieldLaws.SqrIsMul` | fs/mtd/linux/bch.cpp:141-144 | squaring agrees with multiplication |
| `FieldLaws.SqrXor` | fs/mtd/linux/bch.cpp:141-144 | squaring is additive |
| `FieldLaws.SqrFixed` | fs/mtd/linux/bch.cpp:141-144 | only 0 and 1 are their own squares |
| `FieldLaws.DivMul` | fs/mtd/linux/bch.cpp:146-151 | division undoes multiplication |
| `FieldLaws.InvMul` | fs/mtd/linux/bch.cpp:153-156 | an inverse is an inverse |
| `BinaryPoly.RemainderUnique` | fs/mtd/linux/bch.cpp:753-782 | a remainder of small degree is the remainder of bit-at-a-time division |
| `Generator.ProductRoot` | fs/mtd/linux/bch.cpp:834-900 | the generator vanishes at each of its roots |
| `Generator.ProductBinary` | fs/mtd/linux/bch.cpp:834-900 | its coefficients are 0 and 1 |
| `Generator.ProductPermuted` | fs/mtd/linux/bch.cpp:834-900 | the order of the roots does not matter |
| `BchGenerator.MarkRoots` | fs/mtd/linux/bch.cpp:834-900 | the marked exponents are the cosets of 1, 3, .., 2t-1 |
| `BchGenerator.TimesRootInPlace` | fs/mtd/linux/bch.cpp:834-900 | one factor, coefficient by coefficient in place |
| `BchGenerator.MultiplyRoots` | fs/mtd/linux/bch.cpp:834-900 | the product over all marked exponents |
| `BchGenerator.PackWords` | fs/mtd/linux/bch.cpp:834-900 | the coefficients in 32-bit words, highest first |
| `BchGenerator.ComputeGenerator` | fs/mtd/linux/bch.cpp:834-900 | the generator polynomial and its degree |
| `BchTables.BuildRow` | fs/mtd/linux/bch.cpp:753-782 | a table row is the remainder of its byte |
| `BchTables.BuildTables` | fs/mtd/linux/bch.cpp:753-782 | all 1024 rows |
| `BchStream.FeedCompose` | fs/mtd/linux/bch.cpp:1010-1067 | feeding data in two parts is feeding it whole |
| `BchStream.FeedXor` | fs/mtd/linux/bch.cpp:1010-1067 | the encoder is linear |
| `BchStream.FeedFromZero` | fs/mtd/linux/bch.cpp:1010-1067 | from zero the register ends with data(x) x^d mod g(x) |
| `BchStream.FeedByTable` | fs/mtd/linux/bch.cpp:53-70 | one table step is so many single-bit steps |
| `BchEncoder.EncodeUnaligned` | fs/mtd/linux/bch.cpp:53-70 | any number of bytes, one at a time |
| `BchEncoder.EncodeWords` | fs/mtd/linux/bch.cpp:1010-1067 | words through the four tables |
| `BchEncoder.EncodeRegister` | fs/mtd/linux/bch.cpp:1010-1067 | any alignment and any length give the same register as bit-at-a-time division |
| `BchSyndromes.ComputeSyndromes` | fs/mtd/linux/bch.cpp:173-203 | odd powers summed over the bits, even ones as squares: the values of the remainder at the powers of alpha |
| `BchErrors.SyndromesOfErrors` | fs/mtd/linux/bch.cpp:173-203 | the syndromes of any set of at most t wrong bits are the sums of the powers of their positions |
| `BchErrors.RemainderNonzero` | fs/mtd/linux/bch.cpp:834-900 | no sum of one to t bits is a multiple of the generator: code words differ in more than t bits |
| `BchErrors.SyndromesTell` | fs/mtd/linux/bch.cpp:173-203 | bits whose power sums are the syndromes explain the difference: its remainder is theirs |
| `BchErrors.VanishesIsZero` | fs/mtd/linux/bch.cpp:834-900 | a remainder that vanishes at all roots of the generator is 0 |
| `BchLocator.ComputeErrorLocator` | fs/mtd/linux/bch.cpp:210-265 | inside its buffers for every syndrome vector; for the syndromes of any set of at most t errors it returns their number and leaves exactly their locator, the product of 1 + alpha^p x; whatever the syndromes, the polynomial of an answer satisfies all their identities |
| `BchLocator.RootsExplain` | fs/mtd/linux/bch.cpp:210-265 | the roots of the polynomial found, if there are as many as its degree, have the syndromes as their power sums |
| `BchLocator.RoundCorrects` | fs/mtd/linux/bch.cpp:210-265 | a correction makes the odd identity hold at 2i + 1 and keeps it below |
| `BchLocator.DegreeBound` | fs/mtd/linux/bch.cpp:210-265 | a nonzero discrepancy in round i means the degree and the number of errors reach 2i + 1, so the degree never exceeds the number of errors |
| `BchLocator.Discrepancy` | fs/mtd/linux/bch.cpp:210-265 | the summed discrepancy is the coefficient of the product of locator and syndromes |
| `Newton.EvenFollows` | fs/mtd/linux/bch.cpp:210-265 | with squares at the even places only the odd identities need to be made to hold: the simplification of the iteration |
| `Locators.KeyEquation` | fs/mtd/linux/bch.cpp:210-265 | the locator times 1 + S1 x + S2 x^2 + .. is the even part of the locator |
| `Locators.LocatorUnique` | fs/mtd/linux/bch.cpp:210-265 | no other polynomial with constant term 1 and at most that degree satisfies the identities |
| `Locators.LengthBound` | fs/mtd/linux/bch.cpp:210-265 | a polynomial that first fails at the odd place m has a degree that reaches m together with the number of errors |
| `Locators.LocatorRootIff` | fs/mtd/linux/bch.cpp:696-727 | the locator vanishes at the inverse of a position if and only if the position is wrong |
| `Locators.RootsTellSums` | fs/mtd/linux/bch.cpp:696-727 | as many distinct roots as the degree make the polynomial their locator, so the syndromes are their power sums |
| `BchRoots.Degree1RootOfLocator` | fs/mtd/linux/bch.cpp:376-385 | the root of the locator of one error is its position |
| `BchRoots.Degree1Sound` | fs/mtd/linux/bch.cpp:376-385 | what is returned for a polynomial of degree one is its root |
| `BchDegree2.Degree2Roots` | fs/mtd/linux/bch.cpp:387-421 | for every locator of two errors exactly their two positions; for any polynomial of degree two what it returns are its roots |
| `BchDegree2.SumIsRoot` | fs/mtd/linux/bch.cpp:400-411 | the sum of the table over the bits of u solves z^2 + z = u whenever anything does |
| `BchDegree2.BothAreRoots` | fs/mtd/linux/bch.cpp:387-421 | the two positions returned for a polynomial of degree two are two distinct roots of it |
| `BchBase.BuildDeg2Base` | fs/mtd/linux/bch.cpp:784-822 | for every field the search ends with a full and right table, so init_bch never fails here |
| `BchBase.Reached` | fs/mtd/linux/bch.cpp:784-822 | every element of trace 0 is z^2 + z for some z |
| `BchBase.SomeTrace` | fs/mtd/linux/bch.cpp:790-801 | some alpha^k with k below m has a trace |
| `Traces.TraceOfHalf` | fs/mtd/linux/bch.cpp:784-822 | z^2 + z has trace 0 |
| `BchRoots.ChienSearch` | fs/mtd/linux/bch.cpp:698-725 | for the locator of any set of positions below k the search finds them all, each once; otherwise it finds as many roots as the degree or none, and what it finds are roots |
| `BchRoots.ValueAt` | fs/mtd/linux/bch.cpp:708-716 | the sum through logarithms is the value of the monic polynomial |
| `BchCodec.BchControl.Encode` | fs/mtd/linux/bch.cpp:1010-1067 | the parity bytes carry on from earlier ones |
| `BchCodec.BchControl.EncodeToBuffer` | fs/mtd/linux/bch.cpp:1010-1067 | without a parity buffer the register holds the result |
| `BchCodec.BchControl.XorBuffers` | fs/mtd/linux/bch.cpp:1069-1131 | the difference of received and calculated parity |
| `BchCodec.BchControl.Decode` | fs/mtd/linux/bch.cpp:1069-1131 | up to t wrong bits anywhere in the code word are reported, each once, with Chien search, for one and two errors in closed form, and for more with any code that finds the roots; an answer that is no error code reports bits that explain the difference, and the code word is called uncorrectable if and only if no set of at most t bits does (with Chien search or t up to 2) |
| `BchCodec.BchControl.Locate` | fs/mtd/linux/bch.cpp:1069-1131 | as many roots as the degree, all inside the code word, become bit positions and are the roots of the locator; anything else is uncorrectable |
| `BchCodec.BchControl.FindLocator` | fs/mtd/linux/bch.cpp:1104-1112 | the locator of the difference: of the wrong bits if at most t explain it, and any positions that are its roots explain it |
| `BchCodec.TopPolyIs` | fs/mtd/linux/bch.cpp:173-203 | the syndromes are those of the top bits of the difference, whatever the padding below them |
| `BchCodec.FreshParity` | fs/mtd/linux/bch.cpp:1010-1067 | parity started at zero is the remainder, left-aligned |
| `BchCodec.ParityXor` | fs/mtd/linux/bch.cpp:1010-1067 | parity is linear |
| `BchCodec.InitBch` | fs/mtd/linux/bch.cpp:904-985 | a control block for every m and t in range, if and only if the polynomial is accepted |
| `EccBytes.Load` | fs/mtd/linux/bch.cpp:72-83 | parity bytes to words |
| `EccBytes.Store` | fs/mtd/linux/bch.cpp:85-103 | words to parity bytes |
| `GfPolyDivision.Mod` | fs/mtd/linux/bch.cpp:510-543 | remainder in the low coefficients, quotient in the high ones: a = q (b / lead b) + r; a dividend of lower degree is left alone |
| `GfPolyDivision.Div` | fs/mtd/linux/bch.cpp:545-559 | that quotient |
| `GfPolyDivision.LogRep` | fs/mtd/linux/bch.cpp:501-508 | the logarithms of the monic divisor, if its leading coefficient is not zero |
| `NandBch.NandBchControl.CalculateEcc` | fs/mtd/nand/nandbch.cpp:34-47 | the masked parity of a page |
| `NandBch.NandBchControl.CorrectData` | fs/mtd/nand/nandbch.cpp:49-73 | a page with up to t wrong bits in data and parity together comes back exactly as written, and their number is returned; an answer of 0 or more leaves a page whose parity differs from the code read only in reported parity bits, and -1 is returned if and only if no flip of at most t bits makes page and code agree (with Chien search or t up to 2); equal codes and refusals change nothing |
| `NandBch.NandBchControl.FlipReported` | fs/mtd/nand/nandbch.cpp:49-73 | the reported data bits are flipped, parity positions ignored |
| `NandBch.NandBchControl.DamageDifference` | fs/mtd/nand/nandbch.cpp:49-73 | the difference of the codes is the remainder of the sum of the wrong bits |
| `NandBch.NandBchControl.RepairsIff` | fs/mtd/nand/nandbch.cpp:49-73 | bits explain the difference of the codes if and only if flipping them makes page and code agree |
| `NandBch.NandBchControl.FlipsBack` | fs/mtd/nand/nandbch.cpp:49-73 | flipping what was reported, in any order, restores the page |
| `NandBch.ErrorParts` | fs/mtd/nand/nandbch.cpp:49-73 | wrong bits below the degree of the generator are in the parity, the others in the data |
| `NandBch.ErasedMask` | fs/mtd/nand/nandbch.cpp:75-167 | the mask is the complemented parity of an erased page |
| `NandBch.ErasedPageCode` | fs/mtd/nand/nandbch.cpp:75-167 | with it an erased page has an erased code |
| `Qsort.Sort` | generic/libc/stdlib/qsort.c:84-172 | a sorted permutation for every length and every total preorder; nothing outside the range changes |
| `Qsort.Iterate` | generic/libc/stdlib/qsort.c:84-172 | one pass settles all but the right part |
| `Qsort.Round` | generic/libc/stdlib/qsort.c:84-172 | less, equal and greater parts, or a sorted range when nothing moved |
| `Qsort.Partition` | generic/libc/stdlib/qsort.c:84-172 | the partition with equal elements at both ends; nothing moved means nothing changed |
| `Qsort.ScanUp` | generic/libc/stdlib/qsort.c:84-172 | stops at an element above the pivot |
| `Qsort.ScanDown` | generic/libc/stdlib/qsort.c:84-172 | stops at an element below the pivot |
| `Qsort.GatherEqual` | generic/libc/stdlib/qsort.c:84-172 | the equal elements come to the middle |
| `Qsort.VecSwap` | generic/libc/stdlib/qsort.c:51-57 | two blocks change places |
| `Qsort.InsertionSort` | generic/libc/stdlib/qsort.c:84-172 | a sorted permutation of a short range |
| `Qsort.Med3IsMedian` | generic/libc/stdlib/qsort.c:72-78 | the chosen element is a median |

## Left out

- BchCodec.BchControl.Decode: built without Chien search, the roots of locators of degree three and above (affine solver, trace factoring) come from a function parameter, their correction is stated for any function that finds them, the soundness of the answer for any function that returns as many positions as the degree only if they are roots, and that -EBADMSG means uncorrectable for Chien search or t up to 2; the variant that is given syndromes instead of parity is not modelled.
- BchCodec.InitBch: a polynomial given must have a constant term; that the eleven default polynomials are primitive is not stated.
- ShortOpCache.FileCache.FlushSingle: a write from the reserve succeeds in this part of the model, here and when the last chunk of a cut file is written again.
- ShortOpCache.FileCache.HandleHole: once space has run out, that no byte past the end of the file is counted is not part of the invariant; ShortOpCache.CutInsideIff says when it holds.
- ShortOpCache.FileCache.WrFile: addresses lie in chunks whose numbers the tree takes, up to one chunk further on; the refusal of larger chunk numbers is in TnodeTree.FileVar.AddFind.
- ChunkAllocator.Allocator.WriteNewChunk: `wr_attempts` of 0 means unlimited tries, which need not end when every write fails; at least one bounded try is modelled.
- ChunkAllocator.Allocator.ChunkDel: the chunk must be in use; for any other the code reports an error and goes on counting.
- TnodePacking.LoadTnode0: one chunk per group; grouped chunks are covered by TnodePacking.TnodeWidth only.
- TnodePacking.GetGroupBase: one chunk per group.
- TnodeTree.FileVar.Put: the tree is a value in a field of the class, so pointer sharing between tnodes and running out of tnodes are not captured.
- TnodeCheckpoint.SaveAndRestore: works on records of a chunk id and sixteen chunk numbers; the bytes of a leaf are in TnodePacking, the byte stream in CheckptStream.
- CheckptStream.Save: the flash takes every page it is given, since the result of the page write is not looked at; the loop over one bucket of objects goes on after a cut portion, which CheckptStream.Stream.Wr covers but the list of portions does not.
- CheckptStream.Stream.Fetch: the header of a page is a record of four numbers; its byte layout and swapping are left out, and old checkpoint blocks have been erased before a new checkpoint is opened.
- FileStore.Store.GcProcessChunk: that the sequence number in the tags of every chunk stays that of its block is not stated.
- MountScan.Scanner.ScanBackwards: block states and counters after the scan, object types other than files and headers that name a shadowed object are left out; sequence numbers 2^31 or more apart, for which the block order is no order, are shut out.
- PackedTags.PackTags2: the bytes of a word lie lowest first in memory, with or without the device's swapping.
- Qsort.Sort: elements change places whole; the choice between copying by long and by char is left out.
- NandEcc.Calculate: the SmartMedia byte order is not modelled.
- StoreRuns.Run: which blocks a checkpoint takes is part of the operation; its pages are in CheckptStream. That a scan of the flash left by a run finds the same objects is not stated: a chunk is deleted in RAM before a header says so.
- FileStore.Store.CheckGc: how the block to collect is chosen (dirtiest, oldest, refresh) is not modelled; any full block may be chosen. A checkpoint block, which the choice never yields, is not collected.
- Chunks per block above 511: `pages_in_use` is a ten-bit signed field and would turn negative.
- Block summaries, shadowed objects, hard links, directories, names, attributes and lost+found: list handling that would add easy members.
- Device drivers, MTD dispatch, bad-block tables, the scheduler, heap, virtual memory and the other C library functions.
