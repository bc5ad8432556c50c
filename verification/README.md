# A Dafny model of the OIFS engine

OIFS is an inode filesystem over one flat image. This project models the parts of it whose correctness is not
visible from any single function, and proves what holds of every input, every run or every reachable state.

The journal (`MetadataOps`, `ImageModel`, `Coalesce`, `CoalesceMeaning`, `CoalesceTheorem`, `CoalesceNormal`,
`Frames`, `FastCheck`, `Decoding`, `WireFormat`, `Ring`, `RingRuns`, `Commit`). Operations are absolute post-images.
The runtime applies the list as it is, recovery replays its coalesced form from a ring of checksummed frames. The
image is a sequence of bits, so that every operation replaces one run. Crash safety is put together from three
independent results: coalescing keeps the meaning of a list exactly under a stated condition, frames round-trip in
front of any bytes, and redo depends only on what lies outside its footprint. What each decoder believes is said
exactly, and so is what coalescing leaves alone.

Allocation and the pointer tree (`BitList`, `Bitmap`, `Allocator`, `PointerTree`, `BlockImage`, `Mirror`,
`AllocTree`, `GetReplies`, `MirrorReplay`). Word-level bitmap code refines plain bit lists; the allocation that writes
the image and the one that only records operations give the same answers, and the same image under an exact
condition.

Shrinking (`TreePositions`, `ShrinkTheory`, `Shrink`, `ShrinkRun`, `ShrinkReplay`). The tree is a set of named
positions; freed and reachable blocks partition what was reachable, whether the changes are written at once or
staged, what is kept is the old content bit by bit, and the staged transaction survives coalescing.

Reading (`Walk`, `WalkRead`, `Uring`). The batched walk refines per-index resolution, and the memory-mapped, the
extent and the io_uring backend all deliver the same payload, the last under every behaviour of the kernel.

Defragmentation (`Relocate`, `Layout`, `DefragTheory`, `Compaction`, `LogicalOrder`, `TableOrder`, `DefragOrder`,
`Defrag`). The in-place cycle-breaking loop is a simultaneous assignment; plan, permutation and pointer rewrite
together keep every file's contents; and afterwards every file lies in logical order, said in terms of resolution
only.

Chunked files and filters (`ChunkTree`, `ChunkStore`, `ChunkEntries`, `ChunkCodec`, `ChunkCommit`, `ChunkRuns`,
`ChunkFile`, `ChunkLimits`, `Transpose`, `Filters`, `FilterPipeline`). Writes over compressed 64 KiB chunks are
splices, with the exact condition and what a write that fails leaves behind; filters invert, and what each does is
said bit by bit.

Chunked writes on a journaled image (`ChunkImage`, `ChunkSim`, `ChunkMarks`, `ChunkMirror`, `ChunkLockstep`,
`ChunkJournal`, `ChunkWrite`, `ChunkStale`, `ChunkCrash`). Payload is staged in the mapping, metadata becomes a
transaction. The transaction stands, step by step, for the write without a journal; applying or replaying it gives
that write's image, and a crash before it is logged leaves the old file, each under an exact condition.

Directories (`Directory`, `EntryDecoding`, `DirBlocks`, `DirCache`, `DirLimit`, `DirRuns`, `DirTraces`). The index
cache answers as a scan would; over every run from a fresh image, names, inodes and the inodes that get lost are
accounted for.

`Sizes`, `Arith`, `Bytes` and `LastWins` hold constants and arithmetic, byte and "last write wins" facts the others
share.

## Assumptions

- Superblock fields and bitmap spans are parameters. `CoalesceTheorem.ValidGeometry` and `BlockImage.Mounted` say
  what a validated superblock promises: the regions lie in the image, apart from each other, and the data area ends
  with the image.
- The frame checksum, the name hash and the compressor are functions passed in. The compressor obeys one law:
  a chunk comes back from its frame, and a frame is not empty. No property of the checksum is used.
- Coalescing sorts with an unstable sort; `CoalescingKeepsMeaning` holds for every outcome.
- The ring is smaller than 4 GiB, so that the 32-bit length fields do not wrap; merging runs needs a data area of
  fewer than 2^32 blocks for the same reason.
- A crash happens between changes of single fields of the disk state: any bytes of the frame, the header, any bits
  applied in place. Frame bytes reach storage before the header does.
- Defragmentation, shrinking and the two allocation paths start from a well-formed tree: every block is a data block
  and, for the first two, named by exactly one slot; a file with blocks has a size above 0, and no index past the
  end of a file to be shrunk is mapped.
- A chunked file starts in order (`ChunkFile.FileState`): its chunks read, its blocks are its own, nothing but zeros
  lies past its end (`ZeroPast`) and no entry there has a stored length (`EmptyPast`), and the size total is the sum
  over its entries. A file never written is in order, and every write that meets its condition below keeps it so. On
  a journaled image the runs its entries name also lie in the data area (`ChunkLockstep.EntriesInside`), and its
  slots hold 64-bit values.
- Extents of one read fill different addresses, as those the walk produces do.
- The ids a data bitmap tracks are below 2^32, the range of a chunk entry's start field.
- A fresh image's inode allocator hands out ids that are not in use and below 32768, the size of its bitmap.

## Where the code does less than it promises

- A transaction that allocates a block and frees it again is replayed as "allocated"
  (`CoalesceTheorem.FreedAgainComesBack`); `CoalescingKeepsMeaning` gives the exact condition.
- An append that wraps below the tail leaves no marker, so recovery misses it (`Ring.AppendHidesNewest`).
  `RingRuns.WrapLosesTransaction` gives the runs that get there: every transaction committed and checkpointed over
  and over. `Ring.AppendKeepsLogExactly` gives the exact numeric test.
- On an image without a journal the contiguous allocation does not compare its run with the end of the image
  (`src/disk.rs:5476-5494`; `src/journal.rs:2711` does), although bits past the end are clear on every small image.
  A write can then report success and leave an unreadable file (`ChunkLimits.RunLeavesImage`). A commit stores its
  chunk exactly if its run ends inside (`ChunkCommit.StepStores`), a write exactly if all of them do
  (`ChunkFile.WriteAt`); `ChunkRuns.RoomAhead` is a condition on bitmap, hint and size that is enough.
- A chunked write without a journal gives old runs back before the inode is stored. If it fails later on, the stored
  inode names free blocks (`ChunkLimits.FailedWriteFreesNamedRun`), exactly if a direct chunk with a run was
  committed before the failure (`ChunkFile.FailedWrite`).
- Blocks taken through the simulator are not zeroed on the image, while the path that writes the image zeroes them
  (`src/journal.rs:2684-2724`, `src/disk.rs:5444-5475`). Words left in a new pointer block then show up as pointers:
  a hole of a chunked file gets an entry (`ChunkStale.StaleTableExample`), and the images of the two allocation paths
  differ (`Mirror.StaleBlockDiffers`). The exact conditions are `ChunkJournal.TablesClear` in
  `ChunkWrite.WriteJournaled` and `Mirror.TakenClear` in `Mirror.SimulationMirrorsDirect`.
- A journaled chunked write stages payload before its transaction is logged, and a run it gives up may be taken again
  by a later chunk of the same write. A crash before the log has the transaction, or a failure later in it, then
  leaves the old file with new bytes in it (`ChunkCrash.CrashExample`). No crash reaches a block of the stored file
  exactly if no run taken meets a run given up earlier in the transaction (`ChunkCrash.CrashReaches`), and then the
  file reads as before (`ChunkCrash.SurvivesCrash`).
- A creation that finds an inode and then no block, or no room in its parent, keeps the inode in use, and with it a
  new directory's block (`DirTraces.CreateLoses`). `DirTraces.LostExactly` names every inode that gets lost so.
- A directory counts as empty if its first block is: a directory whose first block was emptied and whose second one
  is not is deleted with its children (`DirCache.OrphansPossible`); `DirCache.FirstBlockDecides` gives the exact
  condition.
- A directory that is full at 65536 blocks still accepts an entry, in a block that scans do not reach, and tells its
  index about it (`DirLimit.FullDirCannotHold`); `DirCache.DirStore.Create` gives the exact condition. Only an image
  written by something else can get there: on runs from a fresh image a directory stays below 2342 blocks and the
  condition always holds (`DirRuns.Run`).

## Model

| member | source | states |
|---|---|---|
| Relocate.RelocateBlocks | src/disk.rs:7406-7478 | for every injective move map without fixed points the loop ends with each destination holding what its source held at the start, and nothing else changed |
| Relocate.MoveOne | src/disk.rs:7431-7446 | moving into a free destination keeps the pending moves deliverable and opens exactly the destinations that became free |
| Relocate.BreakCycle | src/disk.rs:7447-7477 | with no free destination left, rotating one saved block around its cycle delivers every move of that cycle |
| Relocate.FreeTargets | src/disk.rs:7418-7430 | the work list starts with exactly the destinations no pending move still reads |
| Relocate.MapInverse | src/disk.rs:7415-7420 | the incoming map is the inverse of the move map |
| Relocate.InjectionIsOnto | src/disk.rs:7447-7477 | an injection of a finite set into itself is onto: the reason why what remains without free destination is made of cycles |
| Relocate.DeliverStep | src/disk.rs:7433-7446 | one delivery keeps the invariant of the loop |
| Relocate.FreeListAfterMove | src/disk.rs:7441-7446 | the list of free destinations stays exact after a move |
| PointerTree.LogicalRoundTrip | src/inode.rs:220-269 | an index has a path exactly if it is addressable, the slots are in bounds, and the path leads back to the index |
| PointerTree.PathRoundTrip | src/inode.rs:220-269 | every in-bounds path has one index, which gives the path back |
| PointerTree.PathsInOrder | src/inode.rs:220-269 | indices and paths are in the same order: shallower paths first, then slot by slot from the root |
| PointerTree.EntryRoundTrip | src/inode.rs:104-141 | the four packed fields of a chunk entry come back, and emptiness is the flag |
| PointerTree.NonEmptyEntryIsLarge | src/inode.rs:104-141 | a non-empty entry is never a block id |
| PointerTree.ResolveIsWalk | src/disk.rs:2882-2901 | resolution of an index is a walk of its slots from its root |
| Layout.ResolvedLeafIsOwned | src/disk.rs:6962-7059 | what an index resolves to is among the blocks the layout collector lists |
| Defrag.CollectTree | src/disk.rs:6962-7059 | the nested loops over a pointer tree list its leaves and its pointer blocks in order |
| Defrag.CollectInodeBlockLayout | src/disk.rs:6962-7059 | the payload is what the indices 0, 1, 2, ... name one after the other, stated through resolution alone, and the pointer blocks behind it are exactly the blocks at the positions of pointer blocks |
| Defrag.CollectChunkEntries | src/disk.rs:2908-2983 | the non-empty entries of a seekable file as resolving the indices 0, 1, 2, ... gives them, and none for any other file |
| Defrag.CollectLive | src/disk.rs:7322-7328 | the ids whose bit is set, as the list of `LiveIds` |
| Defrag.LiveIdsExact | src/disk.rs:7322-7328 | that list holds exactly the marked ids, each once and in increasing order |
| Defrag.PlanOrder | src/disk.rs:7329-7341 | directories, and then files with a size above 0, each in the order of the list |
| Defrag.PlanInodes | src/disk.rs:7343-7404 | the plan sends the k-th block of the order to the k-th block of the data area |
| Defrag.RewriteInodes | src/disk.rs:7480-7540 | every pointer of every live inode is replaced by its new place |
| Defrag.RewriteTables | src/disk.rs:7480-7540 | every slot of every moved pointer block is replaced, and no other block of the image changes |
| Defrag.ResetBitmap | src/disk.rs:7542-7550 | the bitmap marks exactly the compact prefix |
| Defrag.DefragmentInPlace | src/disk.rs:7311-7593 | on a well-formed volume every logical block or chunk run of every live inode reads the same afterwards, metadata is kept, no block outside the compact prefix changes, and the bitmap marks exactly that prefix when anything moved. Afterwards, moved or not, each mapped index of a file resolves to its neighbour's place plus the blocks in between (a chunk starts where the one before it ends), pointer blocks lie behind the payload in the order of their positions, directories before files and each by id, and together they fill the area from its start without a gap |
| LogicalOrder.InodeGathers | src/disk.rs:6962-7059 | the nested collectors list what resolving every index in order lists |
| LogicalOrder.OnePieceIsOrdered | src/disk.rs:7343-7404 | if the listed payload is one run of blocks, every two mapped indices lie apart by what is mapped between them, and the run holds nothing but payload |
| TableOrder.TablesAre | src/disk.rs:6993-7059 | the listed pointer blocks are exactly those at a position of a pointer block |
| TableOrder.OnePieceOfTables | src/disk.rs:6993-7059 | if they are one run of blocks, they lie in the order of their positions: single, double root and its children, triple root with each child before its own children |
| DefragOrder.OrderIsSorted | src/disk.rs:7329-7341 | directories by id, then files by id |
| DefragOrder.PackedIsLaidOut | src/disk.rs:7343-7404 | a volume whose plan is the identity has every file in logical order, inodes in order, and no gap from start to end |
| DefragTheory.ContentsPreserved | src/disk.rs:7343-7550 | any volume related to the old one by a plan, a permutation of blocks and the pointer rewrite shows the same contents at every index of every live inode |
| DefragTheory.ResolveRelocated | src/disk.rs:7480-7540 | resolution in the new volume is the relocated resolution in the old one |
| DefragTheory.ChunkPreserved | src/disk.rs:7480-7540 | a chunk entry's run is moved as a unit and keeps flags and length |
| DefragTheory.PlanFits | src/disk.rs:7343-7404 | the plan never runs past the data area |
| Compaction.PlannedIsCompact | src/disk.rs:7343-7404 | after a pass the blocks in use, in order, are consecutive |
| Compaction.CompactIsWellFormed | src/disk.rs:7311-7593 | the volume after a pass meets the conditions of the next |
| Compaction.SecondPassMovesNothing | src/disk.rs:7311-7593 | a second pass finds every block in its place |
| MetadataOps.DecodeEncode | src/journal.rs:342-480 | every encodable operation decodes to itself, with its exact length, in front of any bytes |
| MetadataOps.DecodeEncodeAll | src/journal.rs:484-493 | a list of encoded operations decodes to the list |
| MetadataOps.EncodeList | src/journal.rs:648-654 | the encoding loop concatenates the operations |
| MetadataOps.DecodeList | src/journal.rs:484-493 | the decoding loop takes operations until the bytes are used up or do not decode |
| Decoding.OpDecodesExactly | src/journal.rs:404-480 | an operation is read exactly where its encoding stands, a flag of any byte but 0 aside |
| Decoding.ListDecodesExactly | src/journal.rs:484-493 | a payload is read as a list exactly if it is the encodings of the list one after the other and nothing else |
| WireFormat.BitBytes | src/journal.rs:342-395 | the bytes of the two bit operations |
| WireFormat.RangeBytes | src/journal.rs:342-395 | the bytes of a range |
| WireFormat.ImageBytes | src/journal.rs:342-395 | the bytes of an inode record |
| WireFormat.SliceBytes | src/journal.rs:342-395 | the bytes of a slice |
| ImageModel.ApplyInPlace | src/journal.rs:880-1055 | an operation is refused without effect, or replaces exactly its run of bits |
| ImageModel.ApplyAllInPlace | src/disk.rs:2113-2122 | operations are applied in order; after a refusal the image shows exactly those before the refused one |
| ImageModel.ApplyAllExact | src/journal.rs:880-1055 | a list succeeds exactly if every operation fits, and then each bit holds the last value written to it |
| ImageModel.RedoDependsOutsideFootprint | src/journal.rs:849-1055 | two images of equal length succeed or fail alike, and on success end equal exactly if they agree outside the bits the list writes |
| ImageModel.ReplayAfterPartialApply | src/disk.rs:1606-1609 | replay over any partial application gives the one clean result |
| ImageModel.ReplayIsIdempotent | src/journal.rs:880-1055 | replaying a list twice is replaying it once |
| Coalesce.CoalesceOps | src/journal.rs:500-645 | the passes over the list compute the coalesced list |
| Coalesce.MergeRunLoop | src/journal.rs:564-604 | adjacent runs of the same state are merged, in order |
| Coalesce.MergeSliceLoop | src/journal.rs:606-634 | slices that touch are merged, in order |
| Coalesce.SortRunsSorts | src/journal.rs:562-563 | the sort gives a permutation with frees first, then by start |
| CoalesceNormal.CoalescedIsCanonical | src/journal.rs:500-645 | whatever the sort does with equal keys, the coalesced list is no longer than the list and canonical: inode bits, data bits, slices, records; data bits sorted, slices strictly sorted, one record per inode, and nothing left to merge |
| CoalesceNormal.FixedExactly | src/journal.rs:500-645 | coalescing leaves alone exactly the canonical lists and those of at most one operation |
| CoalesceNormal.CoalescedTwice | src/journal.rs:500-645 | coalescing twice is coalescing once |
| CoalesceMeaning.SortKeepsBit | src/journal.rs:562-563 | for one block the sort keeps the final state exactly if an allocation is not undone later |
| CoalesceMeaning.MergeRunsBit | src/journal.rs:564-604 | merging runs changes no block's state |
| CoalesceMeaning.SliceMapKept | src/journal.rs:532-538 | keying slices by block and offset keeps every written bit of a tidy list |
| CoalesceTheorem.CoalescingKeepsMeaning | src/journal.rs:500-645 | for tidy slices the coalesced list can be applied whenever the list can, and leaves the same image exactly if every block the list allocates is left allocated by the last operation on it |
| CoalesceTheorem.NoFreeAfterAllocation | src/journal.rs:500-645 | freeing nothing after allocating it is enough for that condition |
| CoalesceTheorem.FreedAgainComesBack | src/journal.rs:562-563 | a block allocated and freed in one transaction is replayed as allocated |
| CoalesceTheorem.FitsAreTargets | src/journal.rs:880-1055 | on a validated image an operation fits exactly if its ids and sizes are in range |
| Frames.IsAlreadyCoalesced | src/journal.rs:660-734 | the scan decides whether a list is in coalesced form |
| Frames.FastPathIsExact | src/journal.rs:660-734 | a list the scan accepts is its own coalesced form |
| FastCheck.FastCheckExactly | src/journal.rs:660-734 | the scan accepts exactly the lists of at most one operation and those in order with distinct records, at most a freeing and an allocating data operation, one slice and two records, none of them a range of one block |
| Frames.EncodeFrame | src/journal.rs:755-790 | fast and slow path write the same bytes: the frame of the coalesced list |
| Frames.DecodeFrameAt | src/journal.rs:796-822 | magic, length, checksum and commit marker are checked before the payload is decoded |
| Frames.FrameRoundTrip | src/journal.rs:755-822 | in front of any bytes an encoded frame decodes to its number, the coalesced list and its exact length |
| Frames.DecodeFramePrefix | src/journal.rs:796-822 | what a frame decodes to does not depend on the bytes behind it |
| Decoding.FrameDecodesExactly | src/journal.rs:796-822 | a frame is believed exactly if the bytes begin with the frame of some payload, number, length, checksum and marker included, that is a list of operations |
| WireFormat.FrameBytes | src/journal.rs:755-790 | the bytes of a frame |
| Ring.HeaderRoundTrip | src/journal.rs:240-275 | the persisted ring state reads back |
| Decoding.HeaderDecodesExactly | src/journal.rs:253-275 | a header is read exactly where its encoding stands, padding and the value of a set flag aside |
| WireFormat.HeaderBytes | src/journal.rs:236-251 | the bytes of a header |
| Ring.ReplayIsLog | src/journal.rs:1260-1310 | if the bytes from tail to head are the frames of a log, recovery replays exactly that log |
| Ring.AppendGrowsLog | src/journal.rs:1214-1245 | an append that stays below the ring end extends the log by its transaction |
| Ring.AppendFillsRing | src/journal.rs:1214-1245 | an append that ends exactly at the ring end is replayed, or looks like an empty ring |
| Ring.AppendRestartsLog | src/journal.rs:1226-1245 | a wrap with tail 0, or longer than the tail, leaves exactly the newest transaction if it is shorter than the ring |
| Ring.AppendHidesNewest | src/journal.rs:1226-1245 | a wrap that fits below the tail leaves no marker: replay runs on into stale bytes instead of the newest transaction |
| Ring.AppendKeepsLogExactly | src/journal.rs:1214-1245 | recovery after an append replays old log and new transaction exactly if a numeric test on head, tail, frame and ring size holds |
| RingRuns.CheckpointDropsPrefix | src/journal.rs:1333-1351 | a checkpoint to a frame boundary retires exactly the frames before it |
| RingRuns.StaleCheckpointIgnored | src/journal.rs:1333-1351 | a cursor that, modulo the ring, is not past the tail or is past the head changes nothing, and any other one becomes the tail |
| RingRuns.EveryRunReplaysItsLog | src/journal.rs:1083-1351 | from a fresh ring, in every run of appends that end below the ring end or restart an empty log, checkpoints and reopenings, the ring holds exactly the unretired transactions and replays them in order |
| RingRuns.RunNumbers | src/journal.rs:1214-1245 | over every run the number grows by the appends accepted; checkpoints, reopening and recovery leave it |
| RingRuns.AppendsAreNumbered | src/journal.rs:1214-1245 | in every run from a fresh ring the i-th append accepted gets number i, modulo 2^64 |
| RingRuns.ReplayIsNumbered | src/journal.rs:1260-1310 | after every run with fewer than 2^64 accepted appends, recovery replays the last numbers given out, consecutive and in order |
| RingRuns.WrapLosesTransaction | src/journal.rs:1226-1245 | a run of commits, each checkpointed at once, from a fresh ring: unless the frames fill the ring without a rest, the first commit that wraps is not replayed |
| RingRuns.OneBitIsLost | src/journal.rs:1226-1245 | the ring of 131072 bytes with a one-bit transaction: the 3856th commit is not replayed |
| RingRuns.JournalRing.Create | src/journal.rs:1116-1147 | a new ring is empty |
| RingRuns.JournalRing.Persist | src/journal.rs:1248-1258 | the header block holds the state afterwards |
| RingRuns.JournalRing.Open | src/journal.rs:1083-1113 | the cursors are those the header decodes to; a header that does not decode is refused and nothing changes |
| RingRuns.JournalRing.AppendTx | src/journal.rs:1214-1245 | the in-place append is the append on values and returns the number before it plus one, modulo 2^64; a frame longer than the ring is refused without effect; an accepted one leaves the journal not clean |
| RingRuns.JournalRing.Retire | src/journal.rs:1333-1351 | the in-place checkpoint is the checkpoint on values |
| RingRuns.JournalRing.Recover | src/journal.rs:1260-1310 | the recovery loop returns exactly what replay gives |
| Commit.RecoverJournal | src/disk.rs:1585-1625 | recovery at mount applies the replayed transactions in order to the image |
| Commit.RecoveryKeepsPromise | src/disk.rs:1585-1625 | a durable disk recovers to the base image with all logged transactions applied |
| Commit.ChangeKeepsPromise | src/disk.rs:2034-2122 | every single change of the disk keeps it durable: torn frame, header write, bits applied in place, checkpoint, crash and remount |
| Commit.RunKeepsPromise | src/disk.rs:2034-2122 | after every run of such changes the promise is the committed transactions applied in order |
| Commit.CrashSafety | src/disk.rs:2034-2122 | from a fresh ring, after any run with crashes anywhere, recovery gives exactly the image with all committed transactions |
| Commit.StrictCommitIsAtomic | src/disk.rs:2034-2122 | with only part of the frame on disk recovery gives the old promise; with the header written, and any of the bits applied in place, the new one |
| BitList.NextFreeExact | src/bitmap.rs:110-117 | the least clear bit at or after the hint if there is one, else the least clear bit below it, else none |
| BitList.NextFitExact | src/bitmap.rs:191-201 | the least fit at or after the hint if there is one, else the least fit of all, else none |
| Bitmap.FindFirstFreeFrom | src/bitmap.rs:29-92 | the word-wise search returns the least clear bit at or after the start, for every length and start |
| Bitmap.FindNextFreeBounded | src/bitmap.rs:95-107 | below the limit: the least clear bit at or after the start if there is one, else the least clear bit before it, and none exactly if all are set |
| Bitmap.FindNextFreeWrapped | src/bitmap.rs:110-117 | the least clear bit at or after the hint, else the least one below it, else none |
| Bitmap.FindContiguousFreeFrom | src/bitmap.rs:121-182 | exact first fit |
| Bitmap.FindContiguousFreeWrapped | src/bitmap.rs:191-201 | first fit from the hint, then from the start |
| Bitmap.ForEachSetBit | src/bitmap.rs:204-236 | exactly the set bits below the limit, in increasing order |
| Bitmap.ChangeRange | src/bitmap.rs:275-364 | masks and whole bytes together are the bit-by-bit loop |
| Bitmap.ChangeBit | src/bitmap.rs:250-267 | one bit changes; an index past the end is ignored |
| Allocator.SimpleBlockAllocator.AllocateWithHint | src/allocator.rs:67-84 | the block taken is the least free one at or after the hint, else the least free one, and it is marked; it fails exactly if there is none |
| Allocator.SimpleBlockAllocator.AllocateContiguous | src/allocator.rs:87-108 | the run taken is the least fit at or after the hint, else the least fit, and it is marked; zero blocks change nothing |
| Allocator.SimpleBlockAllocator.FreeContiguous | src/allocator.rs:111-123 | the run is cleared; ids below the offset are ignored |
| Allocator.SimpleBlockAllocator.Free | src/allocator.rs:131-146 | the block is cleared; an id below the offset is ignored |
| Allocator.EveryRunIsAccounted | src/allocator.rs:67-146 | in every run of allocations and matching frees the outstanding runs are disjoint, the set bits are exactly theirs, and their number is the total |
| Allocator.AllocSim.AllocBlock | src/journal.rs:2684-2700 | the simulated allocation; a block outside the image is given back and changes nothing |
| Allocator.AllocSim.AllocContiguous | src/journal.rs:2702-2724 | the simulated contiguous allocation: the first fit from the hint, marked; a run that leaves the image is given back and changes nothing |
| Allocator.SimAllocIs | src/journal.rs:2684-2700 | the simulated allocation takes the free block next to the hint, and nothing exactly if there is none or it lies past the image |
| Allocator.SimFitIs | src/journal.rs:2702-2724 | the same for runs |
| Allocator.AllocSim.FreeContiguous | src/journal.rs:2726-2741 | bits cleared and hint lowered |
| Allocator.SimStepKeepsHint | src/journal.rs:2684-2741 | no step of the simulator lets the hint pass a free block |
| Allocator.NoSpaceMeansFull | src/journal.rs:2684-2741 | in every run from a tight hint, no space is reported exactly if every tracked block of the image is taken |
| AllocTree.BlockStore.AllocateBlock | src/disk.rs:5444-5475 | the allocator marks the next free block, gives it back past the end of the image, and the block is zeroed |
| AllocTree.BlockStore.IndirectChild | src/disk.rs:5546-5577 | an existing child is returned if it is a data block, else one is allocated and linked |
| AllocTree.BlockStore.GetOrAllocBlock | src/disk.rs:5579-5659 | the in-place path is the specification on values, errors and partial effects included |
| AllocTree.GetBlock | src/disk.rs:5579-5659 | the same without allocation: errors for pointers outside the data area, 0 for a hole |
| AllocTree.LookIsResolve | src/disk.rs:5579-5659 | what the lookup without allocation finds is what resolution finds; it is refused exactly for an index past the last one, and for a path with a non-zero pointer outside the data area |
| GetReplies.GetAnswers | src/disk.rs:5546-5659 | on any image, sound or not: allocation answers as the lookup without it and changes nothing then, unless the lookup finds a hole; a hole is filled unless the allocator has run out |
| AllocTree.SimChildBlock | src/journal.rs:2798-2830 | a recorded pointer, a zero of a fresh block, the image, or a new block with its two operations |
| AllocTree.SimGetOrAllocBlock | src/journal.rs:2837-2896 | the simulated path is the specification on values |
| Mirror.TakeMirrors | src/journal.rs:2684-2700 | both paths take the same block |
| Mirror.ChildMirrors | src/journal.rs:2798-2830 | one pointer level: same reply, and the same image once the blocks handed out are zeroed and the operations applied |
| Mirror.GetMirrors | src/journal.rs:2837-2896 | one call: same reply and inode, the index then resolves to the reply, and the tree stays sound |
| Mirror.SimulationMirrorsDirect | src/journal.rs:2782-2896 | for every sequence of indices, from a sound tree, both paths give the same replies, inode, bitmap and hint; the recorded operations give the image the direct path wrote exactly if the blocks handed out were clear where the operations do not write |
| Mirror.ClearIsEnough | src/journal.rs:2684-2700 | clear free blocks are enough for that |
| Mirror.FirstBlockDecides | src/journal.rs:2684-2700 | the first block of an empty file: the two images are equal exactly if that block was clear |
| Mirror.StaleBlockDiffers | src/journal.rs:2684-2700 | an image of five blocks on which they differ |
| Mirror.GetKeepsMappings | src/disk.rs:5579-5659 | no call changes where a mapped index resolves to |
| MirrorReplay.ReplayGivesDirectImage | src/journal.rs:2782-2896 | the recorded operations always meet the coalescing condition, so replaying the coalesced transaction gives the direct path's image exactly if the blocks handed out were clear where the operations do not write |
| TreePositions.UpInjective | src/inode.rs:220-255 | no two positions of the pointer tree share a slot |
| TreePositions.NodeIsResolve | src/disk.rs:2882-2901 | the leaf positions are where resolution ends |
| TreePositions.ClearedSlot | src/disk.rs:6621-6688 | clearing one slot of a well-formed tree removes what hangs below it and nothing else |
| ShrinkTheory.ShrinkConserves | src/disk.rs:6495-6553 | freed and still reachable blocks partition what was reachable, indices below the new end resolve as before and the others to 0, and the tree stays well-formed |
| ShrinkTheory.RemovedAre | src/disk.rs:6690-6779 | the positions freed are, each once, exactly those the new size does not need |
| ShrinkRun.RawShrink.ClearLogical | src/disk.rs:6621-6660 | a mapped index loses its slot, in place or as a staged operation; for any other index nothing of the tree changes |
| ShrinkRun.RawShrink.FreeLeaves | src/disk.rs:6522-6536 | every mapped index past the new end is freed and cleared |
| ShrinkRun.RawShrink.PruneSingle | src/disk.rs:6697-6700 | the single indirect block goes once no index needs it |
| ShrinkRun.RawShrink.PruneDouble | src/disk.rs:6702-6756 | the double tree goes whole, or loses the pointer blocks past the new end |
| ShrinkRun.RawShrink.PruneTriple | src/disk.rs:6758-6778 | the triple tree goes whole once no index needs it |
| ShrinkRun.RawShrink.ZeroSlack | src/disk.rs:6502-6520 | every bit of every kept block is the old one up to the new size and clear behind it |
| ShrinkRun.RawShrink.ShrinkTo | src/disk.rs:6495-6553 | in place or staged, the shrink ends in the same tree with the same blocks freed in the same order; freed and reachable blocks partition what was reachable, and the staged operations applied give that tree while the image is untouched. Every kept index holds its old bits up to the new size and zeros behind, and no block but the file's own changes |
| Shrink.SlackBits | src/disk.rs:6502-6520 | bit by bit: below the new size as before, from there to the end of the block clear |
| Shrink.SlackIsOwn | src/disk.rs:6502-6520 | only a block of the file itself changes |
| ShrinkReplay.ReplayGivesShrunkImage | src/disk.rs:6554-6568 | the transaction of a shrink (staged operations, frees, inode) can be applied and always meets the coalescing condition, so replaying its coalesced form gives the same image |
| Walk.WalkPayloadBlocks | src/disk.rs:2991-3153 | the batched walk calls back exactly as resolving every index on its own would, holes at every level included |
| Walk.WalkSingle | src/disk.rs:3019-3052 | the single indirect batch, an unmapped or missing table included |
| Walk.WalkDouble | src/disk.rs:3054-3100 | one pointer block of the double tree per turn, skipping holes |
| Walk.WalkTriple | src/disk.rs:3102-3148 | the triple tree, skipping holes at each level |
| WalkRead.ExtentList.Push | src/io_engine.rs:245-262 | the list gains exactly the byte copies of the transfer and stays coalesced |
| WalkRead.Validate | src/io_engine.rs:299-326 | accepts a list of targets exactly if every extent lies inside its buffer and the image |
| WalkRead.ReadMmap | src/io_engine.rs:411-418 | each buffer after the byte copies of its own extents, in order |
| WalkRead.ReadBlocks | src/disk.rs:3174-3193 | copying block by block gives the payload |
| WalkRead.ReadExtents | src/disk.rs:3194-3216 | reading the coalesced extents gives the same payload |
| WalkRead.WalkPairsAre | src/disk.rs:2991-3153 | the walk names each backed byte of the file once, with its image offset |
| WalkRead.UringReadsPayload | src/disk.rs:3194-3216 | so does the io_uring backend, under every kernel schedule that ends without error |
| Uring.SplitTargets | src/io_engine.rs:536-556 | the operations move exactly the bytes of the extents, in order, at most 1 MiB each |
| Uring.ReapKeeps | src/io_engine.rs:613-644 | reaping any completion keeps pending, in-flight and finished apart and every delivered byte right |
| Uring.SubmitKeeps | src/io_engine.rs:578-600 | submission keeps the invariant, and stops with nothing in flight only if nothing is pending |
| Uring.EveryScheduleIsSafe | src/io_engine.rs:570-652 | under every schedule the invariant holds, and the loop returns only with nothing in flight |
| Uring.OkMeansEveryByte | src/io_engine.rs:570-652 | success means every extent byte came from its own image offset; no outcome touches memory outside the extents |
| Uring.ReapOutcome | src/io_engine.rs:613-651 | one completion: an error is noted exactly for a hard failure or an empty read, a transient failure or a short read puts its operation back, and what is left of it shrinks by what arrived |
| Uring.SubmitFills | src/io_engine.rs:578-600 | submission takes from the front, fills the ring as far as it goes, and takes nothing after an error |
| Uring.FirstHardIs | src/io_engine.rs:613-651 | the error is that of the first hard result, and there is none exactly if none was hard |
| Uring.ErrorExactly | src/io_engine.rs:570-652 | after any rounds the error is that of the first hard result reaped so far |
| Uring.OkExactly | src/io_engine.rs:570-652 | a run reports no error exactly if nothing it reaped was hard, and if it returns then, every extent byte came from its own offset |
| Uring.RunLoop | src/io_engine.rs:570-652 | the in-place loop is the state machine, and the error it ends with is that of the first hard failure or empty read among the results reaped |
| Transpose.TransposeIsTranspose | src/filters.rs:484-500 | the delta-swap word function is the 8x8 bit transpose, its shortcut for all-zero and all-one words included |
| Transpose.TransposeInvolution | src/filters.rs:484-500 | it is its own inverse |
| Filters.DeltaEncodeInPlace | src/filters.rs:197-279 | the downward loop leaves each element as the wrapping difference of its little-endian value to the one before it |
| Filters.DeltaDecodeInPlace | src/filters.rs:282-359 | the upward loop computes the decoding |
| Filters.EncodedElem | src/filters.rs:197-279 | each encoded element is the wrapping difference to the original one before it |
| Filters.EncodesDifferences | src/filters.rs:197-279 | as numbers: the first element is kept, each other one is its value less the one before, modulo 256 to the element size, and a rest shorter than an element is kept |
| Filters.DeltaRoundTrip | src/filters.rs:197-359 | decoding undoes encoding for every buffer and element size |
| FilterPipeline.Shuffle | src/filters.rs:373-422 | the loops compute the encoding: byte c of element e comes to place e among the bytes c, and what is left over stays |
| FilterPipeline.Unshuffle | src/filters.rs:424-473 | the loops compute its inverse |
| FilterPipeline.ShuffleRoundTrip | src/filters.rs:373-473 | unshuffling undoes shuffling for every buffer and element size |
| FilterPipeline.TransposeBlocks | src/filters.rs:512-536 | in every whole group of eight bytes bit j of byte i is bit i of byte j, and a shorter rest is kept |
| FilterPipeline.SwapBlockBits | src/filters.rs:512-536 | eight bytes joined to a word, transposed and split again: bit j of byte i is bit i of byte j |
| FilterPipeline.SwapCrosses | src/filters.rs:512-536 | the same for every group of a buffer of any length |
| FilterPipeline.ShuffleGathers | src/filters.rs:373-422 | the byte shuffle, place by place |
| FilterPipeline.OneFilter | src/filters.rs:43-56 | what one filter does to every buffer: wrapping differences of elements, bytes gathered by place, or that followed by crossing bits |
| FilterPipeline.PipelineFilters | src/filters.rs:43-56 | the pipeline is a chain of such steps, one per filter |
| FilterPipeline.PipelineComposes | src/filters.rs:43-56 | a pipeline is its first part followed by its second |
| FilterPipeline.BitShuffleRoundTrip | src/filters.rs:503-571 | the bit shuffle inverts |
| FilterPipeline.PipelineInverts | src/filters.rs:43-76 | every pipeline of these filters inverts, for every buffer, length and element size |
| FilterPipeline.Apply | src/filters.rs:43-56 | each filter does to the outcome of the one before what OneFilter states of it, in order |
| FilterPipeline.Unapply | src/filters.rs:67-76 | inverse filters in reverse order |
| Directory.ScanEncoded | src/directory.rs:63-73 | encoded entries followed by zeros scan back to the entries and their end |
| Directory.AppendEntry | src/disk.rs:1926-1949 | writing behind the last entry keeps a block entries-then-zeros |
| Directory.FindInBlock | src/directory.rs:207-235 | on a well-formed block the hash filter hides nothing: the first entry of the name is found |
| Directory.FindInsertOffset | src/directory.rs:264-278 | the end of the records |
| Directory.ReadEntries | src/directory.rs:75-140 | every record up to the end of the list, or nothing at all if one of them is malformed |
| Directory.ItemsOfBlock | src/directory.rs:75-140 | on a well-formed block the strict iterator never fails and agrees with the raw scans |
| EntryDecoding.BlockDecodesExactly | src/directory.rs:75-140 | a block is read as a list of entries exactly if their encodings with valid names stand at its start and the list ends behind them |
| WireFormat.DirectoryBytes | src/directory.rs:63-73 | the bytes of an entry |
| DirCache.Locate | src/disk.rs:1757-1776 | answers as a scan of all visible blocks, with the block that holds the entry |
| DirCache.BuildIndex | src/disk.rs:1779-1796 | the index is exactly the on-disk map |
| DirCache.AppendToDir | src/disk.rs:1890-1924 | the entry goes to the last block if that has room, else to the first that has, else to a new one, and it fails exactly if there is neither; scans then see it exactly if it lies below the block limit |
| DirCache.DirStore.Lookup | src/disk.rs:1802-1883 | always answers as a plain scan would; a miss leaves a complete index, a hit one that holds the name, and no other index changes |
| DirCache.DirStore.Learn | src/disk.rs:1865-1883 | a scan answers, counts, and makes the index complete exactly after a miss or from the eighth scan on; otherwise the index gains the name |
| DirCache.DirStore.List | src/disk.rs:5717-5802 | the listing is the on-disk map, and becomes a complete index |
| DirCache.DirStore.Create | src/disk.rs:2660-2797 | every outcome with its exact condition; on success the name is added to the map, and cache and disk agree afterwards exactly if the directory could hold the entry where scans see it |
| DirCache.DirStore.Delete | src/disk.rs:6156-6273 | every outcome with its exact condition; on success exactly the name goes, the target and its index are forgotten, and cache and disk agree |
| DirCache.FirstBlockDecides | src/disk.rs:6201-6214 | the emptiness test of a deletion is right exactly if no entry lies behind an empty first block |
| DirCache.OrphansPossible | src/disk.rs:6201-6214 | a well-formed directory with an entry that passes for empty |
| DirCache.IndexAfterCreate | src/disk.rs:2789-2797 | an index told of the new entry fits exactly if the directory can hold it |
| DirLimit.FullDirCannotHold | src/directory.rs:289-298 | a well-formed directory of 65536 full blocks exists that cannot: there the created entry is in the index but not in the scans |
| DirRuns.GrownIsTame | src/disk.rs:1890-1924 | a directory whose entries name distinct inodes of one bitmap block never has more than 2341 blocks |
| DirRuns.CreateTame | src/disk.rs:2660-2797 | every answer of a creation with its exact condition, and the tree it leaves: names, inodes in use and directories; the index agrees afterwards without a condition |
| DirRuns.DeleteTame | src/disk.rs:6156-6273 | every answer of a deletion with its exact condition: exactly the name, the inode and its directory go |
| DirRuns.Run | src/disk.rs:1802-1883 | for every list of requests on a fresh image: each creation and deletion leads from one tree to the next as stated, each lookup answers as a scan of the tree reached, each listing is that directory's map, and no tree has a directory at the block limit |
| DirTraces.RunNamesOnce | src/disk.rs:2660-2797 | at every point of every run each inode has at most one name, and only inodes in use have one |
| DirTraces.FoundUntilDeleted | src/disk.rs:1802-1883 | a name that was created leads to its inode until it is deleted, as long as its directory is there |
| DirTraces.CreateLoses | src/disk.rs:2731-2788 | a creation leaves an inode in use without a name exactly if it ends without space after it took one |
| DirTraces.DeleteLoses | src/disk.rs:6201-6273 | a deletion cuts off exactly the inodes named in the directory it removes |
| DirTraces.LostExactly | src/disk.rs:2660-2797 | the inodes in use that no name leads to after a run are the root and those that a creation took in vain or a deletion cut off |
| ChunkCodec.PreparedReadsBack | src/disk.rs:4184-4260 | a prepared chunk, compressed or raw, reads back as its bytes followed by zeros |
| ChunkCodec.PreparedIsShorter | src/disk.rs:4184-4260 | the payload is the compressed form exactly if that is shorter than the chunk, else the chunk; the flag says which, the length field holds its length modulo 65536, and it takes as few blocks as it can |
| ChunkCodec.ReadIsPrefix | src/disk.rs:4262-4394 | a shorter read of a chunk is a prefix of the whole |
| ChunkCodec.OutsideUnreadable | src/disk.rs:4279-4346 | an entry whose run leaves the image gives an error, whatever the blocks hold |
| ChunkStore.GrabRunIs | src/disk.rs:5476-5494 | a contiguous allocation takes free blocks that the bitmap tracks, and nothing else changes |
| ChunkEntries.TableEnsured | src/disk.rs:4090-4131 | pointer blocks are added where missing, as far as blocks are left; entries, chunks, foreign blocks and existing pointers of the inode stay |
| ChunkEntries.SetEntryIs | src/disk.rs:4023-4182 | exactly one entry changes, and its old run is left without an owner; on failure only pointer blocks were added |
| ChunkCommit.LayPayload | src/disk.rs:4898-4912 | the blocks of the run that lie in the image hold their pieces of the payload and then zeros, no other block changes |
| ChunkCommit.CommitChunk | src/disk.rs:4893-4945 | the entry points to the next run, its old run is free, every other chunk and every block of another owner is as before; the chunk reads as the new bytes exactly if the run ends inside the image; a failed commit leaves all chunks as they were |
| ChunkCommit.StepStores | src/disk.rs:4893-4945 | the chunk is stored exactly under the test the journaled allocation makes and this one lacks |
| ChunkCommit.StepFails | src/disk.rs:4893-4945 | a commit fails exactly if no run is free, the index is past the last entry, or a pointer block is missing and no block is left |
| ChunkRuns.StopsAtFirst | src/disk.rs:4890-4945 | the loop fails exactly if one of its commits does, and stops at the first one |
| ChunkRuns.ManyStores | src/disk.rs:4890-4945 | whatever the loop leaves, finished or not: the chunks committed are placed, all others and all foreign blocks are as before, and nothing leaks if it finished |
| ChunkRuns.ReadsIffInside | src/disk.rs:4890-4945 | the file reads exactly if every run taken ends inside the image |
| ChunkRuns.EnoughRoom | src/disk.rs:4890-4945 | 19 free blocks per chunk in a row, ahead of the hint and inside the image, are enough for every commit to succeed and every run to end inside |
| ChunkRuns.StaleIffDirect | src/disk.rs:4890-4945 | seen through the old inode, the entry of a committed chunk still names the run that was given back exactly if it is one of the ten direct ones |
| ChunkFile.ReadAll | src/disk.rs:4396-4416 | the whole content |
| ChunkFile.ReadAt | src/disk.rs:4418-4465 | the slice of the content, cut at the end of the file |
| ChunkFile.BuildChunk | src/disk.rs:4653-4691 | the new bytes of a touched chunk |
| ChunkFile.CommitAll | src/disk.rs:4890-4966 | the loop is `ChunkRuns.CommitMany`, success, image and inode alike, and the size delta is the change of the sum over all entries |
| ChunkFile.WriteAt | src/disk.rs:4628-4981 | without a journal: succeeds exactly if every commit does, and always with enough room; then no block of another owner is touched and none is left without an owner, and the content is the old one, zero-padded and overwritten, with the size total the sum over the entries, exactly if every run taken ends inside the image; on failure the stored inode is the old one and no other block is touched |
| ChunkFile.FailedWrite | src/disk.rs:4890-4966 | after a failure the stored inode names a run that was given back exactly if a chunk committed before is direct and had one |
| ChunkLimits.RunLeavesImage | src/disk.rs:5476-5494 | a write to a new file on an image of three blocks reports success and leaves a file that cannot be read |
| ChunkLimits.FailedWriteFreesNamedRun | src/disk.rs:4890-4945 | a write over two direct chunks that fails at the second: the old block of the first is free and still named |
| ChunkFile.EmptyFile | src/disk.rs:4396-4416 | a file never written is in order, so every run of writes is covered |
| ChunkImage.RedoLifts | src/journal.rs:880-1055 | redoing a transaction on the image is redoing it on the blocks and bitmap of the store the image holds |
| ChunkMirror.StageIsLay | src/disk.rs:4763-4776 | staging the payload in the mapping changes the store as laying it into the blocks does |
| ChunkMarks.MarkedLast | src/disk.rs:4746-4817 | what a chunk transaction allocates it does not free again, the condition for coalescing |
| ChunkLockstep.SimEntryIs | src/journal.rs:3007-3035 | the entry the simulator resolves is the one of the store the transaction stands for |
| ChunkLockstep.SetStep | src/journal.rs:2903-3005 | setting an entry on the simulator and on the store: same success, inode and pointer blocks |
| ChunkLockstep.StepMirrors | src/disk.rs:4746-4817 | one journaled commit succeeds exactly if the direct one does with its run inside the image, and then stands for what that one leaves |
| ChunkJournal.ManyMirrors | src/disk.rs:4746-4817 | the same for the whole loop |
| ChunkJournal.ManyStages | src/disk.rs:4755-4776 | whatever the loop leaves, finished or not, the mapping is changed only in the runs it took |
| ChunkJournal.AppliesExactly | src/disk.rs:4862-4865 | applying the transaction gives the store of the direct write exactly if the blocks taken as pointer blocks were clear where it does not write |
| ChunkWrite.StagePayload | src/disk.rs:4763-4776 | the copy loop puts exactly the pieces of the payload into the blocks of the run |
| ChunkWrite.SimResolveEntry | src/journal.rs:3007-3035 | resolution through recorded pointers, fresh blocks and the mapping |
| ChunkWrite.SimSetEntry | src/journal.rs:2903-3005 | the in-place form is the specification on values, pointer blocks and recorded operations included |
| ChunkWrite.CommitTurn | src/disk.rs:4746-4817 | one turn of the loop is the specification on values |
| ChunkWrite.CommitJournaled | src/disk.rs:4738-4817 | the loop is `ChunkJournal.JournalMany`, and the size delta is the change of the sum over all entries of the direct write |
| ChunkWrite.TransactionStands | src/disk.rs:4628-4817 | the transaction of a write goes through exactly if the direct write does with every run inside the image, and stands for what that write leaves |
| ChunkWrite.TransactionApplies | src/disk.rs:4848-4865 | with its inode it applies, gives the direct write's store exactly if the blocks taken as pointer blocks were clear where it does not write, and its coalesced form gives the same image |
| ChunkWrite.WriteJournaled | src/disk.rs:4628-4889 | succeeds exactly if the direct write does with every run inside the image and the log takes the transaction, and always with enough room; the mapping then holds the applied transaction, which is the direct write's store exactly if the blocks taken as pointer blocks were clear where it does not write; then the file is in order, its content is the old one, zero-padded and overwritten, its size total the sum over the entries, and no block of another owner is touched or lost; replaying the coalesced transaction gives the same mapping; on failure inode, total and hint are the old ones and only staged runs differ |
| ChunkStale.StaleWordsStay | src/journal.rs:2903-3005 | every word of a pointer block a write took is the direct write's, or where that has none, what lay in the block before |
| ChunkStale.StaleTableShows | src/journal.rs:2903-3005 | a byte written to chunk `10 + m` of a new file: each other chunk of that table should be a hole and has the word that lay in the block as its entry |
| ChunkStale.StaleTableExample | src/journal.rs:2903-3005 | an image of six blocks on which a hole gets an arbitrary entry |
| ChunkCrash.ManyFrees | src/disk.rs:4890-4945 | a block that a run of commits freed lay in the run of one of their chunks |
| ChunkCrash.StagedOverStored | src/disk.rs:4746-4817 | payload is staged over a block of the stored file exactly if a run taken meets a run given up earlier in the transaction |
| ChunkCrash.EveryCrashPoint | src/disk.rs:4755-4862 | whatever part of the payload staged up to any commit has reached the disk, the image differs only in staged blocks |
| ChunkCrash.CrashReaches | src/disk.rs:4746-4862 | no crash before the commit reaches a block of the stored file exactly if no run taken meets a run given up earlier |
| ChunkCrash.SurvivesCrash | src/disk.rs:4746-4862 | then the file is in order and reads as before the write, on every crash image |
| ChunkCrash.CrashChangesFile | src/disk.rs:4746-4817 | a file of one byte written over with two chunks: staged and not yet logged, the stored file reads as the last byte written |
| ChunkCrash.CrashExample | src/disk.rs:4746-4817 | an image of twenty-one blocks on which the content differs |

## Left out

- Memory mapping, file locks, flush calls and durability modes: only the order of frame bytes and header is kept, as part of the crash model.
- Encryption of data and names, and the second name map it needs; CRC32C, SipHash and Zstd internals.
- Directory creation and deletion on a journaled image; allocation, shrinking, chunked writes and plain commits are covered on it.
- ChunkFile.WriteAt: the store is passed and returned as a value, so aliasing with other readers is not modelled, and the out-of-lock preparation is the sequential one.
- ChunkFile.BuildChunk: compression level and compressor errors are not modelled.
- Truncation of chunked files, extension of raw files, full-overwrite sizing and freeing in journaled raw writes.
- ShrinkRun.RawShrink.ShrinkTo: stops before the freed list is cleared in the bitmap in place and the inode is written; modification times are not modelled.
- AllocTree.BlockStore.GetOrAllocBlock: is the form that allocates; the other one is AllocTree.GetBlock.
- Allocator.AllocSim.AllocBlock: inode allocation of the simulator is left out.
- Allocator.NoSpaceMeansFull: is about runs of single blocks; a contiguous allocation may move the hint past free blocks.
- ChunkWrite.WriteJournaled: the encoding of the inode is a function passed in, and whether the log takes the transaction is a parameter; the log itself is in Ring and Commit.
- FilterPipeline.Shuffle: the loops unrolled for element sizes 2, 4 and 8 are the general loop's assignments and are not written out; neither is the two-word unrolling of the bit shuffle nor the aligned form of delta coding.
- Precision truncation, the one filter that is meant to lose information, filter recommendation and Blosc2.
- Directory.ReadEntries: names are byte strings, so the check for valid UTF-8 is not modelled.
- DirCache.DirStore.Create: the choice of inode and the success of block allocation are parameters; two lookups in a row stand for the one under the shared and the one under the exclusive lock.
- RingRuns.JournalRing.Open: header and ring are separate fields, so a region that is too small is not modelled.
- Commit.CommitIsAppend: the crash model covers commits that end below the ring end; what a wrapping append does is in Ring and RingRuns.
- DirCache.DirStore.List: gives the entries as a map; their order is not modelled.
- Uring.RunLoop: a fatal failure of entering the kernel ends the process, and the loop may run for as long as the kernel keeps failing transiently, so termination is not claimed.
- The ring pool, the `pread` backend and kernel version probing.
- The inode record layout and the inode cache, format migration, the background defragmentation worker, fragmentation statistics, inter-process and C interfaces.
- Races between threads: operations are sequential steps.
