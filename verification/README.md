# NOVA and its instrumentation passes: a Dafny model

NOVA is a log-structured file system for persistent memory. This project models the parts of it that
keep data safe, as they are in `llvm_evaluation/NOVA/nova`, together with the two LLVM passes that
trace its stores, fences and flushes. Each part is modelled in the form of its source: objects that the
C code updates are classes with framed methods, loops are loops with invariants, and each method is
proved against a specification function whose laws are lemmas.

* **Journal** (`Pmem`, `Journal*`): a small persistent memory with cache, write-back and fence, the
  per-CPU undo journal on it, the transaction bodies that use it, and crashes at every primitive,
  recovery included.
* **Instrumentation** (`Ir`, `Probes`, `ProbeTheorems`, `FencePass`, `EntryPass`): a small-step machine
  for a register IR with calls, probes inserted before instructions, and the two passes as placements of
  probes.
* **Snapshots** (`Snapshot*`): extents superseded at an epoch, the page lists that hold them back, and
  the background cleaner, down to the next-page marks and uninitialised slots of the list pages.
* **Blocks** (`Ranges`, `FreeSpace`, `Balloc`, `BallocLists`): range trees of any shape, free lists with
  cached nodes and counters, and the set of free blocks they refine.
* **Mount** (`Bbuild`, `RangeLog`, `Remount`, `InodeRemount`, `CleanRemount`, `Scan`): free lists and inode
  maps saved to pages of their own and read back, or rebuilt from bitmaps that a windowed scan of the logs
  fills.
* **Inode numbers** (`Inodes`).
* **Files** (`FileLog`, `FileIndex`, `FileCounts`, `FileChunks`, `FileAssign`, `FileCuts`, `FileSizes`,
  `FileTheorems`, `FileExact`, `FileMounts`, `FileCollect`, `FileRuns`, `FileAttrs`, `FileShows`, `FileImpl`): a
  regular file's log, page map, counters and freed blocks under copy-on-write writes, truncation, attribute changes,
  collections of the log and crashes, and the replay that rebuilds them.
* **Log pages** (`LogPages`, `InodeLog`, `LogChains`, `LogFile`, `LogGc`, `LogAppend`, `LogEstimate`,
  `LogCrash`): the linked pages of an inode log with garbage in unwritten slots, walking, committing, both
  collectors, appending on top of them, and crashes at every primitive of an append and its commit.
* **Data protection** (`Layout`, `Parity`, `Protect`): reserved regions and their addresses, stripe
  checksums and parity, their update, and repair.

The model follows the code with `metadata_csum` and `dram_struct_csum` off, 4 KiB blocks and successful
allocation of DRAM nodes. What the allocator grants, which slots hold garbage, the shape of balanced trees,
the checksum function and the programs run on the IR are arbitrary parameters.

## Where the code falls short

Some laws do not hold of the code as written. Each is kept as it is, with the exact condition proved.

* Journal recovery resets the tail before the restored words are fenced. It tolerates a crash at every
  point if and only if the CPU has no `clwb` or nothing had to be restored
  (`JournalRecovery.RecoveryCrashSafeIff`).
* The walk over a snapshot's list reads a next-page mark as a record if and only if a page between the
  first and the last is empty (`SnapshotList.DeleteEntries`, `SnapshotList.CleanEntries`); deleting idle
  snapshots oldest first gets there (`SnapshotRuns.IdleSnapshotsStray`).
* Deleting the newest snapshot while the cleaner still has to clean it leaves the cleaner's pointer
  dangling, and nothing else does (`SnapshotRuns.PointerSafeIff`).
* `nova_find_free_slot` compares a freed range with one neighbour only. A free list stays valid if and
  only if the range was not free (`FreeList.FreeBlocks`); whether a bad one is caught depends on the
  balancing of the tree (`Balloc.DoubleFreeDependsOnShape`).
* A copy-on-write write whose very first copy stops short is committed but never enters the live page map
  (`FileRuns.ShortWriteReplaysIff`).
* The inode usage counter starts below the number of inode numbers in use, because the initial ranges cover
  more than the reserved numbers (`Inodes.InitialExceeds`), and a clean remount sets it right
  (`CleanRemount.Remount`).
* Freeing an inode number of the initial range leaves its map unfit for allocation, and nothing else does
  (`InodeMaps.FreeInuse`).
* After a thorough collection `log_pages` is too high by what the estimate exceeds the pages needed
  (`LogAppend.Collect`, `LogEstimate.EstimateTooHigh`). The estimate may also be too low. If then a page more is
  refused, the copy goes on at address 0; that happens if and only if the valid entries need more pages than were
  granted (`LogGc.CopyLive`, `LogEstimate.EstimateTooLow`).
* The thorough collector sets `last_setattr` to every attribute entry it copies, although a later one may stand on
  the tail page, which it does not copy (`FileAttrs.LastAttrStaysIff`). A change of attributes is then made in an
  entry that is not the last, and a rebuild does not show it (`FileAttrs.AttrsShownIff`, `FileAttrs.StaleAttrs`).
* A request for 1 GB blocks may be met with some 2 MB pages of one; the division by the unit then tells the caller
  of fewer blocks than left the list (`Balloc.EvenIff`, `Balloc.HugeUnitLost`, `BallocLists.NewBlocks`).
* On a device that is not a multiple of 512 KiB an allocatable block may fail the checksum range test
  (`Layout.CsumPassesIff`, `Layout.OddDeviceFails`).
* A read that starts at the second of two damaged stripes cannot repair it (`Parity.VerifyStripes`,
  `Parity.StuckBetween`).
* Without SSE 4.2, a whole-block update writes the checksums of the stripes one further on
  (`Protect.SummedRightIff`).
* The tracing pass misses read-modify-write instructions and memory intrinsics
  (`FencePass.EveryChangeTracedIff`, `FencePass.RunsTracedIff`); the kernel pass traces one barrier and one flush function per
  compilation (`EntryPass.BarriersTracedIff`, `EntryPass.FlushesTracedIff`).

The code and its comments disagree once: the branches of `nova_alloc_superpage` for a range that already
starts on a 2 MB boundary are never reached, since the margin before the boundary is computed as 1 to 512
blocks and never 0. The model follows the code.

## Model

| member | source | states |
|---|---|---|
| `Pmem.WriteBackThenFence` | llvm_evaluation/NOVA/nova/nova_def.h:106-130 | a word written back after its last store, with a fence later, has one possible value after a crash, whatever the write-back instruction |
| `Pmem.FlushLinesCover` | llvm_evaluation/NOVA/nova/nova_def.h:111-130 | the flush loop reaches exactly the cache lines that overlap the buffer, for every alignment and length |
| `Pmem.Device.DoFlushBuffer` | llvm_evaluation/NOVA/nova/nova_def.h:111-130 | the loop issues one write-back per line and the fence if asked, and nothing else |
| `Journal.AdvanceSlot` | llvm_evaluation/NOVA/nova/journal.c:75-87 | k steps of `next_lite_journal` lead k places round the ring of 128 slots and never out of the page |
| `Journal.WalkMeetsTail` | llvm_evaluation/NOVA/nova/journal.c:166-187 | a walk from head meets tail after exactly their ring distance, so it ends, and 128 entries would look like none |
| `Journal.UndoAllAt` | llvm_evaluation/NOVA/nova/journal.c:133-163 | copying entries back is decided by the entries alone: a second pass over a half-restored image ends with the same words |
| `JournalRecovery.RecoverCompletes` | llvm_evaluation/NOVA/nova/journal.c:166-187 | uninterrupted recovery ends in the image with every pending word restored and the journal empty |
| `JournalRecovery.RecoveryCrashSafe` | llvm_evaluation/NOVA/nova/journal.c:133-187 | with `clflush`, a crash after any primitive of recovery leaves an image that recovers to the same result |
| `JournalRecovery.RecoveryIdempotent` | llvm_evaluation/NOVA/nova/journal.c:133-187 | any number of interrupted recoveries in a row ends in the result of one |
| `JournalRecovery.TornReset` | llvm_evaluation/NOVA/nova/journal.c:141-182 | with `clwb`, the tail reset can be durable while a word being restored still holds its old value |
| `JournalRecovery.ClwbRecoveryUnsafe` | llvm_evaluation/NOVA/nova/journal.c:141-182 | with `clwb`, recovery that has a word to restore can be cut so that the word stays wrong for good |
| `JournalRecovery.RecoveryCrashSafeIff` | llvm_evaluation/NOVA/nova/journal.c:133-187 | recovery tolerates a crash at every point if and only if the CPU has no `clwb` or nothing had to be restored |
| `JournalTxn.SlotsDisjoint` | llvm_evaluation/NOVA/nova/journal.c:75-87 | fewer than 128 slots from any start use disjoint words |
| `JournalTxn.BatchCovers` | llvm_evaluation/NOVA/nova/journal.c:287-309 | the batch flush reaches every word of every appended slot, from any starting slot, wrap-around included |
| `JournalTxn.CreateLogs` | llvm_evaluation/NOVA/nova/journal.c:312-414 | after creation the journal holds, durably, the old value of every journaled word |
| `JournalTxn.TxnCompletes` | llvm_evaluation/NOVA/nova/journal.c:312-427 | a finished transaction has exactly its body's effect on data and leaves the journal empty for the next |
| `JournalTxn.TxnAtomic` | llvm_evaluation/NOVA/nova/journal.c:166-427 | a crash at any primitive of a transaction recovers to all old or all new words, never a mixture |
| `JournalTxn.CompletedIs` | llvm_evaluation/NOVA/nova/journal.c:312-427 | how many transactions are complete after k primitives: as many as fit in them, and no more |
| `JournalTxn.HistoryAtomic` | llvm_evaluation/NOVA/nova/journal.c:166-427 | a crash anywhere in any sequence of transactions recovers to the data after the transactions completed by then, or those and the one under way |
| `JournalTxn.CrashThenRecovery` | llvm_evaluation/NOVA/nova/journal.c:166-464 | the same, tied to the same crash point, after any number of crashes inside recovery (`clflush`) |
| `JournalBodies.NewInodeValid` | llvm_evaluation/NOVA/nova/namei.c:80-117 | creating an inode changes only words it journaled, makes them durable before commit, and takes 2 slots |
| `JournalBodies.LinkValid` | llvm_evaluation/NOVA/nova/namei.c:300-344 | the time-and-link body does so in at most 4 slots |
| `JournalBodies.InplaceValid` | llvm_evaluation/NOVA/nova/log.c:458-496 | an in-place log entry update does so in at most 8 slots |
| `JournalBodies.RenameValid` | llvm_evaluation/NOVA/nova/namei.c:655-877 | every shape of rename does so in at most 8 slots |
| `JournalResults.MembersResult` | llvm_evaluation/NOVA/nova/journal.c:312-427 | a committed transaction has written what its members write and no other word of data |
| `JournalResults.NewInodeResult` | llvm_evaluation/NOVA/nova/namei.c:80-117 | after the commit the new inode has its valid word and its directory its log tail; every other data word is as before |
| `JournalResults.LinkResult` | llvm_evaluation/NOVA/nova/namei.c:300-344 | the inode has its own log tail and the directory its own; an unlinked inode also its valid word and delete epoch; every other data word is as before |
| `JournalResults.InplaceResult` | llvm_evaluation/NOVA/nova/log.c:458-496 | every updated word of the entry holds its last update; every other data word is as before |
| `JournalResults.RenameResult` | llvm_evaluation/NOVA/nova/namei.c:655-877 | every inode of the rename has its own log tail, a replaced one that lost its last link also its valid word and delete epoch, the moved directory its new parent; every other data word is as before |
| `Journal.DamageRefused` | llvm_evaluation/NOVA/nova/journal.c:59-111 | a journal with a damaged pending entry is refused, whichever entry and whichever part of it, if the checksum function tells the two apart |
| `JournalImpl.LiteJournal.AppendEntry` | llvm_evaluation/NOVA/nova/journal.c:211-233 | writes one undo slot for the word that holds the field and returns the next slot |
| `JournalImpl.LiteJournal.FlushInBatch` | llvm_evaluation/NOVA/nova/journal.c:287-309 | the two-loop flush issues exactly the lines of the slots between head and tail, and one fence |
| `JournalImpl.LiteJournal.Create` | llvm_evaluation/NOVA/nova/journal.c:312-414 | issues exactly the primitives of creation and publication that the crash theorems are about |
| `JournalImpl.LiteJournal.Commit` | llvm_evaluation/NOVA/nova/journal.c:417-427 | moves head to tail, flushed and fenced |
| `JournalImpl.LiteJournal.Transaction` | llvm_evaluation/NOVA/nova/journal.c:312-427 | a transaction run by these methods is the sequence TxnAtomic covers, and ends ready for the next |
| `JournalImpl.LiteJournal.CheckEntries` | llvm_evaluation/NOVA/nova/journal.c:89-111 | the checksum walk accepts exactly the journals recovery can restore from |
| `JournalImpl.LiteJournal.Recover` | llvm_evaluation/NOVA/nova/journal.c:166-187 | issues exactly the primitives the recovery theorems are about |
| `ProbeTheorems.WrapperCallStep` | llvm_evaluation/correctness/fencePass/fencePass.cpp:38-71 | a call of a trace wrapper appends the record of its argument values to the trace and changes nothing else |
| `ProbeTheorems.Simulates` | llvm_evaluation/correctness/fencePass/fencePass.cpp:82-174 | for any placement of probes, the instrumented run follows the original step by step: same stack, registers, memory and result |
| `ProbeTheorems.NothingElseHappens` | llvm_evaluation/correctness/fencePass/fencePass.cpp:82-174 | every state of the instrumented run has the memory of some original state and a trace that is a prefix of what is due |
| `ProbeTheorems.RecordedJustBefore` | llvm_evaluation/correctness/fencePass/fencePass.cpp:122-171 | when all records due at an instruction are written, memory is untouched and that instruction comes next |
| `FencePass.TraceExact` | llvm_evaluation/correctness/fencePass/fencePass.cpp:73-174 | for every program, environment and length of run the trace is the sequence of stores, fences and matching flush calls executed outside the wrappers |
| `FencePass.TraceHalts` | llvm_evaluation/correctness/fencePass/fencePass.cpp:73-174 | the instrumented program halts exactly when the original does, with the same memory and result |
| `FencePass.TraceNeverRunsAhead` | llvm_evaluation/correctness/fencePass/fencePass.cpp:73-174 | at every instrumented step the trace is the events so far plus at most the next one |
| `FencePass.EveryChangeTracedIff` | llvm_evaluation/correctness/fencePass/fencePass.cpp:122-171 | in every state outside the wrappers every memory change is announced if and only if all instructions outside them that can write are stores or flush calls |
| `FencePass.OutsideRun` | llvm_evaluation/correctness/fencePass/fencePass.cpp:73-120 | no run that starts outside the trace wrappers enters one |
| `FencePass.RunsTracedIff` | llvm_evaluation/correctness/fencePass/fencePass.cpp:122-171 | on the runs from a state every memory change is announced if and only if every write they reach is a traced one |
| `FencePass.TextTracesRuns` | llvm_evaluation/correctness/fencePass/fencePass.cpp:122-171 | a program whose text meets the condition is traced on every run from outside the wrappers |
| `FencePass.TraceBlock` | llvm_evaluation/correctness/fencePass/fencePass.cpp:122-171 | the insertion loop over one block produces the block of the placement, and reports a change iff there is one |
| `FencePass.InsertedCode` | llvm_evaluation/correctness/fencePass/fencePass.cpp:124-169 | the three tests in order produce the cast and call the placement asks for |
| `FencePass.ContainsIff` | llvm_evaluation/correctness/fencePass/fencePass.cpp:158-162 | the name test finds the name at any place of the string, and only the whole name |
| `FencePass.TraceFunction` | llvm_evaluation/correctness/fencePass/fencePass.cpp:82-174 | wrappers are left alone, every other function becomes that of the transformed program |
| `EntryPass.FenceInstru.Visit` | fencePass/fencePass.cpp:161-200 | at most one record at the entry of a function, the barrier test first, each flag consumed once |
| `EntryPass.FenceInstru.VisitAll` | fencePass/fencePass.cpp:159-200 | over a compilation only the first barrier-named and the first flush-named function (not already used) are traced |
| `EntryPass.BarriersTracedIff` | fencePass/fencePass.cpp:159-180 | every barrier-named function is traced if and only if there is at most one |
| `EntryPass.FlushesTracedIff` | fencePass/fencePass.cpp:159-200 | every flush-named function is traced if and only if there is at most one and the first barrier is not flush-named |
| `EntryPass.EntryTraceExact` | fencePass/fencePass.cpp:85-200 | the kernel pass preserves behaviour, and its trace is the stores plus one record each time control enters a chosen function |
| `EntryPass.StartsByCall` | fencePass/fencePass.cpp:174-196 | control is at the start of a function only directly after a call of it |
| `Snapshot.KeeperExact` | llvm_evaluation/NOVA/nova/snapshot.c:466-491 | the deleteable test is true exactly when no live snapshot sees the entry; otherwise it names the oldest that does |
| `SnapshotLists.LivePagesPend` | llvm_evaluation/NOVA/nova/snapshot.c:112-171 | walk order lists every extent as often as the list holds it back |
| `SnapshotLists.SnapshotList.constructor` | llvm_evaluation/NOVA/nova/snapshot.c:307-333 | a new list is one empty page of its epoch |
| `SnapshotLists.SnapshotList.Append` | llvm_evaluation/NOVA/nova/snapshot.c:405-459 | adds one record at the end, on a new page if the last is full, whatever the unwritten slots hold |
| `SnapshotLists.SnapshotList.LinkTo` | llvm_evaluation/NOVA/nova/snapshot.c:989-1033 | the next snapshot's list becomes this list followed by its own |
| `SnapshotLists.SnapshotList.DeleteEntries` | llvm_evaluation/NOVA/nova/snapshot.c:112-171 | frees exactly the live records in order, unless a page between first and last is empty: then, and only then, the walk strays |
| `SnapshotLists.SnapshotList.CleanEntry` | llvm_evaluation/NOVA/nova/snapshot.c:184-195 | an expired record is freed and marked, any other is kept |
| `SnapshotLists.SnapshotList.CleanEntries` | llvm_evaluation/NOVA/nova/snapshot.c:197-256 | frees exactly the expired records of inherited pages, and strays if and only if an inherited page other than the first is empty |
| `SnapshotTheorems.SupersedeInv` | llvm_evaluation/NOVA/nova/snapshot.c:493-540 | superseding an extent keeps the invariant: every extent is freed or held back by one record, once, and no snapshot sees a freed one |
| `SnapshotTheorems.CreateInv` | llvm_evaluation/NOVA/nova/snapshot.c:910-978 | creating a snapshot keeps it |
| `SnapshotTheorems.DeleteInv` | llvm_evaluation/NOVA/nova/snapshot.c:1046-1090 | deleting a snapshot keeps it |
| `SnapshotTheorems.LinkInv` | llvm_evaluation/NOVA/nova/snapshot.c:989-1033 | handing the lists to the next snapshot keeps it |
| `SnapshotTheorems.DropInv` | llvm_evaluation/NOVA/nova/snapshot.c:1046-1090 | deleting the newest snapshot with its records freed keeps it |
| `SnapshotTheorems.CleanInv` | llvm_evaluation/NOVA/nova/snapshot.c:1332-1355 | the background cleaner keeps it |
| `SnapshotTheorems.PendClean` | llvm_evaluation/NOVA/nova/snapshot.c:197-256 | cleaning never adds a record, and whatever it takes away had expired |
| `SnapshotRuns.SnapshotsKeepTheirBlocks` | llvm_evaluation/NOVA/nova/snapshot.c:112-1355 | over every run, an extent a live snapshot sees is never freed, and every extent is freed at most once or held by exactly one record |
| `SnapshotRuns.FreedExactly` | llvm_evaluation/NOVA/nova/snapshot.c:112-1355 | when the cleaner is idle, an extent is freed if and only if no live snapshot sees it |
| `SnapshotRuns.InvSafe` | llvm_evaluation/NOVA/nova/snapshot.c:112-1355 | in every state with the invariant an extent is freed or held back, exactly one of them, and not freed while a snapshot sees it |
| `SnapshotRuns.SnapshotsFreeExactly` | llvm_evaluation/NOVA/nova/snapshot.c:112-1355 | so it is after every run that lets the cleaner finish between deletions |
| `SnapshotPlans.CreateLives` | llvm_evaluation/NOVA/nova/snapshot.c:910-978 | a creation makes the current epoch live, which was not, and no other |
| `SnapshotPlans.DeleteLives` | llvm_evaluation/NOVA/nova/snapshot.c:1046-1090 | a deletion leaves the other snapshots live and no more; of an unknown epoch it changes nothing |
| `SnapshotPlans.RunPlans` | llvm_evaluation/NOVA/nova/snapshot.c:493-1355 | over every run the live snapshots, the epoch and the superseded extents are those the calls alone tell |
| `SnapshotPlans.PlannedBlocksKept` | llvm_evaluation/NOVA/nova/snapshot.c:466-540 | over every run no extent is freed while a snapshot that was taken and not dropped sees it, and none twice |
| `SnapshotPlans.PlannedBlocksFreed` | llvm_evaluation/NOVA/nova/snapshot.c:1046-1355 | if the cleaner finished between deletions, an extent has been freed if and only if no snapshot that was taken and not dropped sees it |
| `SnapshotRuns.RunBanded` | llvm_evaluation/NOVA/nova/snapshot.c:197-256 | in every reachable state inherited pages come first, so stopping the cleaner at the first own page misses nothing |
| `SnapshotRuns.PointerSafeIff` | llvm_evaluation/NOVA/nova/snapshot.c:980-1090 | a deletion leaves the cleaner's pointer dangling if and only if it removes the newest snapshot while that one awaits cleaning |
| `SnapshotRuns.IdleSnapshotsStray` | llvm_evaluation/NOVA/nova/snapshot.c:197-256 | a run of idle snapshots, deleted oldest first, after which the cleaner's walk strays |
| `SnapshotManager.Manager.AppendData` | llvm_evaluation/NOVA/nova/snapshot.c:493-540 | on the list pages: the extent is filed with the oldest snapshot that sees it, or freed at once; it is freed at once if and only if no live snapshot sees it |
| `SnapshotManager.Manager.CreateSnapshot` | llvm_evaluation/NOVA/nova/snapshot.c:910-978 | exactly the current epoch becomes live and the next one opens; one fresh one-page list per CPU, whatever its pages held; refines creation |
| `SnapshotManager.Manager.LinkToNext` | llvm_evaluation/NOVA/nova/snapshot.c:989-1033 | the pages of every CPU's list go in front of the next snapshot's, and the cleaner is pointed at it |
| `SnapshotManager.Manager.FreeLists` | llvm_evaluation/NOVA/nova/snapshot.c:280-305 | the walk over the pages of all lists frees every pending extent once, and strays if and only if an inner page of one is empty |
| `SnapshotManager.Manager.DeleteSnapshot` | llvm_evaluation/NOVA/nova/snapshot.c:1046-1090 | exactly the named epoch is live no longer, and an unknown one changes nothing; refines deletion on the pages, unless it deletes the newest snapshot and one of its lists has an empty inner page: then, and only then, it strays |
| `SnapshotManager.Manager.Sweep` | llvm_evaluation/NOVA/nova/snapshot.c:1332-1355 | cleans every CPU's pages and frees exactly the difference; strays if and only if an inherited page other than the first is empty |
| `SnapshotManager.Manager.CleanSnapshot` | llvm_evaluation/NOVA/nova/snapshot.c:1332-1355 | refines the cleaner's pass on the pages, and strays exactly when one of its walks does |
| `SnapshotManager.Manager.FindTarget` | llvm_evaluation/NOVA/nova/snapshot.c:50-66 | the first snapshot from an epoch on |
| `SnapshotManager.Manager.OldEntryDeletable` | llvm_evaluation/NOVA/nova/snapshot.c:466-491 | the snapshot KeeperExact is about |
| `SnapshotManager.InitialLists` | llvm_evaluation/NOVA/nova/snapshot.c:307-333 | one fresh list per CPU, none shared |
| `SnapshotManager.Perform` | llvm_evaluation/NOVA/nova/snapshot.c:493-1355 | each operation on the pages does what the specification's step does |
| `SnapshotManager.Execute` | llvm_evaluation/NOVA/nova/snapshot.c:493-1355 | so does a whole run: on the pages, an extent is freed at most once and never while a snapshot sees it |
| `Ranges.CoalescedUnique` | llvm_evaluation/NOVA/nova/balloc.c:377-501 | two coalesced trees of the same numbers are the same tree |
| `Ranges.TotalIsCard` | llvm_evaluation/NOVA/nova/balloc.c:377-501 | range sizes add up to the number of blocks |
| `Ranges.ProbeExact` | llvm_evaluation/NOVA/nova/balloc.c:221-252 | on any tree shape the search finds the key's range, or ends at a neighbour of the key's place |
| `Ranges.FindRangeNode` | llvm_evaluation/NOVA/nova/balloc.c:221-252 | the loop is that search |
| `Ranges.InsertPlace` | llvm_evaluation/NOVA/nova/balloc.c:255-289 | a new range goes between the ranges below and above it |
| `FreeSpace.CutExact` | llvm_evaluation/NOVA/nova/balloc.c:590-847 | taking a range out of a node removes exactly its blocks, whatever pieces remain |
| `FreeSpace.CutCoalesced` | llvm_evaluation/NOVA/nova/balloc.c:590-847 | and keeps the tree coalesced |
| `FreeSpace.PutExact` | llvm_evaluation/NOVA/nova/balloc.c:377-501 | giving a range back adds exactly its blocks, however it merges |
| `FreeSpace.PutCoalesced` | llvm_evaluation/NOVA/nova/balloc.c:377-501 | and keeps the tree coalesced if and only if none of its blocks was free |
| `FreeSpace.CutThenPut` | llvm_evaluation/NOVA/nova/balloc.c:377-847 | freeing an allocated range restores the tree exactly |
| `Balloc.FreshNotCaught` | llvm_evaluation/NOVA/nova/balloc.c:320-375 | a range that is not free is never refused |
| `Balloc.DoubleFreeDependsOnShape` | llvm_evaluation/NOVA/nova/balloc.c:320-375 | whether a partly free range is refused depends on the balancing of the tree: one that is, one that is not |
| `Balloc.FitsIff` | llvm_evaluation/NOVA/nova/balloc.c:590-718 | the superpage guards, with their unsigned arithmetic, accept a node if and only if a whole 2 MB page fits behind the margin |
| `Balloc.FreeList.FreeCount` | llvm_evaluation/NOVA/nova/balloc.c:377-501 | the counter is the number of free blocks |
| `Balloc.FreeList.FindFreeSlot` | llvm_evaluation/NOVA/nova/balloc.c:320-375 | the neighbours of the range's place; refused exactly when the one comparison it makes fails |
| `Balloc.FreeList.FreeBlocks` | llvm_evaluation/NOVA/nova/balloc.c:377-501 | errors change nothing; an accepted call adds exactly its range and keeps every tree, counter and pointer right if and only if the range was not free |
| `Balloc.FreeList.AllocSuperpage` | llvm_evaluation/NOVA/nova/balloc.c:590-718 | the first node in search order that holds a whole 2 MB page gives as many as asked and fit, on a 2 MB boundary; none means no node does |
| `Balloc.FreeList.FindUnaligned` | llvm_evaluation/NOVA/nova/balloc.c:721-847 | the first node, in search order, that is long enough for a block of a larger type |
| `Balloc.FreeList.AllocUnaligned` | llvm_evaluation/NOVA/nova/balloc.c:721-847 | a request no superpage serves: large blocks are cut whole from a node, refused if and only if none is long enough; a plain one takes what the range at its end of the space holds |
| `Balloc.FreeList.AllocBlocks` | llvm_evaluation/NOVA/nova/balloc.c:721-847 | one contiguous free range leaves the free set, which one is determined by `Given`; refused, with nothing changed, if and only if `Refused` holds; all counters and pointers stay right |
| `Balloc.PlainGiven` | llvm_evaluation/NOVA/nova/balloc.c:755-815 | a plain request is met from the very end of the free space, with as much as the range there holds |
| `Balloc.GivenOne` | llvm_evaluation/NOVA/nova/balloc.c:721-847 | the free ranges and the request determine which blocks are given |
| `Balloc.EvenIff` | llvm_evaluation/NOVA/nova/balloc.c:869-946 | large blocks come out even if and only if the unit is 2 MB, the request is for a log, or the first range with a whole 2 MB page has room for all that is asked or for a whole number of units |
| `Balloc.HugeUnitLost` | llvm_evaluation/NOVA/nova/balloc.c:869-946 | a 1 GB request that is met with one 2 MB page: the page leaves the list and the caller is told of none |
| `BallocLists.Candidate` | llvm_evaluation/NOVA/nova/balloc.c:850-867 | the first of the lists with the most free blocks |
| `BallocLists.Choose` | llvm_evaluation/NOVA/nova/balloc.c:869-946 | a list with too few blocks is passed over for the fullest |
| `BallocLists.NewBlocks` | llvm_evaluation/NOVA/nova/balloc.c:869-946 | the CPU's own list serves, or the fullest if that has not enough blocks; the request is refused if and only if that list refuses it, a plain one for data if and only if the device is full; the blocks handed out are the ones that list gives, and only they leave the free set; a log grant that is shorter than asked stops before the end of its list; the number returned accounts for the range if and only if `Even` holds of the list before the call |
| `BallocLists.Release` | llvm_evaluation/NOVA/nova/balloc.c:377-501 | a range in use goes back to the free set of the device; a refused call changes nothing |
| `BallocLists.UnionChange` | llvm_evaluation/NOVA/nova/balloc.c:869-946 | a change in one list is the same change of the device's free set |
| `Bbuild.FindNext` | llvm_evaluation/NOVA/nova/bbuild.c:578-627 | the next bit of a value, or the end |
| `Bbuild.UpdateMap` | llvm_evaluation/NOVA/nova/bbuild.c:629-648 | a coarse bit marks exactly its blocks and leaves the rest |
| `Bbuild.Expand` | llvm_evaluation/NOVA/nova/bbuild.c:652-712 | one CPU's map ends up marking exactly the blocks any of its three maps marked |
| `Bbuild.Merge` | llvm_evaluation/NOVA/nova/bbuild.c:652-712 | the 2 MB and 1 GB pages are expanded into each CPU's map, and a block is marked if any CPU marked it, alone or within a larger page |
| `Bbuild.TakeRun` | llvm_evaluation/NOVA/nova/bbuild.c:578-627 | one step of the scan takes the next maximal run of clear bits in the list's area |
| `Bbuild.BuildBlockMap` | llvm_evaluation/NOVA/nova/bbuild.c:578-627 | one scan across the lists leaves each with exactly the clear blocks of its area, as maximal runs with right counters |
| `Bbuild.Recover` | llvm_evaluation/NOVA/nova/bbuild.c:652-712 | after recovery the free blocks are exactly those in the lists' areas that no CPU marked, alone or within a 2 MB or 1 GB page |
| `Bbuild.RebuiltUnique` | llvm_evaluation/NOVA/nova/bbuild.c:578-712 | the bitmap determines the rebuilt list and its counter |
| `Balloc.FreeList.InsertLast` | llvm_evaluation/NOVA/nova/bbuild.c:542-576 | appending a later range keeps the list valid and adds exactly it |
| `RangeLog.DecodeEncode` | llvm_evaluation/NOVA/nova/bbuild.c:364-401 | a saved node tells its CPU and its range again |
| `RangeLog.RoundTrip` | llvm_evaluation/NOVA/nova/bbuild.c:196-540 | distributing the saved nodes gives back the lists they came from |
| `RangeLog.Save` | llvm_evaluation/NOVA/nova/bbuild.c:403-540 | pages for 254 nodes each suffice, and hold every node in order |
| `RangeLog.Load` | llvm_evaluation/NOVA/nova/bbuild.c:196-362 | the walk reads every entry up to the tail, across pages, and no other |
| `RangeLog.SaveAndLoad` | llvm_evaluation/NOVA/nova/bbuild.c:196-540 | saved lists read back as they were |
| `Remount.TakePages` | llvm_evaluation/NOVA/nova/log.c:1107-1160 | one request: refused if and only if the list that serves it is short of blocks; served whenever every list ends in a range with room |
| `Remount.RoomyLeft` | llvm_evaluation/NOVA/nova/balloc.c:755-815 | pages taken from the front leave room for the rest |
| `Remount.AllocatePages` | llvm_evaluation/NOVA/nova/log.c:1107-1160 | the log pages are disjoint free blocks, taken exactly, and as many as asked for unless a request is refused; each grant lies in the area of one list and only the last may hold its last block; nodes never become more |
| `Remount.SaveBlockNodes` | llvm_evaluation/NOVA/nova/bbuild.c:489-540 | the page count, computed before pages are taken, is enough for the nodes left afterwards; exactly the granted pages leave the free set; the nodes are saved if and only if all the pages are granted, which room in every list ensures |
| `Remount.MergeGrants` | llvm_evaluation/NOVA/nova/log.c:1364-1407 | pages that follow each other are freed as one run, the same blocks in all, and no run crosses from one list's area into the next |
| `Remount.FreePages` | llvm_evaluation/NOVA/nova/log.c:1364-1407 | every page of a saved log goes back to the free set |
| `Remount.LoadBlockNodes` | llvm_evaluation/NOVA/nova/bbuild.c:196-266 | the free set is the one before the nodes were saved |
| `Remount.LaidOut` | llvm_evaluation/NOVA/nova/balloc.c:62-141 | the lists of every layout have the areas the other members ask for |
| `CleanRemount.Unmount` | llvm_evaluation/NOVA/nova/super.c:923-963 | inode maps and free lists are both saved, the inodes first, if and only if the pages for their nodes are positive in number and all granted; a log that falls short was refused a request; room for both in every list ensures success |
| `CleanRemount.Mount` | llvm_evaluation/NOVA/nova/bbuild.c:1502-1534 | both are read back and all their pages returned |
| `CleanRemount.Remount` | llvm_evaluation/NOVA/nova/bbuild.c:1502-1534 | a clean unmount succeeds if and only if both logs get their pages, which room for both in every list ensures; the mount then leaves the set of free blocks and the set of inode numbers in use as they were, together |
| `Inodes.NumberParts` | llvm_evaluation/NOVA/nova/inode.c:143-169 | CPU and internal number to inode number is a bijection |
| `Inodes.ReservedCovered` | llvm_evaluation/NOVA/nova/inode.c:32-68 | the initial ranges cover every reserved number |
| `Inodes.InitialExceeds` | llvm_evaluation/NOVA/nova/inode.c:32-68 | the initial ranges always cover more numbers than the reserved ones, which the usage counter starts from |
| `Inodes.InitialMaps` | llvm_evaluation/NOVA/nova/inode.c:32-68 | every map starts with the initial range, fit for allocation |
| `Inodes.LeastUnused` | llvm_evaluation/NOVA/nova/inode.c:603-662 | the number after the first range is the least one not in use |
| `Inodes.FullIff` | llvm_evaluation/NOVA/nova/inode.c:603-662 | no number is left if and only if the first range reaches the end |
| `Inodes.AllocThenFree` | llvm_evaluation/NOVA/nova/inode.c:603-741 | freeing the number just allocated restores the tree |
| `Inodes.HeldCard` | llvm_evaluation/NOVA/nova/inode.c:603-741 | the trees' sizes add up to the number of inode numbers in use |
| `Inodes.InodeMaps.constructor` | llvm_evaluation/NOVA/nova/inode.c:32-68 | the numbers in use are those of the initial ranges; the usage counter starts below their number |
| `Inodes.InodeMaps.AllocUnused` | llvm_evaluation/NOVA/nova/inode.c:603-662 | hands out the least number the map does not use, adds exactly it, and fails only when all are used |
| `Inodes.InodeMaps.FreeInuse` | llvm_evaluation/NOVA/nova/inode.c:664-741 | removes exactly the number, rejects one not in use, and keeps the map fit for allocation if and only if the number is outside the initial range |
| `Inodes.InodeMaps.NewInode` | llvm_evaluation/NOVA/nova/inode.c:1016-1053 | maps take turns; a number handed out was not in use and is never a reserved one |
| `InodeRemount.SaveInodeList` | llvm_evaluation/NOVA/nova/bbuild.c:437-487 | every node of every map is saved, on pages that leave the free set and suffice, if and only if all of them are granted |
| `InodeRemount.ReadMaps` | llvm_evaluation/NOVA/nova/bbuild.c:283-362 | the walk gives every map its ranges back and counts exactly the numbers in them |
| `InodeRemount.LoadInodeList` | llvm_evaluation/NOVA/nova/bbuild.c:283-362 | the maps come back with the numbers that were in use, ready for allocation, the usage counter exact; the pages return to the free set |
| `FileLog.RebuiltMatches` | llvm_evaluation/NOVA/nova/rebuild.c:358-507 | replay maps every page to the last entry that wrote it and was not cut since, whatever fully invalid entries it skips |
| `FileLog.NewestDecides` | llvm_evaluation/NOVA/nova/rebuild.c:22-116 | the newest transaction decides the size, wherever its entry stands |
| `FileAssign.AssignPartial` | llvm_evaluation/NOVA/nova/log.c:801-864 | assigning one entry keeps page map, counters and block conservation right |
| `FileAssign.TrimPartial` | llvm_evaluation/NOVA/nova/inode.c:281-349 | so does cutting the file at a page |
| `FileTheorems.WriteInv` | llvm_evaluation/NOVA/nova/file.c:621-836 | a copy-on-write write keeps the invariant of the index |
| `FileTheorems.TruncateInv` | llvm_evaluation/NOVA/nova/inode.c:1230-1347 | so does a change of size |
| `FileTheorems.SetAttrInv` | llvm_evaluation/NOVA/nova/log.c:626-674 | so does a change of attributes |
| `FileTheorems.InPlaceInv` | llvm_evaluation/NOVA/nova/log.c:583-624 | also when the last attribute entry is updated in place |
| `FileTheorems.ReplayIsLive` | llvm_evaluation/NOVA/nova/rebuild.c:385-507 | in every good state replaying the log gives the live page map, file size and transaction number |
| `FileTheorems.CountersExact` | llvm_evaluation/NOVA/nova/log.c:105-127 | where no update was lost, an entry's invalid counter is its pages less those still mapped, and full exactly when no page maps to it |
| `FileTheorems.OwnerCounts` | llvm_evaluation/NOVA/nova/log.c:105-127 | an entry that a page still maps to is never counted fully invalid |
| `FileSizes.WriteGrows` | llvm_evaluation/NOVA/nova/file.c:621-836 | the entries of a write record sizes that never fall and reach their own pages |
| `FileExact.WriteExact` | llvm_evaluation/NOVA/nova/log.c:801-864 | a write leaves exact counters exact |
| `FileExact.TruncateExact` | llvm_evaluation/NOVA/nova/inode.c:281-349 | so does a change of size |
| `FileExact.SetAttrExact` | llvm_evaluation/NOVA/nova/log.c:583-674 | so does a change of attributes |
| `FileMounts.LaggingReplays` | llvm_evaluation/NOVA/nova/log.c:23-127 | a log that lost any of the counter updates that follow the commit replays to the same index |
| `FileMounts.RemountInv` | llvm_evaluation/NOVA/nova/rebuild.c:385-507 | the rebuilt file has the live one's page map, size and freed blocks, and satisfies the invariant, so any operation may follow |
| `FileRuns.RunInv` | llvm_evaluation/NOVA/nova/file.c:621-836 | after any run of writes, truncations, attribute changes, remounts and collections of any invalid entries, each with any counter updates lost, the invariant holds |
| `FileRuns.RunReplays` | llvm_evaluation/NOVA/nova/rebuild.c:385-507 | after any such run, over any number of mounts and collections, the log replays to the live index |
| `FileRuns.RunAccounts` | llvm_evaluation/NOVA/nova/gc.c:21-102 | every block ever handed out is recorded by an entry of the log or by one that was collected |
| `FileRuns.RunConserves` | llvm_evaluation/NOVA/nova/log.c:129-175 | after any such run every block handed out was freed or is mapped, exactly as often as it was handed out |
| `FileRuns.RunExact` | llvm_evaluation/NOVA/nova/log.c:105-127 | after a run that lost no update every counter is exact |
| `FileRuns.FreedIsGone` | llvm_evaluation/NOVA/nova/log.c:129-175 | a block granted once is never both freed and mapped |
| `FileCuts.NoneCut` | llvm_evaluation/NOVA/nova/rebuild.c:22-116 | a page that an entry covers and replay does not map was cut off by a later change of size |
| `FileCuts.RewriteOwner` | llvm_evaluation/NOVA/nova/log.c:583-624 | rewriting an attribute entry in place, wherever it stands, changes the owner of no page |
| `FileCuts.RewriteHarmless` | llvm_evaluation/NOVA/nova/log.c:583-624 | and leaves an entry that cuts no page |
| `FileCollect.OwnerKept` | llvm_evaluation/NOVA/nova/gc.c:21-102 | collecting invalid entries leaves every page to its owner, at its new place |
| `FileCollect.RefsGranted` | llvm_evaluation/NOVA/nova/log.c:105-127 | no more pages are mapped than were granted |
| `FileCollect.CollectConserves` | llvm_evaluation/NOVA/nova/gc.c:21-102 | every block of a collected entry was freed before |
| `FileCollect.CollectInv` | llvm_evaluation/NOVA/nova/gc.c:250-743 | a collection, fast or thorough, keeps the invariant of the index, the size, the mapped pages and their blocks |
| `FileCollect.CollectExact` | llvm_evaluation/NOVA/nova/gc.c:250-743 | it leaves exact counters exact |
| `FileCollect.CollectedLogReplays` | llvm_evaluation/NOVA/nova/gc.c:21-102 | dropping any invalid entries changes neither what replay shows for any page nor the size |
| `FileCollect.ShownIsRebuilt` | llvm_evaluation/NOVA/nova/rebuild.c:358-507 | what a page shows is the block replay maps it to |
| `FileAttrs.AttrsShownIff` | llvm_evaluation/NOVA/nova/log.c:583-674 | a rebuild shows the attributes of a change without a new size if and only if it was appended, or made in the last attribute entry of the log |
| `FileAttrs.TruncateShows` | llvm_evaluation/NOVA/nova/inode.c:1230-1347 | it always shows those of a change of size |
| `FileAttrs.LastAttrStaysIff` | llvm_evaluation/NOVA/nova/gc.c:250-298 | a collection leaves `last_setattr` at the last attribute entry if and only if it copies none or copies that one |
| `FileAttrs.StaleAttrs` | llvm_evaluation/NOVA/nova/gc.c:250-298 | a run after which a rebuild shows attributes older than the last change |
| `FileRuns.ShortWriteReplaysIff` | llvm_evaluation/NOVA/nova/file.c:621-836 | a committed write whose copy stopped short is in the live index if and only if its first extent was copied in full |
| `FileShows.WriteShows` | llvm_evaluation/NOVA/nova/file.c:621-836 | a write maps the pages its bytes lie in to the granted blocks in order, leaves every other page, grows the size to its end and frees exactly the blocks those pages had |
| `FileShows.TruncateCuts` | llvm_evaluation/NOVA/nova/inode.c:1230-1347 | a change of size keeps exactly the pages below the new end and frees exactly the blocks of the others |
| `FileShows.SetAttrShows` | llvm_evaluation/NOVA/nova/log.c:583-674 | a change of attributes changes no page, block or size |
| `FileShows.RemountShows` | llvm_evaluation/NOVA/nova/rebuild.c:385-507 | neither does a remount, whatever counter updates were lost |
| `FileShows.CollectShows` | llvm_evaluation/NOVA/nova/gc.c:250-743 | nor a collection |
| `FileShows.RunRefines` | llvm_evaluation/NOVA/nova/file.c:621-836 | over every run, mounts and collections included, size, blocks and freed blocks are those of the simple file in which only writes and truncations do anything |
| `FileImpl.RegularFile.FreeOldEntry` | llvm_evaluation/NOVA/nova/log.c:129-175 | frees exactly the run of blocks and raises the entry's counter by as many |
| `FileImpl.RegularFile.AssignWriteEntry` | llvm_evaluation/NOVA/nova/log.c:801-864 | the run-gathering loop refines page-by-page assignment |
| `FileImpl.RegularFile.FindNextEntry` | llvm_evaluation/NOVA/nova/log.c:177-190 | the entry of the least mapped page from a page on |
| `FileImpl.RegularFile.DeleteFileTree` | llvm_evaluation/NOVA/nova/inode.c:281-349 | the hole-skipping loop unmaps every page from the first on and frees exactly their blocks |
| `FileImpl.RegularFile.ReassignFileTree` | llvm_evaluation/NOVA/nova/dax.c:146-187 | assigns the appended entries in order, and meets no other kind |
| `FileImpl.RegularFile.CopyOnWrite` | llvm_evaluation/NOVA/nova/file.c:621-836 | the pages of the written bytes get the granted blocks in order and give back what they had, no other page changes, the size grows to the end of the write; refines the write: one entry per grant, commit, then reassignment |
| `FileImpl.RegularFile.AppendSetAttr` | llvm_evaluation/NOVA/nova/log.c:499-565 | appends the entry and invalidates the one before unless it set the size |
| `FileImpl.RegularFile.TruncateTo` | llvm_evaluation/NOVA/nova/inode.c:1230-1347 | pages below the new end keep their blocks, the others are gone and their blocks given back; refines the change of size |
| `FileImpl.RegularFile.ChangeAttributes` | llvm_evaluation/NOVA/nova/log.c:583-674 | refines the change of attributes, in place or appended |
| `FileImpl.RegularFile.Rebuild` | llvm_evaluation/NOVA/nova/rebuild.c:385-507 | the replay loop computes the rebuilt map, size, transaction number and last attribute entry |
| `FileImpl.RegularFile.ReplayEntry` | llvm_evaluation/NOVA/nova/rebuild.c:385-507 | one entry of the replay |
| `LogPages.ItemFits` | llvm_evaluation/NOVA/nova/log.c:1316-1362 | an entry ends within the used part of its page |
| `LogPages.ReaderMoves` | llvm_evaluation/NOVA/nova/nova.h:805-834 | the reader stays on a page while entries are left and leaves after the last, whatever the unwritten slots hold |
| `LogPages.FlattenAppend` | llvm_evaluation/NOVA/nova/log.c:1316-1362 | an appended entry comes last, on whichever page it lands |
| `InodeLog.Walk` | llvm_evaluation/NOVA/nova/nova.h:805-834 | a walk from head to tail visits exactly the committed entries in order, whatever the unwritten slots hold |
| `LogFile.Log.constructor` | llvm_evaluation/NOVA/nova/log.c:1162-1198 | a new log is empty |
| `LogFile.Log.CommittedShows` | llvm_evaluation/NOVA/nova/inode.h:210-258 | the committed entries can be walked; uncommitted ones and spare pages do not show |
| `LogFile.Log.Commit` | llvm_evaluation/NOVA/nova/inode.h:242-258 | the tail covers exactly what was appended |
| `LogFile.Log.SetFlag` | llvm_evaluation/NOVA/nova/nova.h:704-714 | a page that is left gets the mark the reader needs |
| `LogFile.Log.WriteEntry` | llvm_evaluation/NOVA/nova/log.c:398-456 | the entry lands inside the page and comes last |
| `LogFile.Log.Invalidate` | llvm_evaluation/NOVA/nova/nova.h:759-780 | one entry is marked and its page's counter stays the number of marked entries |
| `LogFile.Log.AppendPage` | llvm_evaluation/NOVA/nova/log.c:1284-1314 | one blank page is linked behind the last |
| `LogFile.Log.AppendCopy` | llvm_evaluation/NOVA/nova/log.c:1316-1362 | the copied entry comes last, on a new page if and only if the log is full |
| `LogChains.DeadsFull` | llvm_evaluation/NOVA/nova/gc.c:104-139 | a page counts as invalid exactly when all its entries are |
| `LogChains.KeptLive` | llvm_evaluation/NOVA/nova/gc.c:564-743 | dropping such pages loses no valid entry and keeps the order |
| `LogChains.DroppedExactly` | llvm_evaluation/NOVA/nova/gc.c:104-155 | the dropped pages are the fully invalid ones before the tail page, each once |
| `LogFile.Log.SweepPages` | llvm_evaluation/NOVA/nova/gc.c:564-743 | the unlinking pass leaves exactly the kept pages linked, frees each dropped one but the head, and counts the entries on the kept pages and the valid ones among them |
| `LogFile.Log.FastGc` | llvm_evaluation/NOVA/nova/gc.c:564-743 | the chain is the old one without the dropped pages, plus the new pages if any; each dropped page is freed once; the page count stays right |
| `LogFile.PrefixShows` | llvm_evaluation/NOVA/nova/nova.h:805-834 | a log shows its entries up to any tail in it |
| `LogGc.FreeContiguous` | llvm_evaluation/NOVA/nova/log.c:1364-1407 | the runs freed are exactly the pages of the chain, in order |
| `LogGc.AssignSlots` | llvm_evaluation/NOVA/nova/gc.c:157-183 | exactly the slots that led to the entry follow it |
| `LogGc.PackedHolds` | llvm_evaluation/NOVA/nova/gc.c:342-368 | packing entries onto pages keeps them all, in order |
| `LogGc.NoLongerStep` | llvm_evaluation/NOVA/nova/gc.c:342-368 | packing the valid entries anew never needs a page more than they took |
| `LogGc.CopyNext` | llvm_evaluation/NOVA/nova/gc.c:342-360 | one entry of the copy: everything copied so far and every slot stay right with it, or the copy gives up, and then the packing of all valid entries needs more pages than there are |
| `LogGc.CopyLive` | llvm_evaluation/NOVA/nova/gc.c:300-428 | the new log is the packing of the valid entries before the tail page, on no more pages than before, and their slots follow; it is finished if and only if the packing fits on the pages granted in advance and one by one |
| `LogGc.OldStops` | llvm_evaluation/NOVA/nova/gc.c:370-428 | until the head is switched a reader meets the old entries |
| `LogGc.NewStops` | llvm_evaluation/NOVA/nova/gc.c:370-428 | from the switch on a reader meets the new entries, and the result is a well-formed log |
| `LogGc.SwitchOver` | llvm_evaluation/NOVA/nova/gc.c:370-428 | every stop between the steps shows the old or the new sequence; the old pages are freed |
| `LogGc.ThoroughGc` | llvm_evaluation/NOVA/nova/gc.c:300-428 | the log reads as before without exactly the invalid entries before the tail page, on no more pages; every stop reads as old or new; every slot leads to its entry in the new log; the page count drifts by the new pages left empty; a short grant changes nothing, and neither does a fault, which comes if and only if the packing needs a page that is refused |
| `LogGc.SlotsInside` | llvm_evaluation/NOVA/nova/gc.c:157-183 | no slot leads to a freed page |
| `LogAppend.CleanedKeeps` | llvm_evaluation/NOVA/nova/gc.c:300-743 | whichever collectors ran, no valid entry is lost, added or moved past another, committed ones included |
| `LogAppend.Decides` | llvm_evaluation/NOVA/nova/gc.c:719-735 | the counts of the pass decide as the contents do, and the estimate is between one page and the pages kept |
| `LogAppend.SlotsCollected` | llvm_evaluation/NOVA/nova/gc.c:564-743 | dropping fully invalid pages takes no slot's entry away |
| `LogAppend.Collect` | llvm_evaluation/NOVA/nova/gc.c:564-743 | the pass and what follows it: the thorough collector runs if and only if it is forced or the estimate is below half the kept pages, and its grant is met; contents, slots, freed pages and page count are exact either way, the drift of the page count and the fault stated by the log before the call |
| `LogEstimate.BuiltIsPacked` | llvm_evaluation/NOVA/nova/gc.c:342-368 | a log grown by appending entries is the packing of its entries |
| `LogEstimate.EstimateTooHigh` | llvm_evaluation/NOVA/nova/gc.c:719-735 | a log that appending builds, where an unforced append asks for six pages and two hold the valid entries |
| `LogEstimate.EstimateTooLow` | llvm_evaluation/NOVA/nova/gc.c:719-735 | one where it asks for a single page and two are needed: if the second is refused, the append faults |
| `LogAppend.Extend` | llvm_evaluation/NOVA/nova/log.c:1204-1281 | a full log gets room, whichever collectors run; refused if and only if no page is granted, and it faults exactly when the collector does |
| `LogAppend.AppendEntry` | llvm_evaluation/NOVA/nova/log.c:1316-1362 | whatever is collected on the way, the valid entries stay as they were with the new one last, and the committed ones as they were; refused only if the log had to grow and no page was granted; it faults only if the collector does |
| `LogCrash.FormatExists` | llvm_evaluation/NOVA/nova/log.h:40-65 | entries and marks told apart by their first word, like those of the log, meet what the crash theorems ask of a format |
| `LogCrash.LogReads` | llvm_evaluation/NOVA/nova/nova.h:805-834 | a log laid out in words can be walked |
| `LogCrash.StillIn` | llvm_evaluation/NOVA/nova/nova.h:805-834 | words that lie neither in an entry, a mark nor a link of the log may change |
| `LogCrash.AppendHere` | llvm_evaluation/NOVA/nova/log.c:398-456 | an entry that fits goes into the free part of the last page and is pending write-back there; nothing the old log needs is stored to |
| `LogCrash.AppendClose` | llvm_evaluation/NOVA/nova/nova.h:704-714 | so is the next-page mark |
| `LogCrash.AppendThere` | llvm_evaluation/NOVA/nova/log.c:1316-1362 | and so is an entry at the start of the next page |
| `LogCrash.CommitAtomic` | llvm_evaluation/NOVA/nova/inode.h:210-258 | once new entries are pending in the free part, a crash at any primitive up to the end of the commit shows the old log under the old tail or the new log under the new one |
| `LogCrash.AppendAtomic` | llvm_evaluation/NOVA/nova/log.c:398-456 | appends of any entries and their commit are atomic: at every primitive a crash leaves a log whose reader meets the old entries, or the old ones and all the new ones whole and in order; after the last, the new ones |
| `Scan.StartSize` | llvm_evaluation/NOVA/nova/bbuild.c:1027-1138 | the size a window starts from does not matter |
| `Scan.NotedIsShown` | llvm_evaluation/NOVA/nova/bbuild.c:863-1025 | for every page, the scan notes exactly the block replay maps it to |
| `Scan.ScanExact` | llvm_evaluation/NOVA/nova/bbuild.c:1027-1138 | in every good state, with any invalid entries collected, a block is marked if and only if it is not block 0 and the live index refers to it |
| `Scan.SetRing` | llvm_evaluation/NOVA/nova/bbuild.c:863-914 | the ring takes the part of an entry inside the window |
| `Scan.RingSetAttr` | llvm_evaluation/NOVA/nova/bbuild.c:940-1006 | a cut clears exactly the dropped pages inside the window |
| `Scan.Traverse` | llvm_evaluation/NOVA/nova/bbuild.c:1027-1138 | one traversal leaves the window's blocks in the ring |
| `Scan.SetFileBm` | llvm_evaluation/NOVA/nova/bbuild.c:916-937 | the window's blocks are marked and the ring is empty again |
| `Scan.TraverseFileLog` | llvm_evaluation/NOVA/nova/bbuild.c:1027-1138 | whatever the window size, the traversals end and mark exactly what one pass over all pages would |
| `Layout.InitFreeList` | llvm_evaluation/NOVA/nova/balloc.c:62-141 | the stepwise set-up gives the layout below |
| `Layout.RegionsPartition` | llvm_evaluation/NOVA/nova/balloc.c:62-141 | every block of the lists' stretches belongs to exactly one region: head, checksums, parity, data, replica checksums or tail |
| `Layout.ParityRoom` | llvm_evaluation/NOVA/nova/balloc.c:90-118 | a ninth of the blocks, rounded up twice, is enough parity for every list |
| `Layout.ParityStripeOwn` | llvm_evaluation/NOVA/nova/nova.h:895-933 | every allocatable block passes the range test and its stripe lies in its list's parity region |
| `Layout.ParityStripesApart` | llvm_evaluation/NOVA/nova/nova.h:895-933 | the stripes of two blocks never overlap |
| `Layout.CsumPassesIff` | llvm_evaluation/NOVA/nova/nova.h:850-893 | exactly which stripes pass the range test, on any device |
| `Layout.AllInReach` | llvm_evaluation/NOVA/nova/nova.h:850-893 | on a device of a multiple of 512 KiB every allocatable block passes the checksum range test |
| `Layout.CsumSlotsOwn` | llvm_evaluation/NOVA/nova/nova.h:850-893 | every stripe of a block that passes the test has both slots inside its list's regions |
| `Layout.CsumSlotsApart` | llvm_evaluation/NOVA/nova/nova.h:850-893 | no two stripes, nor the two copies of one, share a slot |
| `Layout.OddDeviceFails` | llvm_evaluation/NOVA/nova/nova.h:850-893 | on a device of another size an allocatable block can have no slot |
| `Parity.CalculateBlockParity` | llvm_evaluation/NOVA/nova/parity.c:20-54 | the parity is the exclusive or of the eight stripes |
| `Parity.ParityRecovers` | llvm_evaluation/NOVA/nova/parity.c:20-54 | with the parity in its place, the other stripes give a stripe back |
| `Parity.RebuiltByteIff` | llvm_evaluation/NOVA/nova/parity.c:268-372 | with one other stripe damaged, a rebuilt byte is right if and only if that stripe's byte is |
| `Parity.AttemptIff` | llvm_evaluation/NOVA/nova/parity.c:268-372 | attempt i restores a stripe if and only if the damage leaves a clean cut at byte i |
| `Parity.RestoreData` | llvm_evaluation/NOVA/nova/parity.c:268-372 | the first attempt with a matching checksum replaces the stripe; without one nothing changes |
| `Parity.VerifyStripe` | llvm_evaluation/NOVA/nova/checksum.c:757-857 | one stripe of the pass: accepted, repaired with both checksum copies set right, or left as it was |
| `Parity.VerifyStripes` | llvm_evaluation/NOVA/nova/checksum.c:715-865 | on success every stripe agrees with both checksum copies; a scribble of at most 512 bytes is repaired if and only if the pass is not stuck on it |
| `Parity.StuckBetween` | llvm_evaluation/NOVA/nova/checksum.c:757-857 | a pass that starts at the second damaged stripe is stuck when the scribble changed that stripe's first byte |
| `Parity.WholeNeverStuck` | llvm_evaluation/NOVA/nova/checksum.c:715-865 | a pass over the whole block never is |
| `Protect.UnrolledPass` | llvm_evaluation/NOVA/nova/parity.c:147-256 | the loop over quad words computes the same checksums and parity as the loops over bytes |
| `Protect.Regions.UpdateStripeCsum` | llvm_evaluation/NOVA/nova/checksum.c:539-624 | both copies of exactly the given stripes' checksums are written |
| `Protect.Regions.UpdateBlockCsum` | llvm_evaluation/NOVA/nova/checksum.c:642-675 | the stripes touched by a byte range are exactly those written |
| `Protect.Regions.UpdateBlockCsumParity` | llvm_evaluation/NOVA/nova/parity.c:147-256 | the parity is the block's; after an update of any byte range the block is guarded if and only if the checksums written are those of the stripes touched and the other stripes' were right before; every other block stays guarded |
| `Protect.SummedRightIff` | llvm_evaluation/NOVA/nova/parity.c:147-256 | the checksums written are the block's own for every content if and only if the CPU has SSE 4.2 or the unrolled path is not taken |
| `Protect.UpdateGuards` | llvm_evaluation/NOVA/nova/parity.c:147-256 | exactly when an update of some stripes leaves a block guarded |
| `Protect.RestStays` | llvm_evaluation/NOVA/nova/parity.c:147-256 | a block that was guarded and changes only in the stripes touched has the other checksums right |
| `Protect.OthersGuarded` | llvm_evaluation/NOVA/nova/parity.c:147-256 | updating a block disturbs no other block's checksums or parity |

## Left out

- Journals of several CPUs at once: one CPU's journal and its transactions are modelled.
- The page-tail counter of invalid entries is not journaled, so the crash theorems cover journaled words only.
- Whole-operation atomicity of rename beyond its journaled words, and the directory hash tree of `dir.c`.
- `metadata_csum` on: replica inodes, alternate logs and the repair of log entries.
- Epochs and snapshots inside the file index: entries are freed at once, as without snapshots; `Snapshot*` models what happens to them otherwise.
- File contents, `fallocate`, in-place writes, `mmap` entries, link-change entries, symlinks and the clean-up after a failed allocation in a write.
- Snapshot lists saved at unmount and restored at mount: snapshot runs stay inside one mount.
- The recovery crawl over all inodes and its threads: the scan of one file's log and the merge of the bitmaps are modelled.
- The unused `replica_parity_start`, which overlaps the allocatable area; no code reads it.
- Updates with the `zero` flag, which copy a precomputed checksum.
- `invoke` and PHI instructions of the IR.
- VFS glue, `ioctl`, mount options, statistics, DAX faults and page protection.
- JournalImpl.LiteJournal.Create: the three transaction kinds differ only in the fields they pass, so they are one method; the replica inode entries of `metadata_csum` are not modelled.
- SnapshotManager.Manager.DeleteSnapshot: when its walk strays, says so and nothing about the state after it; Manager.CleanSnapshot likewise.
- SnapshotRuns.SnapshotsKeepTheirBlocks: covers runs whose list walks do not stray, which is what `Legal` says.
- SnapshotManager.Execute: covers the same runs.
- SnapshotRuns.SnapshotsFreeExactly: covers the runs among them that let the cleaner finish between deletions.
- Balloc.FreeList.FreeBlocks: models 4 KiB blocks; the bounds test on the number of larger blocks is not modelled.
- BallocLists.Candidate: compares exact counts, where the code compares them as `int`.
- Bbuild.Recover: takes the lists' areas to lie within the bitmap, which has whole bytes; the last up to seven blocks of a device whose size is not a multiple of 32 KiB have no bit.
- CleanRemount.Remount: says nothing of the mount when the log pages were not granted, as the code then has not saved both, and takes the free ranges of all lists together to be fewer than 2 to the 32nd.
- LogFile.Log.FastGc: makes no claim about `last_dentry`, nor about the order in which its stores become durable; FileCollect.CollectInv has `last_setattr`.
- LogGc.ThoroughGc: takes its steps as durable in program order; an invalid directory entry that `last_dentry` points to is collected here, where the code copies it.
- LogAppend.Collect: makes no claim about the pages of a grant that falls short of the estimate, which the code neither uses nor frees.
- LogCrash.AppendAtomic: covers entries of at most 64 bytes, which all entries of regular files are; longer directory entries are written back by other means. The pages appended to are linked, durably, beforehand.
- LogAppend.AppendEntry: takes the pages granted as they come; how many are asked for, at most 256, is not modelled.
- FileImpl.RegularFile.CopyOnWrite: takes the allocator's grants as given and every copy as complete; FileRuns.ShortWriteReplaysIff covers the short one.
- Parity.VerifyStripes: covers the stripes of one block and no media errors; Parity.RestoreData has the unreadable stripe.
- Inodes.InodeMaps.NewInode: leaves out the inode's address and the growth of the inode table.
