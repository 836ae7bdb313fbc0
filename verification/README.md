# NanoFS, modelled and proved

NanoFS (ModernFS) is a small Unix-style file system: C code for blocks, inodes, paths and FUSE, Rust code for the
write-ahead journal and the extent allocator. This project models the parts that hold state and proves what they
promise, and, where they do not keep a promise, the exact condition under which they do.

The model has two halves that meet. Classes with fields, pointers, arrays and loops do what the C and Rust code does;
each method is proved to take the state to exactly what a value function says. The theorems are about those value
functions.

- **Journal.** `JournalFormat` (records on disk, byte by byte), `ByteXor` (what the checksum rests on), `JournalLog`
  (the two readers, `recover` and `checkpoint`, as interpreters of a block image), `JournalCommit` (what a commit prints
  and how it is read back, also when it wraps or runs out of slots), `JournalRun` (the step machine: operations, device
  events, power failures), `JournalCrash` (atomicity and durability over whole runs), `JournalDurable` (the same on a
  device that may lose, in any later power failure, whatever no barrier lies behind), `JournalTxn` (what a transaction
  has gathered, and what becomes of it), `JournalLoss` (commits of which only part reached the device: when the log
  before them is still there, when recovery takes them for whole), `JournalGaps` (where the promises end, with small
  machines that show it), `JournalWrap` (wrapping over slot 0 with no crash at all: the home blocks, and how many
  transactions a fresh ring takes), `Journal` (the class).
- **Block device and buffer cache.** `DevModel` (what each call does to disk and buffers), `DevRefine` (the pair is one
  flat disk), `DevOrder` (the list is ordered by last use; references), `BufferCache.dfy` (module `Buffers`: the doubly
  linked LRU list, the hash chains and the cache over them, by pointer surgery), `BlockDev` (the class), `DiskFile` (the
  device).
- **Files.** `BlockTree` and `FileMap` (direct, indirect and double-indirect pointers stored in the blocks of the same
  disk; separation), `BlockPlaces` (where those pointers lie, in fields and bytes), `FileAlloc` (which block first fit
  gives to which logical block of a write), `FileRoom` (when a write succeeds, and how far it gets otherwise),
  `FileBytes`, `FileRead` and `FileArray` (files as byte arrays), `FileJournal` (writing through a transaction means the
  same as writing directly), `PowerLoss` (what of an acknowledged write is left after a power failure), `FileTruncate`,
  `InodeIo` (the class over cached device and bitmap allocator), `InodeTable` and `InodeCache` (the pool of inodes
  refines the inode table), `FuseWrite` (`modernfs_write` as a whole).
- **The rest.** `Options`, `Blocks` (bytes, words, block images), `Bits` (packed bitmaps), `Modular` (remainders),
  `BlockAlloc` (C bitmap allocator), `ExtentAlloc` (Rust extent allocator), `Path` (tokenizer, normaliser, resolution),
  `PathMeaning` (exactly when normalising keeps what a path means), `Layout` (the layout of a new file system in 32-bit
  arithmetic).

Reading guide to the main results: `JournalCrash.RunIsAtomic` and `JournalCrash.AckedIsDurable` (crash atomicity and
durability over every run), `JournalDurable.AtomicUnderLoss` and `JournalDurable.AckedUnderLoss` (the same when every
power failure may lose whatever no barrier lies behind), `JournalTxn.WrittenIsRecovered` (begin, write, commit, power
failure: all of it or nothing), `JournalGaps.OkCommitRecoveredIff` (exactly which successful commits survive an
immediate power failure) and `JournalGaps.OkCommitSweptIff` (exactly which ones the next checkpoint sweeps up whole),
`JournalWrap.LapServes` and `JournalWrap.LapEnds` (how many one-block transactions a ring takes, and what becomes of the
next), `JournalLoss.InterruptedCommitRetainsIff` and `JournalLoss.FailedCommitRetainsIff` (exactly when a commit that is
cut short or refused leaves the log before it readable), `JournalGaps.FailedCommitHarmlessIff` (exactly what a refused
commit does to the next checkpoint), `JournalLoss.SurvivingSuperIff` (exactly when a commit whose records were reordered
behind its superblock is whole), `DevRefine.RunRefines` (the cache is a flat disk), `FileMap.BmapKeeps` (separation),
`BlockPlaces.LooksUp` and `BlockPlaces.Allocates` (which words of which blocks), `FileRead.ReadAnswers` (every read),
`FileArray.WriteThenRead` (a file is a byte array), `FileRoom.WriteSucceedsIff` (exactly when a write succeeds),
`FileArray.OutsideSurvivesIff` (exactly which bytes outside a write survive), `FileJournal.JournaledIsDirect` (the
journaled write preserves meaning), `FuseWrite.Mount.Write` (read your writes through journal, checkpoint and cache),
`FuseWrite.Mount.WriteAndLosePower` (exactly which acknowledged writes read back after a power failure),
`FileTruncate.ShrinkKeepsInvIff` and `FileTruncate.KeptBlocksSafeIff`, `InodeCache.InodeCache.Get`,
`ExtentAlloc.ExtentAllocator.AllocateExtent`, `PathMeaning.KeepsMeaningIff`, `Layout.CoverageIff`.

Where the code falls short of what its own documentation says, the code is modelled as it is:

- "Crash consistency" (README.md of the repository) holds for the blocks that transactions name, for commits that stay
  off ring slot 0, on a device that keeps the order of its writes. A file write names its data blocks only: inode, index
  blocks and bitmap go to the buffer cache and reach the device at the next sync. So a write that was acknowledged and
  then loses power is read back, on a device that held everything before it, exactly when it did not grow the file and
  gave no new block anything but zeros (`FuseWrite.Mount.WriteAndLosePower`, `PowerLoss.PowerLossIff`,
  `PowerLoss.AckedByteIsLost`).
- `allocate_journal_block` hands out slot 0, which is the journal superblock. A commit that returned Ok and wraps over it
  is lost in an immediate power failure unless it was lucky (`JournalGaps.OkCommitRecoveredIff`,
  `JournalGaps.WrappedCommitIsLost`). Without any crash the next checkpoint sweeps up the log and the transaction, and
  nothing else, exactly when the commit stayed off slot 0, or only its commit record fell there, or it was lucky
  (`JournalGaps.OkCommitSweptIff`). When an unlucky payload falls there, the home blocks are then wrong unless a later
  write of the transaction hides it (`JournalWrap.PayloadWrapHomeIff`, `JournalWrap.WrappedCommitIsMangled`); when a
  header does, its record is not swept, though that may go unnoticed (`JournalWrap.LostRecordUnnoticed`). And whoever
  stayed off slot 0 is not safe from later commits: one that is refused, or cut short before its superblock write, and
  has put a header onto slot 0, or a payload that does not pose as a superblock, leaves an image from which the log
  before it is no longer read, acknowledged transactions included (`JournalLoss.FailedCommitRetainsIff`,
  `JournalLoss.InterruptedCommitRetainsIff`, `JournalGaps.RefusedCommitLosesLog`).
- A commit that fails with "Journal is full" has written and keeps part of its records. The next checkpoint carries them
  home, or, when an odd slot is left over that still reads as a data header, never returns; it is harmless exactly when
  no slot was free, or one that does not read so (`JournalGaps.FailedCommitHarmlessIff`, `JournalGaps.FailedCommitLeaks`,
  `JournalGaps.FailedCommitJams`).
- No barrier lies between a commit's records and the superblock write that publishes them, and the checksums in the
  records are never looked at: on a device that reorders writes a commit can tear (`JournalGaps.ReorderedCommitTears`).
  It is recovered whole exactly when every lost block reads as its slot did before, or by one stroke of luck
  (`JournalLoss.SurvivingSuperIff`, `JournalGaps.LostRecordsRecovered`).
- A write to a cached block that was invalidated leaves `valid` off, so the next read discards it
  (`DevRefine.WriteRefinesIff`, `DevRefine.LostWriteExample`).
- Growing a file by `inode_truncate` moves the size alone, so bytes behind the old end come back
  (`FileTruncate.GrowChangesSize`).
- A read that brings a block into the cache takes a reference that nothing gives back, so the cache can never evict it
  (`DevOrder.ReadHoldsForGood`).
- Fresh data blocks are not cleared, so a hole can come to show old data (`FileArray.OutsideSurvivesIff`,
  `FileArray.StaleHoleExample`).
- Normalising a path drops the ".." that climb above its start, which changes what a relative path means, and forgets
  components that ".." takes back, which can make a missing path resolve (`PathMeaning.KeepsMeaningIff`,
  `PathMeaning.ResolvesIff`, `PathMeaning.MissingPathResolves`).
- A shrinking truncate leaves the freed blocks' pointers in place, so that a later write can put one block into two files
  (`FileTruncate.ShrinkKeepsInvIff`, `FileTruncate.StalePointerSharedIff`, `FileTruncate.TruncateThenClobber`), and
  beyond 4 GiB its 32-bit byte offset can free blocks that the file keeps (`FileTruncate.KeptBlocksSafeIff`,
  `FileTruncate.BigShrinkFreesKept`). What it keeps, on the first call and on later ones, is the separation of the
  pointers below the files' ends, exactly when no step of the loop lands on a kept block
  (`FileTruncate.ShrinkKeepsLiveIff`).
- The circular extent search can settle on a run that crosses the end of the bitmap, and marking it then panics; a detected
  double free has already released the blocks before it (`ExtentAllocator.AllocateExtent`, `ExtentAllocator.FreeExtent`).
- `rust_journal_abort`, which a failed write calls, leaves the aborted transaction in the journal's table
  (`FuseWrite.Mount.Attempt`).
- The comment on the extent search promises a length between minimum and maximum; it always grants the minimum.
- The LRU eviction the documentation advertises for the buffer cache is a function nothing calls; the full cache writes
  through instead. The function is modelled and proved all the same.
- The layout tiles the device from 266 blocks on, but the data bitmap can be a block or more short after the second pass, and
  vanishes for the largest 32-bit sizes, where the rounding sum wraps (`Layout.CoverageIff`, `Layout.OneBlockUncovered`).

## Model

| member | source | states |
|---|---|---|
| JournalFormat.SuperRoundTrip | rust_core/src/journal/types.rs:12-29 | a journal superblock written to its block and loaded again has lost nothing, reserved bytes included, and carries the journal magic |
| JournalFormat.HeaderDecodes | rust_core/src/journal/mod.rs:200-215 | the header block printed for any target and payload is read back as a data header with that target |
| JournalFormat.CommitDecodes | rust_core/src/journal/mod.rs:227-247 | the block printed for any transaction id and count is read back as a commit record |
| JournalFormat.SuperLayout | rust_core/src/journal/types.rs:12-29 | where each field of the journal superblock lies, down to the zeros behind the record |
| JournalFormat.HeaderLayout | rust_core/src/journal/mod.rs:191-215 | a data header is magic, target and checksum in its first twelve bytes, zeros behind |
| JournalFormat.CommitLayout | rust_core/src/journal/mod.rs:227-263 | a commit record is magic, 64-bit id, block count and the low half of the id, zeros behind |
| JournalFormat.LaneUpdate | rust_core/src/journal/mod.rs:249-259 | putting another byte in its place changes the checksum's byte of that lane by the exclusive or of the two, and no other |
| JournalFormat.ChecksumNotices | rust_core/src/journal/mod.rs:249-259 | zeros have checksum zero, and a single changed byte never goes unnoticed |
| Blocks.WordDigits | src/inode.c:586 | the bytes of a stored word are its digits to base 256, the lowest first |
| Blocks.ApplyLastWriter | rust_core/src/journal/mod.rs:306-344 | after a list of block writes a block holds the data of the last write naming it |
| Blocks.ApplyForgets | rust_core/src/journal/mod.rs:413-423 | two images that differ only where a list of writes lands become equal by replaying the list |
| JournalLog.ScanThroughLog | rust_core/src/journal/mod.rs:395-440 | over slots that hold a printed log the scan of recover yields exactly its transactions in order and goes on behind them, whatever bytes the payloads start with |
| JournalLog.SweepThroughLog | rust_core/src/journal/mod.rs:306-344 | the sweep of checkpoint yields the same writes, flattened, and goes on behind them |
| JournalLog.ReadersAgree | rust_core/src/journal/mod.rs:286-458 | print, then parse: between head and tail of a log both readers recover it exactly, nothing torn, nothing extra |
| JournalCommit.PrintedByWrites | rust_core/src/journal/mod.rs:143-151 | the writes of a commit put header, payload, ..., commit record into consecutive ring slots and change no other block |
| JournalCommit.CommitAppends | rust_core/src/journal/mod.rs:120-167 | a non-empty commit that stays off slot 0 turns the log between the pointers into that log plus its transaction |
| JournalCommit.ScanStopsAtSlotZero | rust_core/src/journal/mod.rs:180-189 | when a header or the commit record falls on slot 0, the superblock replaces it and the scan from the old tail recovers nothing |
| JournalCommit.CommitRecoveredIff | rust_core/src/journal/mod.rs:180-189 | a commit that had room is read back exactly when it stays off slot 0, or slot 0 fell on a payload whose stand-in block behind the journal holds the same bytes |
| JournalCommit.CommitSweptIff | rust_core/src/journal/mod.rs:304-344 | the ordinary sweep after a commit that had room yields the log and the transaction exactly when the commit stayed off slot 0, or only its commit record fell there, or slot 0 fell on a payload whose stand-in block holds the same bytes |
| JournalCommit.FailedCommitIsSwept | rust_core/src/journal/mod.rs:143-150 | after a commit that ran out of slots the next sweep never meets the moved tail exactly when the number of free slots was odd and the slot left over reads as a data header; otherwise it carries home exactly the log and the records that fit |
| JournalCrash.ReplayCompletes | rust_core/src/journal/mod.rs:306-344 | a replay of which any part had already been applied ends in the same image as a replay from scratch |
| JournalCrash.UnpublishedCommit | rust_core/src/journal/mod.rs:143-151 | whatever subset of a commit's record writes survives without the superblock write, off slot 0, changes neither log nor home blocks |
| JournalCrash.PublishedCommit | rust_core/src/journal/mod.rs:153-162 | with the superblock write the transaction is the new end of the log, in memory and on the device, and no home block has changed |
| JournalCrash.RefusedStep | rust_core/src/journal/mod.rs:143-150 | a commit refused for lack of slots off slot 0, finished or interrupted anywhere, adds nothing: the device still holds the log and recovery yields what it did |
| JournalCrash.CommitStep | rust_core/src/journal/mod.rs:120-167 | a commit, empty, fitting or refused, finished or interrupted, keeps the log on the device and adds its transaction whole exactly when its superblock write reached the device |
| JournalCrash.CheckpointCrashImage | rust_core/src/journal/mod.rs:346-368 | if the head's move survived a crash so did every home write, because a barrier lies between |
| JournalCrash.CheckpointStep | rust_core/src/journal/mod.rs:286-375 | a checkpoint, finished or interrupted with any legal subset of its writes lost, keeps the invariant and changes nothing of what recovery yields |
| JournalCrash.RecoverStep | rust_core/src/journal/mod.rs:377-458 | a recovery, finished or interrupted, keeps the log and changes nothing of what recovery yields |
| JournalCrash.InterpretersAgree | rust_core/src/journal/mod.rs:286-458 | recover and checkpoint leave the same home blocks, the log applied in order; recovering twice equals recovering once |
| JournalCrash.StepKeeps | rust_core/src/journal/mod.rs:108-458 | every operation, finished or cut short, keeps the invariant and adds exactly what it published |
| JournalCrash.RunKeeps | rust_core/src/journal/mod.rs:108-458 | the same for every run of operations and power failures |
| JournalCrash.RunIsAtomic | rust_core/src/journal/mod.rs:120-167 | crash atomicity: after any run, refused commits included, recovery leaves on the home blocks what it would have left at the start plus the transactions whose superblock write reached the device, each whole, in order, and nothing else |
| JournalCrash.AckPublishes | rust_core/src/journal/mod.rs:153-167 | a commit that returns Ok has put its superblock write on the device before it does, so its transaction counts as published |
| JournalCrash.AckedIsDurable | rust_core/src/journal/mod.rs:153-167 | durability: in any run, once a commit has returned Ok and no transaction published later names the block, recovery at the end leaves on it what the transaction last wrote there |
| JournalCrash.PointersAgree | rust_core/src/journal/mod.rs:286-458 | unless a commit has been refused since, checkpoint and recovery find between the pointers in memory the log that is on the device |
| JournalCrash.FreshJournal | src/mkfs.c:219-237 | the journal superblock that mkfs writes, pointers at slot 1, is an empty log that satisfies the invariant |
| JournalCrash.OldFormatOpens | rust_core/src/journal/mod.rs:77-93 | an image whose pointers are both 0 opens as an empty log with both at 1 |
| JournalTxn.OthersStay | rust_core/src/journal/mod.rs:108-180 | ids are never handed out twice, and only operations that name it change a transaction |
| JournalTxn.PendingIsHistory | rust_core/src/journal/types.rs:84-95 | over any run in which nobody ends it, whatever else happens, a transaction has gathered exactly the blocks written to it, in order |
| JournalTxn.TransactionIsItsWrites | rust_core/src/journal/types.rs:84-95 | the same from its begin on |
| JournalTxn.CommitPublishesWrites | rust_core/src/journal/mod.rs:120-167 | the commit behind such a run succeeds exactly when there is room, and has then published exactly the blocks written to the transaction, as the last of the run |
| JournalTxn.WrittenIsRecovered | rust_core/src/journal/mod.rs:108-167 | begin, write a list of blocks, commit with or without a power failure: recovery yields all of the list or nothing, and all of it after Ok |
| JournalTxn.HowItEnds | rust_core/src/journal/mod.rs:120-180 | a commit that returns Ok and an abort end the transaction, a refused commit leaves it as it was |
| JournalTxn.EndedForGood | rust_core/src/journal/mod.rs:120-180 | over any run an ended transaction stays ended, takes no write and publishes nothing |
| JournalTxn.SequenceCounts | rust_core/src/journal/mod.rs:349-368 | over any run the sequence number counts the checkpoints that released something, in 64 bits; of the other fields only the pointers change |
| JournalDurable.OkIsFlushed | rust_core/src/journal/mod.rs:153-160 | an operation that returns Ok has put a barrier behind everything it wrote, and the disk is what its events make of it; only a refused commit leaves writes waiting |
| JournalDurable.AtomicUnderLoss | rust_core/src/journal/mod.rs:108-456 | crash atomicity over every run when a power failure, then or later, may lose any write of any operation that no completed barrier lies behind |
| JournalDurable.AckIsFlushed | rust_core/src/journal/mod.rs:153-167 | when a commit returns Ok nothing waits any more, left over from earlier operations or not |
| JournalDurable.AckedUnderLoss | rust_core/src/journal/mod.rs:153-167 | durability under the same losses: once a commit has returned Ok no later power failure takes it back |
| JournalGaps.AllocateWhileFree | rust_core/src/journal/mod.rs:180-189 | for all pointers, also after wrapping, the next slot meets the head exactly when no slot is free, and otherwise taking it costs exactly one free slot |
| JournalGaps.SlotAccounting | rust_core/src/journal/mod.rs:120-189 | the slot balance of the commit and checkpoint steps that `Publish` and `Checkpoint` are proved to take: success exactly when 2n+1 slots are free, all free ones taken on failure, all free after a checkpoint |
| JournalGaps.AllOrNothingIff | rust_core/src/journal/mod.rs:143-150 | of the device events of the commit call alone: it succeeds or writes nothing exactly when all of it fits or not even one record does; what the moved tail does later is FailedCommitHarmlessIff |
| JournalGaps.FailedCommitHarmlessIff | rust_core/src/journal/mod.rs:143-150 | a refused commit leaves the next checkpoint with the log alone exactly when no slot was free, or one that does not read as a data header; that checkpoint never returns exactly when an odd slot left over reads as one; otherwise the records that fit go home too |
| JournalGaps.RefusedSweepsIff | rust_core/src/journal/mod.rs:143-150 | after a refused commit off slot 0 a checkpoint finds between the pointers in memory what is on the device exactly when no slot was free, or one that does not read as a data header |
| JournalGaps.OkCommitRecoveredIff | rust_core/src/journal/mod.rs:120-189 | a commit that returned Ok on a journal in order is recovered after an immediate power failure, with no later commit, exactly when it stayed off slot 0 or was lucky |
| JournalGaps.OkCommitSweptIff | rust_core/src/journal/mod.rs:120-189 | with no crash at all, the next checkpoint carries home the log and that transaction exactly when the commit stayed off slot 0, only its commit record fell there, or it was lucky |
| JournalGaps.WrappedCommitIsLost | rust_core/src/journal/mod.rs:180-189 | a machine on which commit returns Ok and recovery brings nothing back |
| JournalGaps.InterruptedCheckpointRecovers | rust_core/src/journal/mod.rs:306-368 | a run the atomicity theorem covers: commit, power failure after one home write of the checkpoint, recovery brings the whole transaction home |
| JournalGaps.FailedCommitLeaks | rust_core/src/journal/mod.rs:143-150 | a machine on which commit fails and the next checkpoint writes half of the transaction home |
| JournalGaps.FailedCommitJams | rust_core/src/journal/mod.rs:143-150 | a machine on which commit fails having written nothing and the next checkpoint never returns |
| JournalGaps.RefusedCommitLosesLog | rust_core/src/journal/mod.rs:180-189 | a machine on which a commit returns Ok and a later one, refused, overwrites the superblock, so that the journal cannot be opened any more |
| JournalLoss.InterruptedCommitRetainsIff | rust_core/src/journal/mod.rs:143-162 | after a crash in any commit, with any of its writes lost, the image still frames the log before it exactly when the superblock write survived, or no surviving record write hit slot 0, or the payload that hit it poses as a superblock; a header there never does |
| JournalLoss.FailedCommitRetainsIff | rust_core/src/journal/mod.rs:143-150 | a refused commit leaves the log readable exactly when what it printed stays off slot 0, or the payload there poses as a superblock |
| JournalLoss.RefusedCommitDestroysSuper | rust_core/src/journal/mod.rs:69-75 | whenever a refused commit puts a header onto slot 0 the image has no journal magic, so opening it is refused |
| JournalLoss.RetainedIsScanned | rust_core/src/journal/mod.rs:377-440 | from an image that frames a log the scan of recovery yields that log first, whatever comes behind it |
| JournalLoss.SurvivingSuperIff | rust_core/src/journal/mod.rs:143-160 | when a crash keeps the superblock write of a commit and loses any of its records, recovery yields the log and the transaction exactly when every lost block reads as the old content of its slot, or stale commit records and a stale header complete the transaction from behind the tail |
| JournalLoss.OvershootReadsDisk | rust_core/src/journal/mod.rs:395-440 | the scan that completes the transaction from behind the tail is a scan of the device as it was before the call, unless the last slot holds the commit record or reads as a data header |
| JournalLoss.OvershootHappens | rust_core/src/journal/mod.rs:143-160 | on any machine with such stale slots a legal loss of all three record blocks leaves an image that recovery takes for the whole transaction |
| JournalGaps.LostRecordsRecovered | rust_core/src/journal/mod.rs:143-160 | a machine with a transaction and a legal loss of every record block after which the scan yields the transaction |
| JournalGaps.ReorderedCommitTears | rust_core/src/journal/mod.rs:143-160 | a legal loss of one unsynced payload write after which recovery leaves neither old nor new data |
| JournalWrap.PayloadWrapHomeIff | rust_core/src/journal/mod.rs:304-344 | with a payload on slot 0 and no crash, the next checkpoint leaves the log and the transaction on the home blocks exactly when the block behind the journal holds that payload or a later write of the transaction names the same block |
| JournalWrap.WrappedCommitIsMangled | rust_core/src/journal/mod.rs:304-344 | a machine on which commit and checkpoint succeed, nothing crashes, and the block does not hold what was written |
| JournalWrap.LostRecordUnnoticed | rust_core/src/journal/mod.rs:304-344 | a machine on which the sweep misses a record and the home blocks are right all the same |
| JournalWrap.LapServes | rust_core/src/journal/mod.rs:108-375 | from pointers at slot 1, one-block transactions with a checkpoint after each are all carried home: without end when the number of slots is a multiple of three, otherwise up to (slots - 1) / 3 of them |
| JournalWrap.LapEnds | rust_core/src/journal/mod.rs:108-375 | the next one: with remainder two (2048 slots) its payload falls on slot 0 and it goes home exactly when the block behind the journal holds the same bytes; with remainder one its header does and nothing goes home unless the payload reads as a data header |
| Journal.Transaction.WriteBlock | rust_core/src/journal/types.rs:84-95 | appends the write exactly when the transaction is active and the data is one block, otherwise changes nothing; on every machine that holds the transaction this is the write step |
| Journal.Transaction.Abandon | rust_core/src/lib.rs:132-146 | the transaction is aborted whatever its state was |
| Journal.JournalManager.Open | rust_core/src/journal/mod.rs:46-106 | refuses a region under two blocks or an image without the magic, and otherwise loads the superblock, upgrading pointers (0, 0) to (1, 1) |
| Journal.JournalManager.Begin | rust_core/src/journal/mod.rs:108-118 | a new active, empty transaction under the next id, entered into the table: the machine's begin step |
| Journal.JournalManager.Abort | rust_core/src/journal/mod.rs:169-178 | the machine's abort step: only an active transaction is aborted and leaves the table |
| Journal.JournalManager.AllocateJournalBlock | rust_core/src/journal/mod.rs:180-189 | fails exactly when no slot is free, changing nothing; otherwise hands out the tail and leaves one slot fewer |
| Journal.JournalManager.PrintRecords | rust_core/src/journal/mod.rs:143-148 | the record loop prints, in order, as many whole records as fit and nothing else, succeeds exactly when all did, and on failure has used up every free slot |
| Journal.JournalManager.Publish | rust_core/src/journal/mod.rs:142-162 | records, commit record, superblock and barriers in that order exactly when 2n+1 slots are free; otherwise only the records that fit, no superblock, and the tail moved over every free slot |
| Journal.JournalManager.WriteJournalData | rust_core/src/journal/mod.rs:191-225 | header into the given slot, payload into the next one, in that order, or nothing when no slot is left |
| Journal.JournalManager.WriteCommitRecord | rust_core/src/journal/mod.rs:227-247 | one block write: the commit record into its slot |
| Journal.PrintPair | rust_core/src/journal/mod.rs:144-148 | a record is its header and then its payload in the two next slots |
| Journal.PrintCommit | rust_core/src/journal/mod.rs:150-151 | the last block of a transaction is the commit record with its id and number of blocks |
| Journal.JournalManager.SyncSuperblock | rust_core/src/journal/mod.rs:265-284 | the superblock block holds the in-memory pointers, followed by a barrier |
| Journal.JournalManager.Commit | rust_core/src/journal/mod.rs:120-167 | the machine's commit step, device events and their order included, for empty, fitting and overflowing transactions alike |
| Journal.JournalManager.ReadJournalBlock | rust_core/src/journal/mod.rs:460-489 | a slot's magic decides between data record (payload from the physically next block), commit record and unknown |
| Journal.JournalManager.Checkpoint | rust_core/src/journal/mod.rs:286-375 | the machine's checkpoint step, events included; every block written home has been dropped from the buffer cache; every slot is free |
| Journal.JournalManager.Recover | rust_core/src/journal/mod.rs:377-458 | the machine's recovery step, events included, and the number of transactions replayed |
| Journal.LogWalksHome | rust_core/src/journal/mod.rs:304-440 | over every log of commits that did not wrap both loops reach the tail and write only home blocks, so checkpoint and recover may be called |
| DevRefine.ReadRefines | src/block_dev.c:93-158 | a read returns what the flat disk holds there, changes no view, and leaves the block's buffer valid |
| DevRefine.WriteRefinesIff | src/block_dev.c:162-206 | a write changes the view of no other block and gives its own the new data exactly when it met no invalidated buffer, or the disk held that data already; also when the cache is full |
| DevRefine.StaleWriteIsDiscarded | src/block_dev.c:173-183 | what was written to an invalidated buffer is not what the next read returns: the disk is |
| DevRefine.LostWriteExample | src/block_dev.c:173-183 | read, home write, cached write, read: the cached write is lost |
| DevRefine.SyncRefinesIff | src/buffer_cache.c:309-347 | a sync leaves nothing dirty and changes no view exactly when every dirty invalidated buffer agrees with the disk |
| DevRefine.SyncMakesDiskView | src/block_dev.c:210-229 | on a coherent device the disk is afterwards equal to the view everywhere, and no view changed |
| DevRefine.EvictRefines | src/buffer_cache.c:133-167 | evicting changes no view and fails exactly when every buffer is held |
| DevRefine.HomeRefines | rust_core/src/journal/mod.rs:309-335 | a home write and the invalidation after it make the new data the view of that block and of no other |
| DevRefine.HomeAllFlat | rust_core/src/journal/mod.rs:306-344 | the home writes of a whole checkpoint, in order, applied to the flat disk clients see; only their targets become stale |
| DevRefine.RunRefines | src/block_dev.c:93-229 | over any run of reads, writes, syncs and home writes that never writes to an invalidated buffer, every read returns what one flat disk would |
| DevRefine.OpenedRepresents | src/block_dev.c:15-62 | a newly opened device stands for its disk |
| DevOrder.RunIsMruFirst | src/buffer_cache.c:220-292 | after every run the list orders the buffers by their last access, most recent first |
| DevOrder.VictimIsLeastRecent | src/buffer_cache.c:133-167 | after every run on a new device the victim is the unheld buffer whose last access is oldest |
| DevOrder.StepRefs | src/buffer_cache.c:220-303 | only a read that brings its block into the cache takes a reference, and nothing gives one back |
| DevOrder.ReadHoldsForGood | src/block_dev.c:93-150 | over every run a block that a read has brought in is never evicted |
| Buffers.LruList.Remove | src/buffer_cache.c:17-32 | pointer surgery takes one node out of a well-formed doubly linked list and leaves the others in order |
| Buffers.LruList.AddToHead | src/buffer_cache.c:34-46 | pointer surgery puts a node in front of a well-formed list |
| Buffers.LruList.MoveToHead | src/buffer_cache.c:48-55 | the node is in front, the others are in their old order |
| Buffers.HashTable.Lookup | src/buffer_cache.c:60-73 | the chain walk finds the member with this block number, or there is none |
| Buffers.HashTable.Insert | src/buffer_cache.c:75-80 | every chain stays well formed, in its own bucket, and the member set gains the node |
| Buffers.HashTable.Remove | src/buffer_cache.c:82-94 | every chain stays well formed and the member set loses exactly the node |
| Buffers.BufferCache.constructor | src/buffer_cache.c:171-200 | an empty cache with the shape invariant: list and chains hold the same buffers, block numbers unique, count within the maximum |
| Buffers.BufferCache.Lookup | src/buffer_cache.c:220-242 | null exactly on a miss; a hit is held once more and in front; the shape is kept |
| Buffers.BufferCache.Insert | src/buffer_cache.c:244-292 | refreshes the block's buffer, or adds one in front, or returns null exactly when it has none and the cache is full; the shape is kept |
| Buffers.BufferCache.Invalidate | src/buffer_cache.c:367-383 | the block's buffer, if any, is neither valid nor dirty, in its old place |
| Buffers.BufferCache.Sync | src/buffer_cache.c:309-347 | the walk from the head writes back every dirty buffer and leaves none dirty |
| Buffers.BufferCache.EvictLru | src/buffer_cache.c:133-167 | the walk from the tail finds the last buffer nobody holds, writes it back if dirty and removes it from list and chains |
| BlockDev.BlockDevice.Read | src/block_dev.c:93-158 | the value model's read over the pointer structures: returns the flat disk's block, changes no view, leaves the buffer valid |
| BlockDev.BlockDevice.Write | src/block_dev.c:162-206 | the value model's write: off an invalidated buffer the flat disk is updated at this block alone |
| BlockDev.BlockDevice.Sync | src/block_dev.c:210-229 | the value model's sync, with a barrier last: from a coherent state the disk holds every view |
| BlockDev.BlockDevice.Invalidate | src/block_dev.c:313-318 | the callback invalidates the one buffer |
| BlockTree.GraftPtr | src/inode.c:509-748 | hanging a block at one location changes the pointer there and at no other location of any level of any file |
| BlockTree.GraftInv | src/inode.c:509-748 | separation survives: pointers in use stay pairwise distinct, in the data area, allocated |
| BlockTree.GraftCounted | src/inode.c:509-748 | the block counter keeps counting exactly the file's data and index blocks |
| BlockTree.EnsureFacts | src/inode.c:521-540 | ensuring one pointer fails exactly when it is empty and the data area full, and then changes nothing; otherwise only that location gains a block |
| FileMap.EnsureAllFacts | src/inode.c:541-743 | allocating along a chain of pointers extends the map: no pointer in use moves, new ones name blocks that were free, only index blocks are written |
| FileMap.BmapKeeps | src/inode.c:509-748 | inode_bmap with allocation keeps separation and block count and remaps no other logical block; ENOSPC means the data area is full and every mapping is unchanged; EINVAL changes nothing |
| FileMap.BlockIdxExactIff | src/inode.c:518 | the 32-bit block index is the true one exactly below 16 TiB; beyond, offsets alias |
| BlockPlaces.LooksUp | src/inode.c:509-748 | without allocation: the twelve numbers in the inode, then the words of the block `indirect` names, then the words of the blocks that the words of `doubleIndirect`'s block name, 0 where a step is 0; past them an error |
| BlockPlaces.Allocates | src/inode.c:509-748 | an allocation stores the block where a lookup finds it and writes one field of the inode, its count, and one word of each index block on the way, with zeros around it in a new one |
| FileBytes.ReadLoopReads | src/inode.c:783-862 | reading any range returns the bytes of the file, holes as zeros, and fails exactly when the range leaves what the block map addresses |
| FileRead.ReadAnswers | src/inode.c:783-862 | every read, at any offset: nothing at or past the end, what there is up to it, byte for byte what the file holds; an error exactly when that reaches past the block map |
| FileRead.WriteAliases | src/inode.c:518 | from 16 TiB on a write does to blocks and bitmap what it does 16 TiB lower |
| FileBytes.WriteLoopWrote | src/inode.c:864-925 | the write loop has written exactly the bytes it counts, also when it stops early, and stops early only for a full data area or an offset past the block map |
| FileBytes.WroteBytes | src/inode.c:864-940 | byte by byte: the range holds the data, other bytes of every file are unchanged, except in newly mapped blocks, which show what the allocated block held |
| FileArray.WriteThenRead | src/inode.c:783-940 | after a successful write over any mix of mapping levels: size is max(old, end), every byte of every file is as stated, reading the range returns the data |
| FileArray.FailedWrite | src/inode.c:886-889 | a failed write leaves the size alone, has written a prefix and nothing else, and says why |
| FileAlloc.NthFreeIs | src/block_alloc.c:110-143 | the n-th block that first fit hands out is the free one that exactly n free ones come before |
| FileAlloc.WriteTakesDestined | src/inode.c:509-748 | whatever its outcome, a write gives every unmapped logical block it touches the free block with as many free ones before it as the pointers that had to be filled before its own |
| FileRoom.WriteSucceedsIff | src/inode.c:864-925 | a write succeeds exactly when its range ends within what the block map addresses and the empty pointers on the way to its blocks are no more than the free blocks; otherwise it places everything before the first block it has no room for and says which limit it met |
| FileRoom.PlacedIs | src/inode.c:864-925 | the number of bytes placed, known before the call: all, or up to the start of the first block that does not fit |
| FileArray.OutsideSurvivesIff | src/inode.c:529-536 | in terms of the state before the write alone: a byte outside of what it places survives exactly when its block is mapped already, or what it places leaves the block alone, or the free block first fit will give to it holds a zero there |
| FileArray.OutsideByMapping | src/inode.c:529-536 | the same in terms of the pointer the write has left |
| FileArray.ZeroedDiskKeepsHoles | src/inode.c:529-536 | on a disk whose free blocks are zero every byte outside the range survives, and the disk stays such |
| FileArray.StaleHoleExample | src/inode.c:529-536 | one byte written past a hole makes the hole show what the block held before |
| FileJournal.JournaledIsDirect | src/inode.c:905-923 | writing through a transaction gives the same status and count, and applying its writes gives the disk of the direct write |
| FileJournal.PendingInDataArea | src/inode.c:905-916 | every block a transaction names is an allocated block of the data area |
| PowerLoss.PowerLossIff | src/inode.c:905-940 | a device that held all of a file system, with the transaction of an acknowledged write home and nothing else written: it holds a separated file system, and the range reads back exactly when the write did not grow the file and gave no unmapped block anything but zeros |
| PowerLoss.AckedByteIsLost | src/inode.c:905-940 | one byte written into an empty file with status Ok, of which nothing is left |
| FileTruncate.ShrinkFrees | src/inode.c:750-779 | a shrinking truncate of any file releases exactly the blocks its loop asks for and moves no pointer |
| FileTruncate.GrowChangesSize | src/inode.c:755-759 | truncating to the same or a larger size changes the size alone: no block, pointer, byte or other inode |
| FileTruncate.SmallShrinkByOffset | src/inode.c:762-773 | up to 4 GiB a mapped block of the file is released exactly when it begins at or past the new end and before the old one |
| FileTruncate.SmallShrinkFrees | src/inode.c:762-773 | up to 4 GiB these are exactly the mapped data blocks from the new to the old block count |
| FileTruncate.SmallShrinkKeeps | src/inode.c:762-773 | up to 4 GiB lower data blocks, all index blocks and other files' blocks stay allocated |
| FileTruncate.SmallShrinkCounts | src/inode.c:766-773 | up to 4 GiB the block counter falls by the number of mapped blocks released, each counted once |
| FileTruncate.LoopCountsRound | src/inode.c:766-773 | a counter that was too low wraps round 64 bits |
| FileTruncate.ShrinkKeepsInvIff | src/inode.c:762-773 | for every size: separation survives a shrinking truncate exactly when no step of its loop, taken with the 32-bit byte offset, meets a mapped block |
| FileTruncate.KeptBlocksSafeIff | src/inode.c:766-773 | for every size: the kept blocks stay allocated exactly when no step of the loop lands on a mapped one after losing its high bits |
| FileTruncate.BigShrinkFreesKept | src/inode.c:768 | a file just over 4 GiB whose truncation to one block frees that block |
| FileTruncate.ShrinkKeepsLiveIff | src/inode.c:750-779 | for every size, on the first truncate and on later ones: the pointers below the files' ends, and those of index blocks, stay apart and allocated exactly when no step of the loop asks for a mapped block below the new end |
| FileTruncate.SmallShrinkKeepsLive | src/inode.c:762-773 | up to 4 GiB they always do, so one shrinking truncate may follow another |
| FileTruncate.StalePointerSharedIff | src/inode.c:766-773 | after a shrinking truncate the next block given to a direct pointer of any file is shared with a pointer left behind exactly when that pointer's block is now the lowest free one |
| FileTruncate.TruncateThenClobber | src/inode.c:766-773 | two files that name one block after a truncate of one and an allocation for the other |
| InodeIo.InodeLayer.Resolve | src/inode.c:521-540 | one pointer of the chain over cache, allocator and inode: looked up, or filled with the lowest free block |
| InodeIo.InodeLayer.Bmap | src/inode.c:509-748 | inode_bmap over the cached device and the bitmap, updating inode, index blocks and bitmap in place, is the value function proved separate above |
| InodeIo.InodeLayer.Read | src/inode.c:783-862 | inode_read over the cache: the bytes from the offset up to the end of the file or of the request, an error exactly when they reach past the block map; neither inode nor anything a client can see changes |
| InodeIo.InodeLayer.Write | src/inode.c:864-940 | inode_write, direct or journaled, leaves exactly the file system, transaction and result of the value function; a success, and any change of the inode, marks it dirty |
| InodeIo.InodeLayer.Truncate | src/inode.c:750-779 | inode_truncate leaves exactly the file system of the value function and marks the inode dirty |
| InodeTable.InodeRoundTrip | include/modernfs/types.h:74-96 | an inode record written and read back has lost nothing |
| InodeTable.EncodedCounts | include/modernfs/types.h:83-84 | size and block count lie at bytes 12 and 20 of the record |
| InodeTable.EncodedPointer | include/modernfs/types.h:91-93 | the fourteen block numbers lie at bytes 52 to 107 |
| InodeTable.EncodedAttrs | include/modernfs/types.h:75-95 | the other fields lie in bytes 0 to 11, 28 to 51 and 108 to 127 |
| InodeTable.PlaceIs | src/inode.c:462-464 | block and offset computed from a 32-bit product are those of the inode number's low 25 bits |
| InodeTable.PlacesDisjointIff | src/inode.c:462-464 | two inodes share a place exactly when these bits agree; otherwise their records do not overlap |
| InodeTable.MergeReads | src/inode.c:471-484 | merging a record into its 32-inode block makes it read back and leaves every other inode as it was |
| InodeCache.InodeCache.constructor | src/inode.c:141-196 | a pool of unused entries, listed once each, no inode loaded |
| InodeCache.InodeCache.Get | src/inode.c:340-437 | a loaded inode gains a reference, otherwise the least recently obtained unheld entry is reused, null exactly when all are held; the entry is in front and holds the inode's content; no client sees any content change; no other entry is touched |
| InodeCache.InodeCache.Put | src/inode.c:439-445 | one reference fewer, nothing else |
| InodeCache.InodeCache.Sync | src/inode.c:457-488 | a dirty entry is merged into its block of the table and clean; no client sees a change |
| InodeCache.InodeCache.SyncAll | src/inode.c:490-502 | the table on disk is afterwards what clients see, for every inode |
| Bits.SetBit | src/block_alloc.c:10-26 | setting or clearing one packed bit changes exactly that flag |
| Bits.ByteIsNumber | src/block_alloc.c:10-14 | each packed byte is the binary number whose digits are its eight flags, the lowest first |
| BlockAlloc.BlockAllocator.constructor | src/block_alloc.c:30-93 | the counter starts as the number of clear bits of the loaded bitmap |
| BlockAlloc.BlockAllocator.Alloc | src/block_alloc.c:110-143 | the lowest free block is taken, 0 exactly when there is none; the "inconsistent state" exit is unreachable |
| BlockAlloc.BlockAllocator.Free | src/block_alloc.c:145-175 | an allocated block of the area is released; anything else is refused and changes nothing |
| BlockAlloc.BlockAllocator.AllocMultiple | src/block_alloc.c:177-233 | the leftmost free run of the length is taken; failure exactly when none exists, changing nothing |
| BlockAlloc.BlockAllocator.FreeMultiple | src/block_alloc.c:235-276 | all of a run in use is released, or nothing |
| BlockAlloc.BlockAllocator.IsAllocated | src/block_alloc.c:280-296 | in the area and marked used |
| ExtentAlloc.ExtentAllocator.FindConsecutiveFree | rust_core/src/extent/mod.rs:280-320 | the first run of exactly the minimum length in circular order from the hint, none found exactly when none exists |
| ExtentAlloc.ExtentAllocator.AllocateExtent | rust_core/src/extent/mod.rs:98-127 | bad arguments are refused; a grant is exactly the minimum length, free before, disjoint from every live extent, the leftmost fitting at or behind the hint if there is one; refusal exactly when no circular run exists, panic exactly when the run found crosses the end; both counters stay the number of clear bits |
| ExtentAlloc.ExtentAllocator.FreeExtent | rust_core/src/extent/mod.rs:129-161 | freeing a live extent never fails and removes exactly it; success exactly for runs wholly in use; a failed call has released exactly the used blocks before the first free one without counting them |
| ExtentAlloc.CrossesEndIff | rust_core/src/extent/mod.rs:293-310 | the run the search settles on crosses the end exactly when no straight run starts at or behind the hint and a crossing one is there |
| ExtentAlloc.RingRunAtZero | rust_core/src/extent/mod.rs:293-310 | with hint 0 the search never crosses the end, so it succeeds exactly when a straight run exists |
| ExtentAlloc.CrossingExample | rust_core/src/extent/mod.rs:293-310 | a bitmap and hint on which it does cross |
| ExtentAlloc.LiveGrows | rust_core/src/extent/mod.rs:107-112 | marking a free run keeps live extents in use and pairwise disjoint, the new one included |
| ExtentAlloc.LiveShrinks | rust_core/src/extent/mod.rs:136-142 | releasing a run in use keeps the live extents it does not overlap |
| ExtentAlloc.ExtentAllocator.PackBitmap | rust_core/src/extent/mod.rs:248-278 | the packed bytes stand for exactly these flags, in the layout the C allocator reads |
| ExtentAlloc.ExtentAllocator.LoadBitmap | rust_core/src/extent/mod.rs:205-246 | the flags are those of the packed bytes, both counters the number of clear ones |
| Path.GetNextComponent | src/path.c:9-33 | the pointer walk delivers the first component of the rest of the path and moves behind it; false exactly when there is none |
| Path.JoinTokens | src/path.c:84-127 | printing a list of components, with or without a leading slash, and splitting it gives the list back |
| Path.LongNameSplits | src/path.c:9-33 | a name of more than 255 characters comes apart into pieces of 255 |
| Path.PlainFitIff | src/path.c:51-79 | components without dots are kept as they are, exactly up to 256 of them |
| Path.NormalIsStable | src/path.c:37-129 | splitting a normalised path gives the reduced components; normalising is idempotent and keeps absoluteness |
| Path.NormalForm | src/path.c:84-127 | a normalised path is not empty, has no double slash, ends in one only if it is the root, and is absolute exactly if the path was |
| Path.ReduceKeepsWalk | src/path.c:46-82 | the stack of components leads where the components read so far lead |
| Path.NormalResolves | src/path.c:133-204 | on a tree with right "." and ".." entries a path that resolves and its normalised form lead to the same inode, if absolute or never climbing above its start |
| Path.PrintedResolves | src/path.c:133-204 | a list of components behind a slash leads where they lead from the root, without it from the working directory |
| PathMeaning.KeepsMeaningIff | src/path.c:46-82 | normalising a relative path keeps where it leads, on every tree and from every directory, exactly when the path never climbs above its start |
| PathMeaning.ResolvesIff | src/path.c:46-82 | a path resolves exactly when its normalised form does and every stack of components on the way leads to a directory |
| Path.RelativeMayStray | src/path.c:67-71 | a tree on which ".." and its normalised form lead to different directories |
| Path.Normalize | src/path.c:37-129 | success exactly when there are at most 256 components and the result fits with its terminator; the buffer then holds both |
| Path.Resolve | src/path.c:133-204 | the loop over components is the walk of the tree |
| Layout.TilesIff | src/superblock.c:87-142 | superblock, journal, bitmaps, inode table and data area tile the device without gap, overlap or wrap-around exactly from 266 blocks on |
| Layout.CoverageIff | src/superblock.c:100-120 | the data bitmap leaves at most as many blocks uncovered as it shrank by between the passes, and at most 5, exactly up to 4294937090 blocks; beyond there is no data bitmap at all |
| Layout.OneBlockUncovered | src/superblock.c:100-120 | 34828 blocks leave exactly one block uncovered |
| Layout.SizesAre | src/superblock.c:87-115 | how many inodes, table blocks, journal blocks and bitmap blocks a device of each size gets, by inequalities |
| Layout.Superblock.Init | src/superblock.c:74-142 | the in-place two-pass computation with its running block number gives the planned layout, tiling from 266 blocks on, with the sizes `Sized` states |
| FuseWrite.CommitAlone | src/fuse_ops.c:461-468 | on a checkpointed journal a transaction off slot 0 commits and is the whole log |
| FuseWrite.AfterCheckpoint | rust_core/src/journal/mod.rs:306-368 | records written behind the cache, home writes and invalidations together: outside the journal clients see exactly the transaction applied |
| FuseWrite.JournaledReads | src/fuse_ops.c:437-475 | any state whose data area is that of the journaled write with its transaction applied gives the written bytes back |
| FuseWrite.Mount.CommitAndCheckpoint | src/fuse_ops.c:460-475 | commit and checkpoint as the cache sees them, for every transaction the sweep returns whole: the transaction applied outside the journal, or, when it does not fit, nothing |
| FuseWrite.Mount.SyncInode | src/inode.c:457-488 | the written inode's record is merged into the table if it is valid and dirty, and is then clean |
| FuseWrite.Mount.Attempt | src/fuse_ops.c:436-454 | begin and write: the inode, cache and transaction of the value function, at most 11 more cached blocks for each block of the range and nothing on the device unless that fills the cache; a failed one leaves its aborted transaction in the table |
| FuseWrite.Mount.Write | src/fuse_ops.c:413-488 | begin, write, sync inode, commit, checkpoint: the reply and the file system for every outcome, down to the inode's record in its block of the table and nothing else in front of the data area; after a success the range read back through the cache is the data and the journal is checkpointed, so the next write may follow if its records too leave slot 0 out |
| FuseWrite.Mount.WriteAndLosePower | src/fuse_ops.c:413-488 | from a device that holds everything, with room in the cache for the blocks the write reads: after an acknowledged write, a power failure and recovery the file system on the device is separated, and the range reads back exactly when the write did not grow the file and gave no new block anything but zeros |

## Left out

- Threads, locks, the timed checkpoint thread: calls are serial; two concurrent commits would interleave their records in the log.
- I/O errors, short reads, malloc failure, null arguments: device calls succeed.
- The FFI wrappers, fd ownership and struct packing: records are values with an explicit byte layout.
- `src/directory.c`: a directory is an abstract map from names to inodes; its fixed-size records over variable-length slots are not modelled.
- FUSE callbacks other than `modernfs_write`, `src/main_fuse.c`, the tools: plumbing around the modelled calls.
- `inode_alloc`, `inode_free` and the inode bitmap, `block_alloc_sync`, `path_dirname`, `path_basename`, superblock reading, validation and free counters, bitmap file offsets: nothing modelled here depends on them.
- Time stamps, owner, mode and link count: carried along unread in the inode's attributes; statistics other than free counts; `fragmentation_ratio`, a float for display.
- Journal checksums are computed and written, and, as in the code, never verified; there is no claim about corrupted records.
- JournalCrash.RunIsAtomic: asks of every commit, refused ones included, that what it prints leaves slot 0 out, of a fitting one that it names home blocks, and of a crash inside a fitting one that the superblock write does not survive without the records before it; after a refused commit it asks of a checkpoint or recovery that it finds what is on the device (for a checkpoint `RefusedSweepsIff` says when). What happens without the first condition is `OkCommitRecoveredIff` for an immediate power failure, `InterruptedCommitRetainsIff` and `FailedCommitRetainsIff` for the log before; without the last, `SurvivingSuperIff`.
- JournalCrash.CommitStep: the same conditions for one commit.
- JournalCrash.UnpublishedCommit: for records that leave slot 0 out; `InterruptedCommitRetainsIff` says when the log survives the others.
- JournalCrash.PublishedCommit: for commits that stay off slot 0; `OkCommitRecoveredIff` is exact for the others.
- JournalCrash.StepKeeps: under the conditions of RunIsAtomic.
- JournalCrash.RunKeeps: under the conditions of RunIsAtomic.
- JournalDurable.AtomicUnderLoss: for runs that meet the conditions of RunIsAtomic.
- JournalDurable.AckedUnderLoss: for the same runs.
- JournalTxn.WrittenIsRecovered: for commits that meet the conditions of RunIsAtomic.
- JournalCrash.AckedIsDurable: for the runs of RunIsAtomic; `RefusedCommitLosesLog` shows what a run outside them can do.
- Journal.JournalManager.Checkpoint: required that the sweep reaches the tail and writes no block of the ring, nor, if a header stands in the last slot, the block behind the ring that stands in for its payload; every journal whose commits never wrapped meets it (`LogWalksHome`). Otherwise the code may loop for ever or overwrite the journal it is reading.
- Journal.JournalManager.Recover: the same of the scan; as in the code the cache is not told of recovered blocks, which is sound only before anything is cached.
- Journal.JournalManager.Begin: transaction ids are unbounded numbers, cut to 64 bits where they are printed.
- DevRefine.RunRefines: requires that no write meets an invalidated buffer; `WriteRefinesIff` is the exact condition for one write.
- Buffers.BufferCache.constructor: at least one buffer; with none the code takes a remainder by zero.
- BlockDev.BlockDevice.Read: as in the code, the reference taken when a miss is cached is never given back, so such a buffer can never be evicted.
- InodeIo.InodeLayer.Write: requires that no free block, and for a direct write no block at all, sits in an invalidated buffer, where the write would be lost; errors of the device are left out.
- InodeIo.InodeLayer.Truncate: requires that every pointer names a block of the device. Separation (`Inv`) is one invariant of all files, and a truncate that released something ends it (`ShrinkKeepsInvIff`), so from then on nothing is claimed about writes to any file; `StalePointerSharedIff` shows what they can do, and `ShrinkKeepsLiveIff` what later truncates keep.
- InodeIo.InodeLayer.Resolve: allocating requires that no free block sits in an invalidated buffer.
- InodeIo.InodeLayer.Bmap: allocating requires that no free block sits in an invalidated buffer.
- FileArray.WriteThenRead: offset plus length up to 16 TiB, where the 32-bit block index is exact (`BlockIdxExactIff`; `WriteAliases` and `ReadAnswers` say what happens from there on); offsets and sizes do not wrap 64 bits.
- FileBytes.ReadLoopReads: up to 16 TiB, as WriteThenRead; `ReadAnswers` has no bound.
- FileBytes.WriteLoopWrote: up to 16 TiB, as WriteThenRead.
- FileArray.FailedWrite: up to 16 TiB, as WriteThenRead.
- FileArray.OutsideSurvivesIff: up to 16 TiB, as WriteThenRead.
- FileRoom.WriteSucceedsIff: up to 16 TiB, as WriteThenRead.
- FileAlloc.WriteTakesDestined: up to 16 TiB, as WriteThenRead.
- PowerLoss.PowerLossIff: up to 16 TiB, as WriteThenRead; from a device that held everything before the write.
- FuseWrite.Mount.WriteAndLosePower: the same, under the conditions of Write, and with room in the cache for 11 blocks for each block of the range and 2 more; when the cache is full, metadata is written through block by block and more of the write survives.
- FileTruncate.StalePointerSharedIff: for direct pointers.
- FuseWrite.JournaledReads: up to 16 TiB, as WriteThenRead.
- FileJournal.PendingInDataArea: up to 16 TiB, as WriteThenRead.
- FileTruncate.LoopCountsRound: the loop within 4 GiB.
- FileTruncate.ShrinkFrees: `size + 4095` is taken not to wrap 64 bits.
- FileJournal.JournaledIsDirect: up to 16 TiB, as WriteThenRead; the journaled write reads partial blocks from the device, not from the transaction, so one transaction per write call is what is compared, as `modernfs_write` uses it.
- InodeCache.InodeCache.Get: inode numbers within the table and below 2^25, where the byte offset does not wrap; the list and the hash chains of the pool are a sequence and a map here, their pointer surgery is the one shown for the buffer cache.
- InodeCache.InodeCache.Put: required that the caller holds a reference; the code would count below zero.
- InodeCache.InodeCache.Sync: sizes and block counts fit their 64-bit fields.
- BlockAlloc.BlockAllocator.FreeMultiple: start plus count fits 32 bits; the code's sum would wrap.
- ExtentAlloc.ExtentAllocator.FreeExtent: start plus length fits 32 bits.
- ExtentAlloc.ExtentAllocator.AllocateExtent: at least one block is managed, since the hint is taken modulo their number; after the panic the allocator is unusable (the lock is poisoned) and nothing more is claimed.
- Path.Resolve: symbolic links are not followed (following has no depth bound in the code), and an inode that cannot be loaded is not modelled; the directory check is the map's domain.
- PathMeaning.ResolvesIff: for absolute paths, paths from the root and paths that never climb above their start; `KeepsMeaningIff` says what becomes of the others.
- Layout.Superblock.Init: free counters, times, label and UUID are not modelled.
- FuseWrite.Mount.Write: starts with a valid inode in hand and a mounted, writable journal that is checkpointed (every successful write leaves it so); `inode_get`, `inode_put`, the read-only check and the mount without a journal are not composed in. The records of a transaction that fits must leave slot 0 out (its commit record may fall there); the lucky wrap is admitted in CommitAndCheckpoint only.
- JournalLoss.SurvivingSuperIff: for commits that stay off slot 0; its second alternative is stated on the image the crash leaves, which the state before the call and the surviving writes determine.
- JournalWrap.PayloadWrapHomeIff: no write may name the block behind the journal, which stands in for the payload while the sweep runs.
- JournalCrash.RefusedStep: for refused commits off slot 0; `FailedCommitRetainsIff` is exact for the others.
- JournalCrash.CheckpointStep: under the conditions of RunIsAtomic.
