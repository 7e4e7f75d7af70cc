# Verified models of the kernel's storage, memory and concurrency code

This project models, in Dafny, the parts of the xv6-based teaching kernel and its user programs
whose correctness is hardest to see, and proves what they promise for all inputs, all
interleavings and all crash points. Code that works in place is modelled as classes and loops
that are proved against specifications; protocols are state machines over their atomic steps.
`dafny verify dfyconfig.toml` checks all of it.

| files | what they model |
|---|---|
| RedoLog, LogCode, LogSystem | the redo log of kernel/log.c: crash atomicity of commit and recovery, the code, and the group-commit protocol with crashes |
| Bio, BufferList | the LRU buffer cache of kernel/bio.c over a flat store |
| FsLayout, FsImage, FsBlocks, FsLogged, FsTransfer, FileSystem, FileWrite, MkfsImage, Mkfs | block allocation, the block map, truncation, reading and writing of kernel/fs.c, what it costs in blocks and in the log, filewrite() of kernel/file.c, and the image mkfs builds |
| Csemaphore, SleepLock | the counting semaphore over binary semaphores, and sleep locks over sleep/wakeup |
| FreeList, Umalloc | the circular free list of user/umalloc.c |
| PageTable, TableCost, AddressSpace, FreeTables, UserBytes, Vm, Processes | Sv39 page tables, the page allocator, user address spaces, and the processes and threads that own them |
| ShellSyntax, ShellText, Shell | the command language of user/sh.c and its parser |
| Grep | the regular-expression matcher and the line reader of user/grep.c |
| Virtio | virtqueue descriptors and rings of kernel/virtio_disk.c |
| Pipe, Console | byte rings with wrapping 32-bit indices |
| Signals | signal masks and handlers of kernel/proc.c, exec.c and trap.c |

In a class, `Valid()` is the invariant that every method requires and ensures; where a row speaks
of what holds in every run, that invariant says so and the methods are the steps of the run. A
result such as `ok`, `Failed`, `Panic` or 0 stands for the source's error return or panic.

Where the code does not do what one would expect, the model follows the code and says when it does:
the log panics too early for the log size mkfs chooses (`SmallLogPanics`), its size check precedes
absorption (`FullLogRejectsAbsorption`), a negative initial value makes a counting semaphore useless
(`NegativeInitialDoesNotBlock`), holdingsleep() answers for the process (`SiblingPassesHoldingSleep`),
sbrk's argument overflows for large requests (`LargestRequest`), fork() with four free pages leaves its
child behind (`ForkWithFourPagesLeft`), an operation's share of the log is too small for disks of more
than 32768 blocks (`ShareTooSmall`; mkfs makes 1000), reading a hole loses a block on disk and mkfs can make one
(`ReadHole`, `RootReadLosesBlock`), stop signals can change the signal mask
(`MaskLostByStopThenContinue`, `MaskLostByHandler`), and sigaction() keeps p->lock when it rejects a
mask (`Sigaction`).

## Model

| member | source | states |
|---|---|---|
| `RedoLog.CrashAtomicity` | kernel/log.c:69-203 | Cut commit() after any prefix of its block writes, then cut any number of recoveries anywhere: the recovery that completes leaves an empty log, and every home block has its new contents exactly if the commit's header write had reached the disk and the block was logged, its old contents otherwise |
| `RedoLog.InterruptedCommit` | kernel/log.c:194-203 | After k of commit()'s writes the log is well formed and the logical contents are the old ones up to the header write and the new ones from it on; after the last write the log is empty |
| `RedoLog.InterruptedRecovery` | kernel/log.c:117-123 | A recovery stopped after any number of its writes leaves a well-formed log with the same logical contents, and an empty log if it was not stopped |
| `RedoLog.CrashAndRecoverKeepsView` | kernel/log.c:117-123 | Any number of interrupted recoveries followed by one that completes keep the logical contents of every block |
| `RedoLog.RecoveryIsIdempotent` | kernel/log.c:117-123 | Recovering a recovered disk changes no block |
| `RedoLog.HeadCommits` | kernel/log.c:103-114 | Writing the header is the commit point: it switches the logical contents from the old blocks to the logged ones |
| `RedoLog.PartialInstall` | kernel/log.c:69-83 | Any prefix of install_trans() leaves log and logical contents as they were |
| `RedoLog.PartialLog` | kernel/log.c:179-191 | Any prefix of write_log() changes no logical contents and leaves the log empty |
| `LogCode.Log.WriteHead` | kernel/log.c:103-114 | Writes one block: n, the n logged block numbers and the stale words behind them |
| `LogCode.Log.ReadHead` | kernel/log.c:87-97 | Loads exactly the block numbers the header on disk lists |
| `LogCode.Log.WriteLog` | kernel/log.c:179-191 | Its writes are the cached contents of the logged blocks, into log slots in order |
| `LogCode.Log.InstallTrans` | kernel/log.c:69-83 | Its writes are the log slots, to their home blocks in order; outside recovery it unpins exactly those blocks |
| `LogCode.Log.RecoverFromLog` | kernel/log.c:117-123 | Leaves the disk of a completed recovery, an empty log, and exactly the writes of RecoverWrites |
| `LogCode.Log.Commit` | kernel/log.c:194-203 | Makes exactly the writes whose every prefix CrashAtomicity covers, and ends with an empty log |
| `LogCode.Log.BeginOp` | kernel/log.c:127-142 | Admits an operation exactly if no commit is running and MAXOPBLOCKS blocks for it and for each outstanding operation still fit |
| `LogCode.Log.LogWrite` | kernel/log.c:215-235 | Panics in the two stated cases and changes nothing then; otherwise pins the block and adds its number unless it is already logged |
| `LogCode.Log.EndOp` | kernel/log.c:147-175 | The last operation to end makes exactly the writes of commit() and leaves an empty log with committing cleared; any other leaves disk, log and cache alone; the log.committing panic is reported exactly when a commit is running |
| `LogSystem.CrashesKeepWholeOperations` | kernel/log.c:127-235 | In every run of any number of interleaved operations with crashes anywhere, a completed recovery shows exactly the stable log_writes, and no operation is only partly among them |
| `LogSystem.QuiescentMeansDurable` | kernel/log.c:147-175 | While running, the cache shows every log_write so far; with no operation outstanding all of them survive any crash |
| `LogSystem.GroupCommit` | kernel/log.c:127-175 | In every interleaving a commit runs only with no operation outstanding, so the log.committing panic is unreachable; logged numbers are distinct and fit the log; lh.n plus the unspent shares of outstanding operations is at most LOGSIZE |
| `LogSystem.PanicsExactlyWhenFull` | kernel/log.c:215-235 | With log.size > LOGSIZE, log_write() of an outstanding operation panics exactly when LOGSIZE blocks are logged, and never while that operation has part of its share left |
| `LogSystem.SmallLogPanics` | kernel/log.c:220-221 | For every log.size <= LOGSIZE (mkfs/mkfs.c:25 makes it LOGSIZE) some run leads an operation within its share to the panic |
| `LogSystem.FullLogRejectsAbsorption` | kernel/log.c:220-232 | The size check comes before absorption: some run makes rewriting an already logged block panic, however large the log |
| `LogSystem.NextKeeps` | kernel/log.c:127-235 | Every step (begin, log_write, end, one block write of a commit or a recovery, crash, boot) keeps the invariant behind the results above |
| `Csemaphore.CountingSemaphore` | user/Csemaphore.c:17-60 | For any number of threads, any initial value >= 0 and any interleaving: value is initial plus ups minus downs and never negative, at most one thread has S2 and S2 is not free then, at most one is inside S1 |
| `Csemaphore.RefinesAtomicCounter` | user/Csemaphore.c:17-44 | Every step of every interleaving is a step of an atomic counting semaphore or is invisible |
| `Csemaphore.StuckMeansZero` | user/Csemaphore.c:17-44 | When no thread can move, nobody waits for S1, and somebody waits for S2 only if value is 0 |
| `Csemaphore.AllocInv` | user/Csemaphore.c:46-60 | csem_alloc() establishes the invariant exactly for initial values that are not negative |
| `Csemaphore.NegativeInitialDoesNotBlock` | user/Csemaphore.c:46-60 | For every negative initial value a csem_down() runs to its end without waiting |
| `Csemaphore.StepKeeps` | kernel/proc.c:1252-1294 | Every step over hand-off binary semaphores keeps the invariant: one holder for each taken semaphore, waiters only where they should be |
| `Csemaphore.Bsemaphore.Down` | kernel/proc.c:1252-1270 | Takes a free semaphore, or queues the caller and leaves the semaphore taken |
| `Csemaphore.Bsemaphore.Up` | kernel/proc.c:1277-1294 | Hands a taken semaphore to the first waiting thread, or frees it if none waits |
| `SleepLock.AtMostOneHolder` | kernel/sleeplock.c:22-41 | For any number of threads and processes and any interleaving at most one thread has the sleep lock, and locked says whether one has |
| `SleepLock.NoLostWakeup` | kernel/proc.c:931-982 | Whenever the inner spinlock is free and the lock is not held, no thread sleeps on it or is about to |
| `SleepLock.HoldingSleepIsPerProcess` | kernel/sleeplock.c:43-54 | holdingsleep() is true for a thread exactly if some thread of its process has the lock |
| `SleepLock.SiblingPassesHoldingSleep` | kernel/sleeplock.c:43-54 | A run in which a thread that never took the lock passes the check |
| `FileSystem.FileSystem.Writei` | kernel/fs.c:487-517 | A write at off <= size gives old[..off] + data + the rest of old, for the bytes that could be copied in; no other file changes; ownership and bitmap stay right; the inode goes back to disk, so the disk goes on accounting for every block; -1 and no change exactly in the rejected cases; balloc's panic exactly if fewer blocks are free than the write is missing, the indirect block included; what it logs is exactly the blocks written or added, the indirect block if an entry was added, the bitmap blocks of the added ones and the inode's block, at most MAXOPBLOCKS for up to three blocks' worth of bytes if the first block is there or whole, or if four bitmap blocks cover the disk |
| `FileSystem.FileSystem.Readi` | kernel/fs.c:456-477 | Returns exactly the requested slice of the file clipped to its size, or the source's error results, and changes no byte of any file; balloc's panic exactly if fewer blocks are free than the range is missing; if every block is there nothing changes; the inodes on disk go on accounting for every block exactly if the read meets no empty pointer in the inode |
| `FileSystem.WriteThenRead` | kernel/fs.c:456-517 | What writei() wrote, readi() returns, across direct and indirect blocks; it fails exactly if the disk has not enough free blocks for the write; rejected writes change nothing |
| `FileSystem.FileSystem.Bmap` | kernel/fs.c:378-405 | The block of the file at that place, allocated if missing; no byte of any file changes and no block changes hands; the inode changes exactly if its own pointer on the way was empty; the panic exactly if the place is beyond MAXFILE or the missing blocks are not free |
| `FileSystem.FileSystem.Balloc` | kernel/fs.c:65-86 | The lowest clear bit, outside the metadata, of a block nobody owns, now set and zeroed; fails exactly if the disk is full |
| `FileSystem.FileSystem.Bfree` | kernel/fs.c:90-103 | Clears exactly that bit; reports the panic exactly if it was clear |
| `FileSystem.FileSystem.Itrunc` | kernel/fs.c:410-437 | The file is empty in memory and on disk, exactly its blocks are free again, no bfree() in it panics, every other file keeps its bytes, and the disk goes on accounting for every block |
| `FileSystem.FileSystem.FreeOne` | kernel/fs.c:414-426 | "freeing free block" is unreachable: the bit of a block still held by the file is set |
| `FileSystem.FileSystem.Iupdate` | kernel/fs.c:222-237 | The file as read from the disk is the file as read from memory; the inodes on disk account for every allocated block exactly if no other inode is behind |
| `FsImage.OwnedIff` | kernel/fs.c:222-237 | The inodes on disk account for every allocated block exactly if they hold the pointers that memory holds |
| `FsImage.LostBlock` | kernel/fs.c:378-405 | A pointer filled in since the inode was written back leads to an allocated block that no inode on disk holds |
| `FsImage.WriteChangesOneBlock` | kernel/fs.c:487-517 | Storing into an owned data block changes the bytes of its owner's one block-sized stretch and of nothing else |
| `FsImage.FillKeepsOwned` | kernel/fs.c:378-405 | Putting a fresh block into an empty slot keeps every block owned by exactly one slot |
| `FsImage.FillKeepsBytes` | kernel/fs.c:378-405 | ... and changes no byte of any file |
| `FsImage.TruncateKeepsOwned` | kernel/fs.c:410-437 | Dropping a file's slots leaves the other slots' ownership exact |
| `FsImage.WrittenAllFiles` | kernel/fs.c:487-517 | A stretch of stored bytes and a new size give the spliced file and leave the others alone |
| `FsBlocks.MappedCount` | kernel/fs.c:378-405 | Mapping a range of blocks takes exactly the blocks missing in it, the indirect block included |
| `FsBlocks.FullCount` | kernel/fs.c:65-86 | Every bit of the bitmap is set exactly if as many blocks are owned as there are data blocks |
| `FsLogged.ShareSuffices` | kernel/file.c:148-155 | Writing at most four blocks logs at most MAXOPBLOCKS blocks, the inode's included, if the first block is there, if there are only three, or if four bitmap blocks cover the disk |
| `FsTransfer.ReadChunk` | kernel/fs.c:456-477 | One round of the reading loop extends what has been read of the file by the next chunk of it |
| `FsTransfer.WriteChunk` | kernel/fs.c:487-517 | One round of the writing loop extends what has been written by the next chunk, and what has been logged by exactly its blocks |
| `FileWrite.Filewrite` | kernel/file.c:148-175 | Cutting a write into operations is invisible in the file: the bytes that arrive are spliced in at the offset, which moves by as many; n is reported exactly if all of them could be copied in below the size limit at an offset within the file, and -1 otherwise; every operation logs at most MAXOPBLOCKS blocks, under the same condition on the first one alone |
| `FileWrite.AllArrives` | kernel/file.c:157-175 | Everything arrives exactly if it can be copied in and the file does not get too long |
| `FileWrite.ShareTooSmall` | kernel/file.c:148-155 | For every disk that needs more than four bitmap blocks there is an image on which one operation logs eleven blocks |
| `FsLayout.BitAfterSet` | kernel/fs.c:70-78 | Setting one bit of the bitmap sets that bit and changes no other |
| `FsLayout.BitAfterClear` | kernel/fs.c:94-102 | Clearing one bit clears that bit and changes no other |
| `FsLayout.WordAfterSet` | kernel/fs.c:391-401 | Storing one little-endian word of an indirect block stores that word and changes no other |
| `Mkfs.Builder.constructor` | mkfs/mkfs.c:94-125 | The empty image satisfies the ownership invariant, and every inode is free |
| `Mkfs.Builder.Ialloc` | mkfs/mkfs.c:232-243 | The next inode number, whose file is empty, in any state that mkfs reaches; nothing else changes |
| `Mkfs.Builder.Iappend` | mkfs/mkfs.c:264-305 | The file grows by exactly the bytes given, no other file changes, every file has exactly the blocks of its bytes, and exactly the blocks it lacked are taken; it fails exactly past MAXFILE or if the image has not as many left |
| `Mkfs.Builder.FixRootSize` | mkfs/mkfs.c:166-171 | The root directory gets zeroes up to the next multiple of the block size, every other file keeps its contents, and the block after a whole number of blocks is missing |
| `Mkfs.Builder.Balloc` | mkfs/mkfs.c:246-259 | Exactly the first `used` bits of the bitmap block are set |
| `Mkfs.Builder.Finish` | mkfs/mkfs.c:94-173 | The finished image satisfies the kernel's invariant: a bit is set exactly if its block is metadata or held by exactly one slot |
| `Mkfs.Builder.AddFile` | mkfs/mkfs.c:131-163 | The file gets the next inode and holds what the argument holds; the root directory gets an entry with its number and its shortened name; no other file changes; it fails exactly if the name is not admissible, the file is too long or the image has not the blocks for both |
| `Mkfs.Builder.AddFiles` | mkfs/mkfs.c:131-163 | All files in order, exactly if the whole list is admissible and fits the image |
| `Mkfs.Build` | mkfs/mkfs.c:68-176 | For any list of files: the image satisfies the kernel's invariant in memory and on disk, every file holds its argument's bytes, the root directory lists them and is padded with zeroes, and its last block is missing exactly if the entries filled whole blocks; it succeeds exactly if names and sizes are admissible and the blocks of all files and of the directory fit the image, and takes exactly those |
| `Mkfs.ReadHole` | kernel/fs.c:456-477 | Reading a byte of a missing direct block, with room on the disk, leaves a bit set in the bitmap for a block that no inode on disk holds |
| `Mkfs.RootReadLosesBlock` | mkfs/mkfs.c:166-171 | ... which happens to the root directory that mkfs builds from 62 files |
| `Umalloc.Allocator.Free` | user/umalloc.c:25-44 | Removes the block from the live ones and keeps the ring: circular, in address order with one wrap, holding base, free blocks disjoint and never adjacent, clear of every live block; units are conserved |
| `Umalloc.Allocator.FindPredecessor` | user/umalloc.c:30-32 | The search loop ends, at the free block after which bp belongs |
| `Umalloc.Allocator.FreeBlock` | user/umalloc.c:33-43 | Inserts and merges with both neighbours where they touch |
| `Umalloc.Allocator.Morecore` | user/umalloc.c:47-61 | Grows the free list by max(nu, 4096) units, or changes nothing; the 32-bit argument of sbrk overflows exactly from 2^27 units on |
| `Umalloc.Allocator.Malloc` | user/umalloc.c:64-90 | Ends, grows the heap at most once, and returns a block of exactly the needed units clear of all others; it asks sbrk exactly if no free block is large enough, and then fails exactly if sbrk refuses or its argument overflows; total units change by what sbrk adds |
| `Umalloc.Allocator.Scan` | user/umalloc.c:74-88 | First fit: the first block after freep that is large enough, or no block of the ring is |
| `Umalloc.RoomForRequest` | user/umalloc.c:69-69 | The block handed out has room for the bytes asked for, and one unit less would not |
| `Umalloc.SbrkArgumentExact` | user/umalloc.c:55-55 | The conversion to int keeps the size exactly below 2^27 units |
| `Umalloc.LargestRequest` | user/umalloc.c:47-69 | ... that is for requests of at most 2^31 - 32 bytes; one more byte asks sbrk to shrink by 2^31 |
| `FreeList.FreedOk` | user/umalloc.c:33-43 | Inserting a clear block with merging keeps the ring well formed and adds exactly its units |
| `FreeList.FreedLinked` | user/umalloc.c:33-43 | The pointer updates spell out the new ring |
| `FreeList.FreedKeepsClear` | user/umalloc.c:33-43 | Freeing one block leaves every other live block clear of the ring |
| `FreeList.InsertionPoint` | user/umalloc.c:30-32 | There is always a block after which a freed block belongs |
| `FreeList.TakenOk` | user/umalloc.c:76-84 | Cutting units off a block keeps the ring well formed, removes exactly those units, and they are clear of the rest |
| `FreeList.TakenLinked` | user/umalloc.c:76-84 | The pointer updates of both branches spell out the new ring |
| `Bio.Bcache.Binit` | kernel/bio.c:37-53 | Both directions of the list visit each of the NBUF buffers exactly once |
| `Bio.Bcache.Bget` | kernel/bio.c:59-88 | The cached buffer, or else the least recently released unreferenced one; a referenced buffer is never recycled; no two buffers share a block of a device other than 0; the panic happens exactly if the block is not cached and all are referenced |
| `Bio.Bcache.FindCached` | kernel/bio.c:66-73 | Finds the buffer of the block, or shows that there is none |
| `Bio.Bcache.FindVictim` | kernel/bio.c:77-86 | The unreferenced buffer released longest ago, or none if all are referenced |
| `Bio.Bcache.Fill` | kernel/bio.c:93-103 | bread() returns the last contents stored for the block |
| `Bio.Bcache.AcquireSleep` | kernel/bio.c:70-83 | The lock of a buffer one has a reference to, nothing else |
| `Bio.Bcache.Modify` | kernel/bio.c:7-16 | Changing the data of a buffer one holds is what later reads of the block see, and touches no other buffer |
| `Bio.Bcache.Bwrite` | kernel/bio.c:107-112 | Writes exactly this block and keeps cache and disk in agreement |
| `Bio.Bcache.ReleaseSleep` | kernel/bio.c:117-123 | Releasing a buffer that was written or pinned after its changes keeps cache and disk in agreement |
| `Bio.Bcache.Put` | kernel/bio.c:124-137 | The last reference moves the buffer to the front of the list; the list keeps every buffer once in both directions |
| `Bio.Bcache.Bpin` | kernel/bio.c:139-144 | One more reference, nothing else |
| `Bio.Bcache.Bunpin` | kernel/bio.c:146-151 | One reference less for a buffer that is written, still pinned or locked |
| `BufferList.InsertOk` | kernel/bio.c:46-51 | Linking a buffer in behind the head puts it first, in both directions |
| `BufferList.UnlinkOk` | kernel/bio.c:127-128 | Unlinking removes exactly that buffer, in both directions |
| `Bio.RecycleKeeps` | kernel/bio.c:77-86 | Giving an unreferenced buffer to a block that is not cached loses no stored contents |
| `Bio.MoveLru` | kernel/bio.c:126-134 | Moving to the front keeps the list sorted by release time |
| `PageTable.SlotsDistinct` | kernel/vm.c:82-100 | Different pages, or the same page of different spaces, have different leaf slots |
| `PageTable.SetLeaf` | kernel/vm.c:152-154 | Changing one leaf entry changes the translation of exactly that page |
| `PageTable.AddTable` | kernel/vm.c:90-97 | A new table page changes no translation of any space and keeps all trees well formed |
| `PageTable.DropNode` | kernel/vm.c:275-290 | Taking an empty table down changes no translation and keeps the other trees well formed |
| `PageTable.PathSteps` | kernel/vm.c:88-99 | The indices PX(2), PX(1), PX(0) of an address below MAXVA lead from the root to its leaf table |
| `Vm.Memory.Walk` | kernel/vm.c:82-100 | The table holding the leaf entry; translations never change; without alloc nothing changes and failure means there is none; with alloc it takes exactly the tables missing on the way and fails exactly if there are fewer free pages |
| `Vm.Memory.Mappages` | kernel/vm.c:141-162 | Maps the requested pages, in order, until done, out of memory, a remap or MAXVA, and changes no other translation of any space; with size 0 at an aligned address it is never done |
| `Vm.Memory.Uvmunmap` | kernel/vm.c:169-190 | Unmaps exactly the requested pages and frees exactly their data pages; panics exactly if the address is not aligned or a page is not mapped |
| `Vm.Memory.Uvmalloc` | kernel/vm.c:227-252 | All pages up to newsz, zeroed and the user's, or no page: it succeeds exactly if there are free pages for them and for the page tables still missing on the way, and takes exactly those; on failure every translation is restored and every data page it took is back; no panic is reachable |
| `Vm.Memory.Uvmdealloc` | kernel/vm.c:259-270 | Frees exactly the pages above newsz, without a panic |
| `Vm.Memory.Uvmcopy` | kernel/vm.c:309-338 | An exact copy with the same permissions, or nothing: it succeeds exactly if there are free pages for the copies and the page tables still missing, and takes exactly those; on failure every translation is restored and every data page it took is back |
| `TableCost.OneMore` | kernel/vm.c:82-100 | Mapping one page more of a range costs that page and the tables missing by then |
| `TableCost.CannotPay` | kernel/vm.c:227-252 | If the free pages do not cover the next page of a range, they did not cover the range |
| `TableCost.BareCost` | kernel/vm.c:309-338 | In a space with nothing but its fixed pages, n pages cost themselves, a leaf table for every 512 and a middle table for every 512 * 512 |
| `Vm.Memory.EntryOf` | kernel/vm.c:317-322 | uvmcopy()'s two panics are unreachable: every page below the size is mapped, to a data page of its own |
| `Vm.Memory.Freewalk` | kernel/vm.c:275-290 | Panics exactly if a leaf is left below; otherwise frees the table and everything below it, each page once, and nothing else |
| `Vm.Memory.Uvmfree` | kernel/vm.c:295-300 | Every data and table page of the space goes back, and no page of another space |
| `Vm.Memory.Uvmcreate` | kernel/vm.c:195-203 | An empty space, or nothing taken |
| `Vm.Memory.Walkaddr` | kernel/vm.c:105-122 | The page exactly if it is mapped, for users, below MAXVA |
| `Vm.Memory.Kalloc` | kernel/kalloc.c:69-82 | A page that was free and is now in use, or 0 exactly if none was |
| `Vm.Memory.Kfree` | kernel/kalloc.c:47-65 | The page is on the free list, once, and no longer in use |
| `Vm.Memory.constructor` | kernel/kalloc.c:27-40 | Exactly the whole pages between end and PHYSTOP are free, each once |
| `Vm.Memory.ProcPagetable` | kernel/proc.c:502-530 | An empty space with its two fixed pages, closed to users, for exactly three pages, or every page taken is given back; succeeds exactly if three pages are free, and its second failure path is never taken |
| `Vm.Memory.ProcFreepagetable` | kernel/proc.c:535-540 | No panic, and every data and table page of the space is free again |
| `Vm.Memory.Growproc` | kernel/proc.c:586-604 | The size changes by n if the 32-bit sum neither wraps nor goes below 0 and stays otherwise; growing succeeds exactly if there are free pages for the new pages and the tables still missing; a failed growth restores all translations |
| `Vm.Memory.BelowTrapframe` | kernel/vm.c:227-252 | A user space never reaches the fixed pages, because memory runs out first |
| `Processes.System.AllFree` | kernel/proc.c:291-330 | After any run of allocating and freeing processes and threads, growing, shrinking and forking, once no process is left every page of the pool is on the free list exactly once |
| `Processes.System.Alloc` | kernel/proc.c:196-255 | A new process for exactly four pages, or no page taken; succeeds exactly if a place in the table and four pages are free; no byte of any process changes |
| `Processes.System.AllocThread` | kernel/proc.c:141-189 | A thread in the first slot without a live one, with one page for the first slot and two for another, or nothing taken; succeeds exactly if there is a slot and a dead thread or the pages are there |
| `Processes.System.FreeThread` | kernel/proc.c:261-283 | Exactly the thread's pages go back, and the slot is unused |
| `Processes.System.ExitThread` | kernel/proc.c:413-418 | A thread that is not the last becomes a zombie and keeps its pages |
| `Processes.System.JoinThread` | kernel/proc.c:447-454 | Joining it gives exactly those pages back and frees the slot; no byte of another process changes |
| `Processes.System.Grow` | kernel/proc.c:586-604 | Growing succeeds exactly if there are free pages for the new pages and the tables still missing; then the old bytes are kept, the new pages read as zeroes and nothing beyond the size can be reached; a failed growth changes no byte of any process; every page stays accounted for, and no byte of another process changes |
| `Processes.GrowBytes` | kernel/proc.c:586-604 | After growing or shrinking: the old bytes, then zeroes, and nothing beyond the size |
| `Processes.System.Fork` | kernel/proc.c:609-634 | The child's memory is an exact copy of the parent's; it succeeds exactly if a place in the table is free and as many pages as the child needs: five, a copy of each page, and its page tables; a failed fork() leaves processes and pages as they were exactly if it was not called with four free pages and a free place in the table; no byte of any process that was there changes |
| `Processes.ForkWithFourPagesLeft` | kernel/proc.c:619-625 | A machine on which fork() fails and its child stays, with every page taken |
| `Processes.System.Free` | kernel/proc.c:291-310 | freeproc() gives every page of the process and its threads back without a panic and changes no byte of another process |
| `Processes.StepIsolates` | kernel/proc.c:502-530 | A step that touches only pages and translations of one process, as every operation does, changes no byte that another process can reach |
| `Processes.NothingLost` | kernel/proc.c:196-330 | If a process appears and goes, exactly the pages in use before are in use afterwards, for the same purposes |
| `Processes.System.Copyout` | kernel/vm.c:357-378 | The bytes arrive at their addresses across page boundaries up to the first page out of reach; no other byte of this process and no byte of any other process changes |
| `Processes.System.Copyin` | kernel/vm.c:382-403 | The bytes at these addresses, up to the first page out of reach; nothing changes |
| `Processes.System.CopyoutThenCopyin` | kernel/vm.c:357-403 | What copyout() wrote, copyin() reads back; both succeed exactly if every page touched can be reached; no byte of another process changes |
| `ShellText.ParseSpelled` | user/sh.c:271-498 | Parsing the printed form of any command tree with proper words, at most nine arguments and the three redirection modes gives the tree back |
| `ShellText.ParsedPrints` | user/sh.c:333-347 | Every tree the parser returns, for any line, is one the printer covers: printed and parsed again it is the same tree |
| `ShellSyntax.ParsePrint` | user/sh.c:333-451 | The same for its tokens |
| `ShellSyntax.ReadCommand` | user/sh.c:405-451 | A printed command followed by redirections is read as the command wrapped in them, innermost first |
| `ShellText.LexSpelled` | user/sh.c:271-313 | Spelled-out tokens are read back as those tokens |
| `ShellText.TerminatedReads` | user/sh.c:455-498 | With a NUL at the end of every word, each word read as a C string is exactly its token |
| `Shell.Parser.Gettoken` | user/sh.c:271-313 | The next token, its word and where it is; the cursor is left at the tokens behind it |
| `Shell.Parser.PeekFor` | user/sh.c:316-325 | Whether the next token starts with one of the symbols; consumes no token |
| `Shell.Parser.Parseline` | user/sh.c:350-364 | The tree, or the panic, that the grammar gives for the rest of the line; ends on every string |
| `Shell.Parser.Parsepipe` | user/sh.c:367-377 | The same for pipelines |
| `Shell.Parser.Parseredirs` | user/sh.c:380-402 | The same for redirections |
| `Shell.Parser.Parseblock` | user/sh.c:405-418 | The same for parenthesised blocks; its first check cannot fail |
| `Shell.Parser.Parseexec` | user/sh.c:421-451 | The same for commands, with the limit on arguments |
| `Shell.Nulterminate` | user/sh.c:455-498 | Writes a NUL at the end of every word of the command and changes no other character |
| `Shell.Parsecmd` | user/sh.c:333-347 | The parsed tree with its words read as C strings from the line, or the panic with the line untouched |
| `Grep.Match` | user/grep.c:71-80 | True exactly if some part of the text, from the start for a leading ^, up to the end for a trailing $, is in the language of the pattern |
| `Grep.Matchhere` | user/grep.c:83-94 | True exactly if the pattern matches at the start of the text; ends for every pattern and text |
| `Grep.Matchstar` | user/grep.c:97-104 | True exactly if some run of c followed by a match of the rest starts the text |
| `Grep.HereStar` | user/grep.c:97-104 | The meaning of c*: some number of fitting characters, then the rest |
| `Grep.HereOne` | user/grep.c:91-92 | The meaning of a literal or .: one fitting character, then the rest |
| `Grep.GrepFile` | user/grep.c:11-34 | For NUL-free input, however the reads split it: exactly the terminated matching lines, in order, up to the first line longer than 1022 characters |
| `Grep.Complete` | user/grep.c:20-28 | The inner loop writes exactly the matching lines completed in the buffer |
| `Virtio.Disk.Alloc3Desc` | kernel/virtio_disk.c:189-201 | Three different free descriptors, or none taken, exactly if fewer than three are free |
| `Virtio.Disk.AllocDesc` | kernel/virtio_disk.c:144-154 | The first free descriptor, or none exactly if none is free |
| `Virtio.Disk.FreeChain` | kernel/virtio_disk.c:173-185 | Frees exactly the three descriptors of the chain; its panics are unreachable |
| `Virtio.Disk.Start` | kernel/virtio_disk.c:203-269 | The request is in flight in three descriptors of its own, or nothing is taken |
| `Virtio.Disk.DeviceTake` | kernel/virtio_disk.c:259-265 | The device reads, across index wraparound, the chain submitted next and in it the request and buffer it was made for |
| `Virtio.Disk.DeviceComplete` | kernel/virtio_disk.c:297-302 | Chains may complete in any order without overwriting an entry not yet consumed |
| `Virtio.Disk.IntrOne` | kernel/virtio_disk.c:300-312 | The used entry names the chain completed at that place, and exactly the buffer that issued it is released; the status panic is unreachable |
| `Virtio.Disk.Intr` | kernel/virtio_disk.c:283-315 | Every completion is consumed once, across index wraparound, and no other request is touched |
| `Virtio.Disk.Finish` | kernel/virtio_disk.c:271-277 | Once its buffer is released the chain's descriptors, and no others, are free again |
| `Virtio.SubmitOk` | kernel/virtio_disk.c:203-269 | Submitting keeps every descriptor free or in exactly one chain of three and overwrites no entry the device has not read |
| `Virtio.CompleteOk` | kernel/virtio_disk.c:297-302 | So does completing, for entries the driver has not read |
| `Virtio.ConsumeOk` | kernel/virtio_disk.c:300-312 | So does consuming |
| `Virtio.ReleaseOk` | kernel/virtio_disk.c:271-277 | So does releasing |
| `Virtio.InFlight` | kernel/virtio_disk.c:259-312 | The 16-bit indices differ exactly if the counts they stand for do |
| `Pipe.PipeBuffer.Write` | kernel/pipe.c:77-103 | Appends exactly the next bytes of the source; sleeps only with PIPESIZE bytes pending; fails, writing nothing, exactly if there is no reader or the caller is killed |
| `Pipe.PipeBuffer.Read` | kernel/pipe.c:106-130 | Takes the next bytes in the order written, never more than there are; a byte that cannot be copied out is lost; sleeps or fails exactly on an empty pipe still open for writing |
| `Pipe.PipeBuffer.PutByte` | kernel/pipe.c:95-95 | One byte more at the end, at most PIPESIZE pending, across wraparound of the counters |
| `Pipe.PipeBuffer.GetByte` | kernel/pipe.c:123-123 | The oldest pending byte, across wraparound of the counters |
| `Pipe.PipeBuffer.Close` | kernel/pipe.c:58-74 | Closes exactly the end given and keeps what is pending |
| `Pipe.Counters` | kernel/pipe.c:88-121 | The full and empty tests on wrapped counters are exact |
| `Console.Cons.Interrupt` | kernel/console.c:136-179 | What every key does to committed and pending input; w - r <= e - r <= INPUT_BUF in every run; committed input is never erased; a full buffer is fully committed |
| `Console.Cons.Type` | kernel/console.c:158-175 | A key is appended to the line and the line is committed exactly at newline, ^D or a full buffer; ignored exactly if 0 or the buffer is full |
| `Console.Cons.Edit` | kernel/console.c:144-157 | Backspace drops the last pending character, ^U all of them, and neither touches committed input |
| `Console.Cons.Read` | kernel/console.c:80-127 | Delivers the next stretch of the committed stream, cut after a newline and before ^D, which is kept for the next read exactly if bytes were delivered |
| `Console.Cons.LastPending` | kernel/console.c:144-150 | No newline is ever pending, so ^U erases the whole line |
| `Signals.Kill` | kernel/proc.c:1001-1067 | SIGKILL to a process in use always sets killed and SIGSTOP always sets stopped; succeeds exactly if such a process exists and does not ignore the signal; touches no other process |
| `Signals.Proc.Deliver` | kernel/proc.c:1013-1061 | Every branch by number, handler and mask: what kills, stops, continues or only becomes pending; SIGKILL and SIGSTOP stay out of the mask, its backup and the masks of all handlers that are not the default |
| `Signals.Proc.Alloc` | kernel/proc.c:217-225 | The same for allocproc() |
| `Signals.Proc.Free` | kernel/proc.c:318-329 | The same for freeproc() |
| `Signals.Proc.InheritFrom` | kernel/proc.c:641-645 | The same for what fork() copies |
| `Signals.Proc.Exec` | kernel/exec.c:30-35 | The same for exec(), which keeps ignored signals ignored and resets the rest |
| `Signals.Proc.Sigprocmask` | kernel/proc.c:1086-1100 | Installs exactly the masks with neither bit and returns the old mask |
| `Signals.Proc.Sigaction` | kernel/proc.c:1105-1135 | Reports the old action of every signal that may be caught; installs, if an action is given, exactly for such signals and masks with neither bit; with a bad mask it fails with the lock still held |
| `Signals.Proc.StopCheck` | kernel/trap.c:157-171 | A stopped process waits on exactly while it has not been killed; a killed one is no longer stopped |
| `Signals.HandledNext` | kernel/trap.c:186-214 | One round of the delivery loop: the signal is taken exactly if it is pending and not blocked by the mask then in force |
| `Signals.Proc.HandleSignals` | kernel/trap.c:186-217 | The same for the delivery loop, for every counter: which signals are taken, that it exits exactly for a default one among them, and that the mask comes back exactly if the counter is 0, the backup equals the mask or no user handler runs |
| `Signals.StopThenContinue` | kernel/proc.c:1031-1056 | SIGSTOP then SIGCONT restores the mask exactly if it equals the backup or blocks SIGCONT |
| `Signals.MaskLostByStopThenContinue` | kernel/proc.c:1031-1056 | A new process that blocked one signal loses its mask that way |
| `Signals.MaskLostByHandler` | kernel/trap.c:186-217 | After two SIGSTOPs and one SIGCONT a handled signal unblocks what the process has blocked since |

## Left out

- Log: a buffer's modification and its log_write() are one step; an operation is charged for a block only when it is new to the log, which covers charging per call.
- Buffer cache: each device has its own store, while virtio_disk_rw() ignores dev (only one device exists); reference counts do not wrap; a client is required to write or pin what it changed before releasing it.
- File system: buffer cache and log lie below, so blocks are read and written directly; either_copyin() and either_copyout() copy a chunk completely or not at all; the byte layout of inodes, inode types, link counts, directories and path names are not modelled; a byte of the bitmap is its eight bits.
- Mkfs.ReadHole: a read through fileread() runs outside begin_op(), so its balloc() meets the panic "log_write outside of trans" unless another operation is outstanding; the run is real through a directory read inside an operation.
- File descriptors: of filewrite() only the branch for inodes is modelled; begin_op() and end_op() are the operations of the log model.
- Mkfs.Builder.Ialloc: requires a free inode below NINODES, which the source does not check, so Mkfs.Build takes at most NINODES - 2 files; running past the end of the image is a failure result. Reading the files of the host is the argument of Build.
- Mkfs.Builder.FixRootSize: requires a root directory smaller than the largest file, which NINODES entries never reach.
- Counting semaphore: value does not overflow; allocation of binary semaphores is not modelled; all threads belong to one process, since bsem_up() takes that process's lock; wakeups caused by kill are excluded.
- Sleep locks: processes are RUNNABLE, and wakeups caused by kill are excluded.
- Umalloc.Allocator.Malloc: a request whose size overflows sbrk's int ends with SbrkOverflow; what the source does with the corrupted heap after that is not modelled. Addresses count header-sized units, and sbrk may leave gaps but never moves back.
- Page tables: a page-table entry is a record, so the shifts of PA2PTE and PTE2PA are not modelled; physical and virtual addresses are page numbers except in copyin() and copyout(); kernel mappings, uvmclear(), uvminit() and copyinstr() are left out.
- Vm.Memory.Mappages: requires a leaf permission, as every caller passes.
- Processes: exec(), wait() and the fields of a process that hold no page are left out; the first thread's kernel stack is mapped at boot and is not from the pool.
- Shell: malloc'ed command structures are values; parseexec() fills argv through a pointer while redirections already wrap the command, and the model puts them on at the end; running commands is left out.
- Grep.GrepFile: requires input without NUL bytes, at which the source's string functions stop early.
- Grep.Complete: requires the same of what the buffer holds.
- Grep: read errors and the command line are left out.
- Virtio: the device always reports success; registers, fences and sleeping are left out, and a call that would sleep is two calls.
- Pipe and console: a method runs until the caller sleeps or returns; waking up, echoing and procdump() are left out.
- Signals: threads, the trap frame a user handler gets and exit status are left out; sigaction()'s copies between kernel and user memory succeed; a stopped process yields between two looks of StopCheck.
- ELF loading, the scheduler, trap entry, drivers other than the disk, and the remaining user programs are left out.
