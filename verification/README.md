# Verified models of xv6 with MLFQ, memory limits and file ownership

This project models the stateful cores of the kernel under `xv6-public/` and a few self-contained algorithms beside
it, and proves what they are for. `dafny verify dfyconfig.toml` covers every file.

**Crash-safe storage** (`Blocks`, `BufferCache`, `RedoLog`, `LogSystem`, `Transactions`). The disk is a sequence of
blocks and a history of single-block writes. `RedoLog` says what recovery makes of any disk and proves, for every run
of transactions, crashes after any write and recoveries that crash in turn, that the home blocks hold exactly the
committed transactions. `LogSystem` and `Transactions` are log.c's loops over the buffer cache; their disk writes are
proved to be the writes of that theorem. `BufferCache` is bio.c with its doubly linked ring; it refines a plain block
map. The log area decides which of two failures can occur; they exclude each other. mkfs gives it LOGSIZE blocks
including the header, so `log_write` can refuse an append that begin_op had reserved room for, but a commit without
readers always finds a buffer. Over a larger area no reserved append is refused, but NBUF equals LOGSIZE, so a
transaction of 30 blocks pins every buffer and its commit panics before it writes anything.
`Transactions.Log.LogWrite` and `Transactions.Log.Commit` state both as if and only if, and
`Transactions.ThreeOperations` is a run of calls that ends either way; it also shows that a reader holding one buffer
makes a commit of 29 blocks fail over mkfs's log. `CrashSafety` puts files on top: a crash anywhere leaves every file
as before the transaction or every file as after it, and a crash anywhere in filewrite leaves the file at a chunk
boundary and every other file untouched. Operations that one commit takes together survive together.
`CrashSafety.WriteAndCrash` is a run of calls from mkfs's image to a crash in the first write.

**Files** (`Bitmap`, `Dinodes`, `BlockMap`, `FileContents`, `FileTransactions`, `Files`, `Mkfs`, `RootHole`). Every data or
indirect block has at most one owner, one slot of one inode, and the bitmap marks exactly the metadata and the owned
blocks. This holds of the image mkfs builds and is kept by balloc, bfree, bmap, itrunc and writei; "freeing free
block" cannot happen. On top of it a file is a byte sequence: writei overlays and extends it, readi slices it, across
blocks and the direct and indirect parts, holes included. Inodes lie in their blocks as struct dinode has them, 64
bytes each; iupdate writes those bytes and ilock reads them back. filewrite leaves a history of transactions, one per
1536 bytes, each within ten blocks if the file has no holes. Holes do occur, and two promises fail at them. writei does
not write back an inode that got a block below the end of its file, so the block is lost at a reboot; and readi, which
allocates what it finds missing, panics in log_write if no operation is open, as in fileread. `Files.Fs.Writei` and
`Files.Fs.Readi` say exactly when, by the blocks the inode lacks before the call. mkfs makes such a hole in the root
directory whenever the directory ends at a block boundary before its size is rounded up: `RootHole.ReadRoot` and
`RootHole.LostEntry` are the calls, from an empty image on, that end in the panic and in the lost entry.

**Inodes and paths** (`Inodes`). References balance over every path, permission and outcome of namex. `Resolve` is the
whole of what a lookup does, with the inodes it frees on the way and its panics, and namex is proved equal to it. It is
the plain walk along the path exactly when that way is passable (`Inodes.ResolveIsWalk`), as every way from a linked
directory of a sound file system is. From a current directory that was removed together with its parent it is not: `..`
leads to a free inode and the lookup panics (`Inodes.RemovedParent`). dirlink on a directory's own name would wait for a
lock that its caller holds (`Inodes.Icache.Dirlink`, outcome `Deadlock`, as an if and only if).

**Virtual memory** (`PageTables`, `Mappings`, `AddressSpaces`, `VirtualMemory`, `UserSpace`, `ExecStack`). Every page
of the allocator is in exactly one place: the free list, one user mapping, one table, one directory, or the hands of
the kernel. Two-level tables are seen as flat lookups. Each operation says which lookups and pages change, and each
succeeds exactly when the free pages suffice, else rolls back. `UserSpace` reads an address space as bytes and proves
copyout over the page tables; `ExecStack` maps a new program's stack, builds it through copyout, and shows that the
guard page stops exactly the layouts that do not fit.

**Processes** (`SleepLocks`, `ProcessTable`, `Mlfq`). `SleepLocks` interleaves acquiresleep, releasesleep, sleep,
wakeup and kill statement by statement for any number of processes: in every run the locks exclude, a return from
acquiresleep means the lock, no wakeup is lost and nothing deadlocks. `ProcessTable` has exit, wait and fork with the
guarantee that no parent sleeps in wait while it has a zombie child. `Mlfq` keeps a history of dispatches, resets and
boosts, and every process's level and hold are what the history says: no quantum is exceeded, and what a process has
run, has left and has below always adds up. Whatever processes do, an iteration that finds an eligible process
dispatches the right one first, something runnable is dispatched within two iterations, and a process that has used up
everything waits for a boost. yield2 can keep an iteration from ending in any number of turns, while a process of lower
priority waits (`Mlfq.Scheduler.Pass`); without it and without new processes each iteration ends.

**Algorithms** (`FreeList` and `Umalloc`, `Pipe`, `Grep`). The allocator keeps its free list ordered and coalesced and
its blocks disjoint and tiling. Sizes within seven bytes of 2^32 wrap to an empty block (`Umalloc.UnitsSuffice` gives
the exact range), and from 2^31 - 15 to 2^32 - 8 bytes sbrk is asked for nothing or less (`Umalloc.AsksForMemory`). A
pipe is a FIFO although its counters wrap. A writer that was killed, or has no reader's end left, returns from a full
pipe without waking the readers it stored bytes for; `Pipe.Ring.Write` says exactly when, and in every other case a
reader sleeps only on an empty pipe that is open for writing. grep's matcher decides exactly the language of its
pattern.

A panic is an outcome of the method that would raise it, and a process that would sleep gets an outcome that says so.
Clocks, interrupts, what sbrk returns and what a process does while it runs are parameters.

## Model

| member | source | states |
|---|---|---|
| `Blocks.WordOfPutWord` | xv6-public/fs.c:413-418 | a 32-bit word stored in a block reads back, and storing it disturbs no other word |
| `BufferCache.UnlinkKeepsList` | xv6-public/bio.c:132-133 | taking any buffer out leaves the others linked both ways in the same order |
| `BufferCache.PushKeepsList` | xv6-public/bio.c:134-137 | a buffer put behind the head is first, the rest of the ring is as it was |
| `BufferCache.ThreadAll` | xv6-public/bio.c:47-55 | binit threads every buffer onto the ring once |
| `BufferCache.RecycleKeepsView` | xv6-public/bio.c:81-91 | giving an unreferenced clean buffer to another block changes no block a reader sees and pins or unpins nothing |
| `BufferCache.UpdateBuffer` | xv6-public/bio.c:97-106 | changing one buffer in place changes the plain block map at its own block only |
| `BufferCache.WriteBack` | xv6-public/memide.c:52-57 | writing a buffer back changes the disk but not the plain block map, and unpins that block only |
| `BufferCache.ReleaseBuffer` | xv6-public/bio.c:121-141 | unlocking a buffer keeps the cache in order exactly when what it holds is pinned or on the disk |
| `BufferCache.Bcache.constructor` | xv6-public/bio.c:39-56 | after binit the ring is a permutation of all buffers and the cache shows the disk |
| `BufferCache.Bcache.Find` | xv6-public/bio.c:69-76 | the walk of the ring finds the one buffer of a block exactly when there is one |
| `BufferCache.Bcache.FindVictim` | xv6-public/bio.c:81-91 | the backwards walk finds the least recently used recyclable buffer, exactly when there is one |
| `BufferCache.Bcache.Bget` | xv6-public/bio.c:62-93 | one buffer per block of a real device, on a miss the least recently used of those with no user and not dirty; the panic exactly when every buffer has a user or is dirty; no other buffer and no block changes |
| `BufferCache.Bcache.Recycle` | xv6-public/bio.c:82-89 | a recycled buffer neither sends an uncommitted block home nor drops it |
| `BufferCache.Bcache.Bread` | xv6-public/bio.c:97-106 | bread returns the value last logged or written |
| `BufferCache.Bcache.Modify` | xv6-public/log.c:206-213 | a holder changes its block in the plain block map and nothing else |
| `BufferCache.Bcache.Pin` | xv6-public/log.c:231 | B_DIRTY pins exactly that block |
| `BufferCache.Bcache.Bwrite` | xv6-public/bio.c:110-116 | the disk gets the buffer, and what readers see stays the same |
| `BufferCache.Bcache.Brelse` | xv6-public/bio.c:121-141 | the last user moves the buffer to the front of the ring; the cache stays in order, with the same block map, exactly when the buffer was left pinned, written or unmodified |
| `BufferCache.Bcache.MoveToFront` | xv6-public/bio.c:130-138 | most recently used first, all others in their order |
| `RedoLog.HeaderWords` | xv6-public/log.c:106-109 | the header block holds the count and the block numbers, word by word |
| `RedoLog.HeaderRoundTrip` | xv6-public/log.c:86-113 | read_head gets back the list write_head wrote |
| `RedoLog.AfterLogWrites` | xv6-public/log.c:178-190 | any number of log writes leaves the header and every home block alone |
| `RedoLog.AfterInstallWrites` | xv6-public/log.c:70-82 | after k installs exactly the first k logged blocks are home |
| `RedoLog.InstalledKeepsDurable` | xv6-public/log.c:70-82 | however far installing got, recovery will produce the same disk |
| `RedoLog.ClearKeepsDurable` | xv6-public/log.c:120-121 | once all blocks are home, clearing the header loses nothing and leaves the log empty |
| `RedoLog.RecoveryIsRestartable` | xv6-public/log.c:116-122 | recovery cut after any of its writes can be started again and ends the same way |
| `RedoLog.CrashBeforeHeader` | xv6-public/log.c:178-190 | a crash before the header write loses the whole transaction and nothing else |
| `RedoLog.HeaderWriteCommits` | xv6-public/log.c:102-113 | the header write is where the outcome flips to the whole transaction |
| `RedoLog.CommitIsStageThenRecovery` | xv6-public/log.c:193-202 | after the header write commit does exactly what recovery from there would do |
| `RedoLog.CrashAfterHeader` | xv6-public/log.c:196-201 | a crash after the header write keeps the whole transaction |
| `RedoLog.CommitIsAtomic` | xv6-public/log.c:193-202 | cut after any write, a commit recovers to before or after the whole transaction, and which one is decided by the header write alone |
| `RedoLog.Reboots` | xv6-public/log.c:116-122 | any number of recoveries, each cut short anywhere, leaves the durable state alone |
| `RedoLog.Step` | xv6-public/log.c:193-202 | one commit, crashed or not, has all of its effect or none |
| `RedoLog.RunIsAtomic` | xv6-public/log.c:70-122 | over every run of commits and crashes the home blocks hold exactly the committed transactions, whole and in order |
| `LogSystem.Copy` | xv6-public/log.c:182-188 | one turn of write_log or install_trans, while others read other blocks: the target gets the source's value, one disk write, no pinned block touched |
| `LogSystem.WriteLog` | xv6-public/log.c:178-190 | write_log's disk writes are the log writes of the cached values, in order |
| `LogSystem.EncodeHeader` | xv6-public/log.c:106-109 | the loop fills in the header block that the pure model describes |
| `LogSystem.WriteHead` | xv6-public/log.c:102-113 | one disk write, of that header |
| `LogSystem.InstallTrans` | xv6-public/log.c:70-82 | install_trans's disk writes are the install writes of the logged values, and it unpins what it wrote |
| `LogSystem.ReadHead` | xv6-public/log.c:86-96 | the in-memory list is the one the header block encodes |
| `LogSystem.Stage` | xv6-public/log.c:196-197 | write_log and write_head together make the writes up to the commit point |
| `LogSystem.CommitBlocks` | xv6-public/log.c:193-202 | commit makes exactly the writes whose every prefix the crash theorem is about |
| `LogSystem.Recover` | xv6-public/log.c:116-122 | recover_from_log makes exactly the recovery writes and leaves the cache clean |
| `Transactions.UnusedSplit` | xv6-public/log.c:125-141 | the unused reservations add up over the active operations in any order |
| `Transactions.ReservationLeavesRoom` | xv6-public/log.c:218-219 | an operation with reservation left always sees fewer than LOGSIZE logged blocks |
| `Transactions.AdmissionKeepsReservation` | xv6-public/log.c:131-139 | begin_op's test keeps logged blocks plus unused reservations within LOGSIZE |
| `Transactions.ReservedAppendRefused` | xv6-public/log.c:218-219 | for a reserved append, log_write's panic depends on the size of the log area alone |
| `Transactions.AppendKeepsReservation` | xv6-public/log.c:224-230 | an append spends its operation's reservation |
| `Transactions.Find` | xv6-public/log.c:224-227 | the absorption search finds the block exactly when it is listed |
| `Transactions.FreeBufferIffRoom` | xv6-public/log.c:231 | with the list pinned, a buffer is free exactly when the listed blocks and the readers' buffers are fewer than the cache has |
| `Transactions.CommitSurvivesCrashes` | xv6-public/log.c:193-202 | a commit of the cached values is atomic at each of its writes and leaves them all on disk |
| `Transactions.Log.constructor` | xv6-public/log.c:54-66 | initlog recovers: the home blocks become the durable state and the history of commits starts empty |
| `Transactions.Log.BeginOp` | xv6-public/log.c:126-141 | admitted exactly when no commit is on and the full reservation fits |
| `Transactions.Log.EndOp` | xv6-public/log.c:146-174 | the last operation out commits, and none is active while it does |
| `Transactions.Log.LogWrite` | xv6-public/log.c:214-233 | absorbs or appends, and pins the block; too big exactly with 30 blocks listed or all of the log area used, outside a transaction exactly with none open; within its reservation an operation is refused only by a log area of at most LOGSIZE blocks |
| `Transactions.Log.Record` | xv6-public/log.c:224-230 | the list stays free of duplicates, and reservations add up |
| `Transactions.Log.Commit` | xv6-public/log.c:193-202 | crash-atomic at every write; the home blocks are those of the boot with every commit since applied in order; fails, before writing anything, exactly when the logged blocks and the readers' buffers fill the cache, so never over mkfs's log without readers |
| `Transactions.ThreeOperations` | xv6-public/log.c:125-202 | a run of calls: thirty appends within their reservations are refused exactly over a log area of at most LOGSIZE blocks, and over a longer one their commit finds no buffer; twenty-nine and one reader do too |
| `CrashSafety.MkfsLaidOut` | xv6-public/mkfs.c:93-103 | mkfs puts the log below the inode blocks, these below the bitmap, and the log holds any one transaction |
| `CrashSafety.SameFileSystem` | xv6-public/log.c:116-122 | disks with the same home blocks hold the same inodes and the same files, byte for byte |
| `CrashSafety.TransactionIsAtomic` | xv6-public/log.c:193-202 | one transaction of the file layer, committed or crashed after any write and rebooted any number of times: the disk holds the file system from before it or the one from after it, by whether the header was written |
| `CrashSafety.RunKeepsFileSystem` | xv6-public/log.c:70-202 | after every run of transactions that the log can hold, each of one operation or of several, and each starting from what the crashes before it left, the disk holds a file system in order, the one the last of them left |
| `CrashSafety.GroupIsAtomic` | xv6-public/log.c:146-202 | group commit: however many operations one commit takes together, after a crash anywhere in it and any reboots the disk holds the file system from before them all or from after them all |
| `CrashSafety.FilewriteCrash` | xv6-public/file.c:118-156 | cut filewrite anywhere and crash recovery any number of times: the file holds its old contents with the first j bytes laid over, for a chunk boundary j, and every other file and inode is as before the write |
| `CrashSafety.CrashableFilewrite` | xv6-public/file.c:118-156 | that theorem for the transactions the filewrite method really makes |
| `CrashSafety.CrashRecords` | xv6-public/log.c:178-190 | every transaction cut after any number of writes is an event that these theorems are about |
| `CrashSafety.WriteAndCrash` | xv6-public/file.c:118-156 | from mkfs to the crash: for every cut of the commit and all reboots, a file created by mkfs and written once holds nothing or all of it |
| `Bitmap.BitOfWithBit` | xv6-public/fs.c:66-68 | setting or clearing a bit changes that bit only |
| `Bitmap.BitValue` | xv6-public/fs.c:66-68 | bit k is worth 2^k |
| `Bitmap.InUseOfMark` | xv6-public/fs.c:64-69 | marking a block changes what the bitmap says of that block only |
| `Bitmap.InUseByte` | xv6-public/fs.h:49-53 | a block's bit is in the bitmap block, byte and bit that BBLOCK and the mask say: 4096 blocks to a block, eight to a byte, lowest bit first |
| `Dinodes.DecodeOfEncode` | xv6-public/fs.c:235-255 | the inode that ilock reads from its 64 bytes is the one iupdate wrote, every field of it |
| `Dinodes.DinodeBytes` | xv6-public/fs.h:30-41 | each field of an inode at its place in struct dinode, lowest byte first, the owner as a string |
| `Dinodes.InodeOnDisk` | xv6-public/fs.h:43-47 | inode i is the (i % 8)-th of the eight in block inodestart + i / 8 |
| `Dinodes.EncodeOutside` | xv6-public/fs.c:235-255 | iupdate writes no byte outside its own 64 |
| `Dinodes.InodesAfter` | xv6-public/fs.c:235-255 | after iupdate the disk holds the new inode and every other inode as before |
| `Dinodes.InodesSame` | xv6-public/fs.c:307-332 | what the inodes are depends on the inode blocks alone |
| `BlockMap.WriteKeepsInv` | xv6-public/fs.c:508-537 | writing blocks that are neither bitmap nor indirect blocks keeps block ownership |
| `BlockMap.AllocateKeepsInv` | xv6-public/fs.c:57-78 | a block balloc finds is nobody's data block, and marking it keeps ownership exact |
| `BlockMap.FreeKeepsInv` | xv6-public/fs.c:82-95 | freeing a block nobody holds keeps ownership exact |
| `BlockMap.LinkDirectKeepsInv` | xv6-public/fs.c:402-412 | a fresh block stored in addrs has that slot as its one owner |
| `BlockMap.LinkEntryKeepsInv` | xv6-public/fs.c:413-418 | a fresh block stored in the indirect block has that entry as its one owner |
| `BlockMap.DetachDirect` | xv6-public/fs.c:438-443 | clearing a slot takes its block from the inode and no other block |
| `BlockMap.DetachIndirect` | xv6-public/fs.c:445-455 | dropping the indirect block takes its entries' blocks and itself from the inode, and no other block |
| `FileContents.GainKeepsBytes` | xv6-public/fs.c:397-424 | linking a zeroed block changes no byte of any file |
| `FileContents.FileByteAt` | xv6-public/fs.c:397-424 | where a byte of a file is: in the block addrs names, or behind the seventh the block that four bytes of the indirect block name |
| `FileContents.HolesTwice` | xv6-public/fs.c:397-424 | what is missing of a range is missing of its first part or, once that is filled, of the rest, so missing blocks can be counted before a write begins |
| `FileContents.SlotsStep` | xv6-public/fs.c:524-529 | the slots a range of a file needs, block by block |
| `FileContents.FillsAddrs` | xv6-public/fs.c:402-412 | the in-core inode changes exactly when it lacked one of the blocks written |
| `FileContents.FreeLess` | xv6-public/fs.c:57-78 | marking a free block leaves one free block less |
| `FileContents.ChunkWritten` | xv6-public/fs.c:524-529 | writing one block of an inode changes those bytes of that inode only |
| `FileContents.WrittenContents` | xv6-public/fs.c:524-535 | bytes written at an offset with the new size are the old contents overlaid and extended |
| `FileContents.BelowBitmapKeeps` | xv6-public/fs.c:235-255 | no block below the bitmap is part of a file |
| `FileContents.TransactionFits` | xv6-public/file.c:126-134 | a write of at most 1536 bytes to a file without holes logs at most MAXOPBLOCKS blocks, at any offset |
| `FileTransactions.ChunkWrote` | xv6-public/file.c:135-151 | writei of the next chunk is one transaction of the history: the file goes from one chunk boundary to the next and no other file changes |
| `FileTransactions.ChunkCount` | xv6-public/file.c:126-134 | one transaction for every 1536 bytes, the last possibly for fewer |
| `FileTransactions.HistoryState` | xv6-public/file.c:118-156 | after any number of its transactions the file holds that part of the bytes and the other files are as at the start |
| `FileTransactions.GroupOrdered` | xv6-public/log.c:146-174 | operations one after another make a transaction that leads from the first file system to the last and logs every block that any of them wrote |
| `FileTransactions.GroupSize` | xv6-public/log.c:131 | n operations log at most n times MAXOPBLOCKS blocks |
| `Files.FindFree` | xv6-public/fs.c:62-76 | the scan finds the lowest free block, or there is none |
| `Files.Fs.LogWrite` | xv6-public/log.c:218-221 | the panic exactly outside a transaction |
| `Files.Fs.Balloc` | xv6-public/fs.c:57-78 | the lowest free block, marked and zeroed; panics exactly when the disk is full or no operation is open |
| `Files.Fs.Bfree` | xv6-public/fs.c:82-95 | clears that bit only; panics exactly when it was clear or no operation is open |
| `Files.Fs.AllocDirect` | xv6-public/fs.c:402-412 | one zeroed block gained by that slot, everything else as before |
| `Files.Fs.AllocEntry` | xv6-public/fs.c:415-418 | one zeroed block gained by that entry, everything else as before |
| `Files.Fs.Bmap` | xv6-public/fs.c:397-424 | the block of the file, allocated on demand, with no byte of any file changed and bounded logging; panics exactly when blocks are missing and there are too few free ones, or no open operation to log them in |
| `Files.Fs.WriteChunk` | xv6-public/fs.c:524-529 | exactly those bytes of that inode change |
| `Files.Fs.WriteLoop` | xv6-public/fs.c:524-529 | the loop writes the whole range, across blocks and the direct and indirect parts; panics exactly as the blocks missing at the start of the write say |
| `Files.Fs.Iupdate` | xv6-public/fs.c:235-255 | the inode read back from the disk is the one in core, every other inode and every file is as before; panics exactly outside a transaction |
| `Files.Fs.Writei` | xv6-public/fs.c:508-537 | contents become the old ones overlaid at off and extended; refused exactly on a bad range; panics exactly when more blocks are missing in the range than are free, or something is to be written outside a transaction; every other inode as before; the disk still has the inode exactly when the file grew or the inode itself lacked no block of the range |
| `Files.Fs.ReadChunk` | xv6-public/fs.c:495-498 | one turn of readi, which allocates what is missing |
| `Files.Fs.Readi` | xv6-public/fs.c:479-502 | the slice of the contents clipped to the size; refused exactly behind the end or when off + n overflows; panics exactly when blocks are missing there and no operation is open or too few are free; on a file without holes it changes nothing |
| `Files.Fs.TruncIndirect` | xv6-public/fs.c:445-455 | frees the entries' blocks and the indirect block, each once |
| `Files.Fs.Itrunc` | xv6-public/fs.c:432-459 | clears exactly the bits the inode owned, never meets a free block, writes the emptied inode to the disk, and no other file changes; fails exactly outside a transaction |
| `Files.Fs.WriteOp` | xv6-public/file.c:140-149 | one transaction around writei, with its exact panic; on a file without holes it fits MAXOPBLOCKS and leads from one file system on disk to the next |
| `Files.Fs.Filewrite` | xv6-public/file.c:118-156 | the whole write, or an error by the size limit, or a panic because more blocks are missing than are free, which happens only then and not if the whole range has enough; exactly one transaction per 1536 bytes, chained, each from one chunk boundary to the next with all other files unchanged; on a file without holes each fits MAXOPBLOCKS and leaves the inodes on the disk |
| `Files.Fs.constructor` | xv6-public/fs.c:174-188 | a disk in order gives a file system in order |
| `Mkfs.UsedBits` | xv6-public/mkfs.c:245-258 | the bitmap mkfs builds marks exactly the blocks below freeblock |
| `Mkfs.SuperBlock` | xv6-public/mkfs.c:23-103 | mkfs's numbers: inode blocks below the bitmap, one bitmap block for the whole disk |
| `Mkfs.ZeroInode` | xv6-public/mkfs.c:110-111 | a zeroed block holds blank inodes |
| `Mkfs.NextBlock` | xv6-public/mkfs.c:278-293 | taking freeblock is what balloc would do on the finished image |
| `Mkfs.EmptyImage` | xv6-public/mkfs.c:108-115 | the zeroed image is a file system in order without files |
| `Mkfs.Image.constructor` | xv6-public/mkfs.c:108-115 | mkfs starts from such an image, every inode blank |
| `Mkfs.Image.Ialloc` | xv6-public/mkfs.c:226-242 | the next inode, all of it: type, one link, size 0, owner root, mode 61 and no block; on the disk too, and no file changes |
| `Mkfs.Image.Winode` | xv6-public/mkfs.c:184-196 | the image holds the new inode and every other as before |
| `Mkfs.Image.MapDirect` | xv6-public/mkfs.c:278-286 | the block of addrs, taken from freeblock if there is none, unless the image is full |
| `Mkfs.Image.MapEntry` | xv6-public/mkfs.c:287-292 | the block of the indirect entry, taken from freeblock if there is none, unless the image is full |
| `Mkfs.Image.AppendChunk` | xv6-public/mkfs.c:275-301 | exactly those bytes of that inode change |
| `Mkfs.Image.Iappend` | xv6-public/mkfs.c:263-304 | the contents get the bytes at their end, without holes and without a block too many, the inode is in the image, and no other file changes; fails exactly when the image has too few blocks left |
| `Mkfs.Image.RoundSize` | xv6-public/mkfs.c:158-163 | the rounded root directory keeps its contents and has a hole exactly when the block at its old end was never allocated: for a directory that iappend wrote into the direct blocks, exactly when it ended at a block boundary |
| `Mkfs.Image.Balloc` | xv6-public/mkfs.c:245-258 | writing the bitmap completes a file system in order |
| `Mkfs.Image.Boot` | xv6-public/fs.c:174-188 | the kernel starts with the files mkfs wrote, their inodes on the disk, ownership holding |
| `RootHole.BootRounded` | xv6-public/mkfs.c:158-163 | an image made by these calls whose root directory has 32 entries boots with a root directory of two blocks, the second a hole |
| `RootHole.ReadRoot` | xv6-public/file.c:97-111 | and fileread of its second block, which opens no operation, panics in log_write |
| `RootHole.LostEntry` | xv6-public/fs.c:578-604 | an entry linked into that block is there in memory; on the disk the directory is as before, its bytes there read as zeroes, and no assignment of owners accounts for the blocks |
| `RootHole.BlockLeaked` | xv6-public/fs.c:402-418 | a block that only an inode in memory holds leaves no file system in order on the disk, whoever is taken to own what |
| `Inodes.RefsUpdate` | xv6-public/fs.c:261-302 | the references to an inode add up over the cache |
| `Inodes.NoSlotIff` | xv6-public/fs.c:261-283 | no slot for an inode means: NINODE other inodes are referenced |
| `Inodes.HeldByWalk` | xv6-public/fs.c:355-376 | a walk's reference is the last one exactly when nobody else has one |
| `Inodes.SkipSlashes` | xv6-public/fs.c:627-628 | leading slashes do not change what a path means |
| `Inodes.SkipElem` | xv6-public/fs.c:622-644 | the first element cut to 14 characters and a rest that means the other elements; nothing exactly for a path of slashes |
| `Inodes.ElementsOfJoined` | xv6-public/fs.c:622-644 | the elements of a path of names are those names, each cut to 14 characters |
| `Inodes.FindAfterLink` | xv6-public/fs.c:593-601 | an entry in a free place is found under its name and hides no other |
| `Inodes.FindIsFirst` | xv6-public/fs.c:551-574 | a directory lookup means the first entry in use with that name, and nothing exactly when there is none |
| `Inodes.Icache.constructor` | xv6-public/fs.c:174-188 | an empty cache has no reference and no lock |
| `Inodes.Icache.Iget` | xv6-public/fs.c:261-291 | one more reference to that inode and no other; no two slots for one inode; only an unreferenced slot is recycled; the panic exactly when NINODE other inodes are referenced |
| `Inodes.Icache.Idup` | xv6-public/fs.c:296-302 | one more reference to that inode and no other |
| `Inodes.Icache.Ilock` | xv6-public/fs.c:307-336 | locks and reads, moving no reference; the panic exactly on a free inode |
| `Inodes.Icache.Iunlock` | xv6-public/fs.c:340-346 | unlocks, moving no reference |
| `Inodes.Icache.Iput` | xv6-public/fs.c:356-376 | one reference less; exactly when that was the last one and the inode has no links, it is freed on disk, its type 0 and its contents gone, and no longer valid; no other inode changes |
| `Inodes.Icache.Iunlockput` | xv6-public/fs.c:380-384 | no lock left, one reference less, and the inode freed exactly as by iput |
| `Inodes.Icache.Dirlookup` | xv6-public/fs.c:551-574 | the first live entry of that name, with one more reference to its inode; the panic exactly when there is no slot for it |
| `Inodes.Icache.AddEntry` | xv6-public/fs.c:589-601 | the name leads to the inode, every other name where it led before; refused exactly by a full directory |
| `Inodes.Icache.Dirlink` | xv6-public/fs.c:578-604 | refuses a taken name with references balanced and the disk as it was; waits for its own lock exactly when the name is the directory's own; each panic exactly on its condition |
| `Inodes.TargetStep` | xv6-public/fs.c:660-691 | one step and then the rest of the path is the whole path |
| `Inodes.TargetIsGranted` | xv6-public/fs.c:660-691 | the plain walk, said without its steps: where the names lead if every directory on the way has the mode bit that applies to the user, nothing otherwise |
| `Inodes.Icache.Begin` | xv6-public/fs.c:657-660 | the walk starts at the root or the current directory with one reference of its own |
| `Inodes.Icache.Advance` | xv6-public/fs.c:662-692 | one step moves the reference to the entry's inode or drops it, through a directory that root and its owner may search by bit 3 of its mode and others by bit 0; frees what it leaves exactly when that was the last reference without links, and panics exactly when stuck |
| `Inodes.Icache.Namex` | xv6-public/fs.c:653-698 | for every path, permission and disk: the result, the inodes freed on the way and the panics are exactly those of the pure lookup; what it returns is where the names lead from the root or the current directory, through directories that all let the user search them; on a passable way it returns nothing exactly when one does not or a name is missing; one extra reference on the result or none, no other changed, no lock held |
| `Inodes.ResolveIsWalk` | xv6-public/fs.c:653-698 | the lookup frees nothing, does not panic and leads where the path leads if and only if the way is passable: what it locks is in use, what it leaves has links or another holder, and the cache has a slot for each inode it goes to |
| `Inodes.ResolveIsGranted` | xv6-public/fs.c:653-698 | whatever is freed on the way, a lookup that leads somewhere leads there, through such directories alone |
| `Inodes.LookupIsGranted` | xv6-public/fs.c:669-679 | on a passable way it leads somewhere exactly when that is granted |
| `Inodes.SolidPasses` | xv6-public/fs.c:653-698 | a way over inodes in use, with links or held by somebody else, is passable when two cache slots are free |
| `Inodes.SoundIsSolid` | xv6-public/fs.c:653-698 | which every path is that starts at a directory with links, if the entries of directories with links lead to inodes with links |
| `Inodes.FreeStaysFree` | xv6-public/fs.c:653-698 | a lookup never puts a free inode to use |
| `Inodes.RemovedParent` | xv6-public/sysfile.c:215-241 | a current directory is removed and then its parent: .. leads to a free inode and the lookup panics, where the plain walk just finds nothing |
| `PageTables.PopKeepsInv` | xv6-public/kalloc.c:83-95 | a page taken from the free list leaves every page in one place |
| `PageTables.PushKeepsInv` | xv6-public/kalloc.c:60-77 | a page given back, junk and link written over it, leaves every page in one place |
| `PageTables.DirKeepsInv` | xv6-public/vm.c:124-126 | a zeroed page is a directory that maps nothing, and no other mapping changes |
| `PageTables.TableKeepsInv` | xv6-public/vm.c:45-52 | a new zeroed table changes no lookup in any address space |
| `PageTables.LeafKeepsInv` | xv6-public/vm.c:69-73 | a new entry changes the lookup of that page of that directory only |
| `PageTables.MappedOnce` | xv6-public/vm.c:61-80 | a user page is mapped in one place of one address space |
| `PageTables.UnmapKeepsInv` | xv6-public/vm.c:269-276 | clearing an entry changes that lookup only |
| `PageTables.RetireKeepsInv` | xv6-public/vm.c:290-297 | a directory without user pages can be taken apart |
| `Mappings.NewTableAdds` | xv6-public/vm.c:45-54 | one page less, one table more, no lookup changed |
| `Mappings.PteParts` | xv6-public/vm.c:73 | an entry is the page, the present bit and every other low bit as asked for |
| `Mappings.MapStep` | xv6-public/vm.c:68-78 | one turn of mappages |
| `Mappings.MapsFlags` | xv6-public/vm.c:61-80 | so have all entries of a mapped range, for consecutive pages |
| `Mappings.MapStuck` | xv6-public/vm.c:69-70 | mappages fails only for want of table pages |
| `Mappings.AbsentTable` | xv6-public/vm.c:266-268 | no page of a missing table is mapped, so the jump over it skips none |
| `Mappings.ReleaseClears` | xv6-public/vm.c:269-276 | one page unmapped and free, every other page where it was |
| `Mappings.ClearedTwice` | xv6-public/vm.c:265-277 | clearing two adjacent ranges is clearing both |
| `Mappings.GrowStep` | xv6-public/vm.c:233-247 | one turn of allocuvm |
| `Mappings.GrownFlags` | xv6-public/vm.c:233-247 | every page gained is present, writable and open to user code |
| `Mappings.RollBack` | xv6-public/vm.c:235-246 | a failed growth, once cleared, leaves every mapping and every page of the process as before |
| `Mappings.ClearedAround` | xv6-public/vm.c:241-246 | the page that could not be mapped goes back too |
| `AddressSpaces.EmptiedGone` | xv6-public/vm.c:284-298 | with user pages, tables and directory freed, every page of the address space is free and no other page changed |
| `AddressSpaces.MadeAndGone` | xv6-public/vm.c:130-134 | an address space made from nothing and freed costs nothing |
| `AddressSpaces.KernelStep` | xv6-public/vm.c:129-134 | one region of kmap more, mapped exactly |
| `AddressSpaces.KernelPageThere` | xv6-public/vm.c:105-115 | a kernel page is at its physical place, closed to user code, and writable unless it is kernel text |
| `AddressSpaces.KernelCost` | xv6-public/vm.c:110-136 | the tables each region takes |
| `AddressSpaces.MissingSplit` | xv6-public/vm.c:61-80 | mapping a range in two goes costs the same as in one |
| `AddressSpaces.CopyStep` | xv6-public/vm.c:325-339 | one turn of copyuvm: a page of its own with the parent's contents and permissions |
| `AddressSpaces.ForkedFlags` | xv6-public/vm.c:325-339 | each of the child's entries has the flags of the parent's |
| `VirtualMemory.Machine.constructor` | xv6-public/kalloc.c:32-37 | no page is free at boot |
| `VirtualMemory.Machine.Kfree` | xv6-public/kalloc.c:60-77 | the page heads the free list, holds the old head and otherwise junk, and no other page is written; the panic exactly on a bad address |
| `VirtualMemory.Machine.Kalloc` | xv6-public/kalloc.c:83-95 | the head of the free list; none exactly when it is empty |
| `VirtualMemory.Machine.Freerange` | xv6-public/kalloc.c:47-53 | exactly the pages that lie wholly between the addresses become free |
| `VirtualMemory.Machine.Walk` | xv6-public/vm.c:36-55 | the table of that page, made on demand, under a directory entry that is present, writable and open to user code; none exactly when absent and not to be made or no page is free |
| `VirtualMemory.Machine.Mappages` | xv6-public/vm.c:61-80 | all pages of the range map the given frames with the given permissions, exactly when the free pages cover the missing tables; it never remaps |
| `VirtualMemory.Machine.Release` | xv6-public/vm.c:269-276 | the page is freed once and its entry cleared; neither panic can happen |
| `VirtualMemory.Machine.Deallocuvm` | xv6-public/vm.c:256-279 | despite the jumps, exactly the mapped pages of the range are unmapped and free, each once, and the loop ends |
| `VirtualMemory.Machine.Allocuvm` | xv6-public/vm.c:222-249 | all pages, fresh, zeroed, private, writable and open to user code, exactly when the free pages suffice; otherwise the user mapping and all its pages as before |
| `VirtualMemory.PagesSuffice` | xv6-public/vm.c:222-232 | as many pages as hold that many bytes, and no more |
| `VirtualMemory.Machine.Freevm` | xv6-public/vm.c:284-298 | all pages reachable from the directory are free, all others untouched |
| `VirtualMemory.Machine.Setupkvm` | xv6-public/vm.c:119-136 | exactly the kernel's mappings, text not writable, all else writable, nothing open to user code, exactly when 65 pages are free; otherwise every page back |
| `VirtualMemory.Machine.Copyuvm` | xv6-public/vm.c:316-345 | the child maps private copies, each entry with the flags of the parent's, exactly when the free pages suffice; otherwise every page back |
| `VirtualMemory.Machine.Uva2ka` | xv6-public/vm.c:350-360 | a page exactly when user code may touch it, and then the process's own; without a table, whatever word a null pointer reads |
| `VirtualMemory.Machine.Clearpteu` | xv6-public/vm.c:302-311 | the user bit of that entry goes and nothing else changes; panics exactly without a table |
| `VirtualMemory.ClearUser` | xv6-public/vm.c:310 | bit 2 cleared, every other bit kept |
| `UserSpace.BytesOfWords` | xv6-public/vm.c:380 | the words of a page and its bytes determine one another |
| `UserSpace.UserWord` | xv6-public/vm.c:366-385 | a word of user memory is its four bytes, the lowest first |
| `UserSpace.UserByteStored` | xv6-public/vm.c:372-383 | writing a process's page changes those bytes of that process and no byte of any other |
| `UserSpace.UserMemory.StorePage` | xv6-public/vm.c:380 | the memmove into one page overlays exactly those bytes; no mapping and no other address space changes |
| `UserSpace.UserMemory.Copyout` | xv6-public/vm.c:366-386 | through the page tables: succeeds exactly when every page touched is a user page, and then overlays exactly the range; bytes outside, mappings and other address spaces never change |
| `ExecStack.SpDown` | xv6-public/exec.c:96 | argument strings lie below one another without overlap, at word addresses |
| `ExecStack.WordOfAll` | xv6-public/exec.c:104-108 | the words of ustack read back from their bytes |
| `ExecStack.GuardStops` | xv6-public/exec.c:89 | a write that begins below the stack and reaches it meets the guard page |
| `ExecStack.NewStack` | xv6-public/exec.c:84-90 | a loaded program gets a guard page and zeroed user pages above it exactly when it stays below the kernel and the free pages suffice, and its bytes stay |
| `ExecStack.StringPut` | xv6-public/exec.c:96-99 | one string more in place, those above undisturbed |
| `ExecStack.WordsPut` | xv6-public/exec.c:101-108 | return address, argc, argv and each argv slot at its own string |
| `ExecStack.PushStrings` | xv6-public/exec.c:92-101 | all strings in place exactly when at most MAXARG and all above the guard page; no other address space changes |
| `ExecStack.BuildStack` | xv6-public/PRJ02_syscall.c:84-104 | exec and exec2 succeed exactly when everything fits above the guard page, and then the program finds every argument where its argv says; nothing below changes |
| `ExecStack.ShortStrings` | xv6-public/exec.c:93-97 | a string shorter than the program never makes the stack pointer wrap |
| `ExecStack.StackLaidOut` | xv6-public/exec.c:93-109 | for any arguments: strings at word addresses, whole, no two overlapping, and the words right below them, with nothing wasted but the bytes up to a word boundary |
| `SleepLocks.StepKeepsInv` | xv6-public/sleeplock.c:23-42 | every step of every process keeps the protocol's invariant |
| `SleepLocks.AcquireKeepsInv` | xv6-public/sleeplock.c:23-32 | taking a free lock, or finding it held, keeps it |
| `SleepLocks.SleepKeepsInv` | xv6-public/proc.c:895-929 | going to sleep with ptable.lock taken before the lock is dropped keeps it |
| `SleepLocks.ReleaseKeepsInv` | xv6-public/sleeplock.c:35-42 | clearing the lock keeps it |
| `SleepLocks.WakeKeepsInv` | xv6-public/proc.c:935-951 | waking the sleepers keeps it |
| `SleepLocks.KillKeepsInv` | xv6-public/proc.c:957-974 | kill's early wakeup keeps it |
| `SleepLocks.RunKeepsInv` | xv6-public/sleeplock.c:23-42 | every interleaving of any number of processes and locks keeps it |
| `SleepLocks.AcquireReturns` | xv6-public/sleeplock.c:23-32 | in every run, a process inside acquiresleep leaves it only with the lock, which names it |
| `SleepLocks.ReleaseReturns` | xv6-public/sleeplock.c:35-42 | and leaves releasesleep only without it |
| `SleepLocks.WokenExactly` | xv6-public/proc.c:935-974 | a sleeper is woken by a release of its lock or a kill of it, by each of these, and in no other way |
| `SleepLocks.NoDeadlock` | xv6-public/sleeplock.c:23-42 | in every run, unless all processes are idle or sleep on locks, some process inside a call can move |
| `SleepLocks.Taken` | xv6-public/sleeplock.c:23-32 | a free lock is taken in four moves of one process |
| `SleepLocks.GivenBack` | xv6-public/sleeplock.c:35-42 | and given back in seven, which wake the lock's sleepers and nobody else |
| `SleepLocks.MutualExclusion` | xv6-public/sleeplock.c:23-53 | at most one process holds a sleep lock, and holdingsleep tells which |
| `SleepLocks.NoLostWakeup` | xv6-public/proc.c:895-951 | a process asleep on a lock sleeps while it is held or its releaser is between clearing it and waking |
| `SleepLocks.WakeupArrives` | xv6-public/proc.c:946-951 | that releaser wakes it in two more steps |
| `ProcessTable.Ptable.constructor` | xv6-public/proc.c:150-182 | the first process is init, without a parent |
| `ProcessTable.Ptable.Wakeup1` | xv6-public/proc.c:935-942 | exactly the sleepers on that channel become runnable, and nothing else changes |
| `ProcessTable.Ptable.Wakeup` | xv6-public/proc.c:946-951 | and the family invariant stays |
| `ProcessTable.ExitKeepsInv` | xv6-public/proc.c:333-373 | after exit nobody is orphaned and no zombie's parent, init included, is asleep in wait |
| `ProcessTable.ExitLeaves` | xv6-public/proc.c:333-373 | what exit does to each process: a zombie, a new parent, a wakeup, or nothing, and no other field |
| `ProcessTable.Ptable.Exit` | xv6-public/proc.c:333-373 | parent woken, children passed to init, init woken exactly if one of them is a zombie; init cannot exit |
| `ProcessTable.WaitKeepsInv` | xv6-public/proc.c:406-416 | going to sleep in wait is safe when no child is a zombie |
| `ProcessTable.Ptable.Wait` | xv6-public/proc.c:378-417 | reaps the first zombie child, fails exactly when killed or childless, sleeps otherwise |
| `ProcessTable.Ptable.KillProc` | xv6-public/proc.c:957-974 | the first process with that pid is killed and, if it slept, runnable, whatever it slept on; its other fields and every other process stay; found exactly when there is one |
| `ProcessTable.Ptable.Sleep` | xv6-public/proc.c:895-929 | sleeping on anything but a process keeps the family invariant |
| `ProcessTable.Ptable.Alloc` | xv6-public/proc.c:87-98 | the first unused slot; none exactly when all are used |
| `ProcessTable.Ptable.EndFork` | xv6-public/proc.c:229-266 | the child gets its parent and becomes runnable, or its slot is free again |
| `Mlfq.BelowSum` | xv6-public/proc.c:20 | the quanta of the queues add up to K*K + 3K |
| `Mlfq.QuantumConserved` | xv6-public/proc.c:532-585 | runs charged since the last reset, plus what is left at this level, plus the quanta below it, are always K*K + 3K |
| `Mlfq.RunsGrow` | xv6-public/proc.c:576-585 | without a reset the runs charged at a level only grow, by one for every dispatch charged there |
| `Mlfq.ExhaustedIsNotDispatched` | xv6-public/proc.c:532-572 | until its next reset a process at the last level with nothing left is not dispatched again |
| `Mlfq.NewStartsKeepAccounts` | xv6-public/proc.c:105-112 | processes that start while another runs have accounts from their start on |
| `Mlfq.PreparedQueues` | xv6-public/proc.c:518-541 | at the start of an iteration a sleeper goes to the top with 4 runs, a used-up quantum one queue down with that of the queue, and nobody else changes unless there is a boost |
| `Mlfq.QueuedHadAll` | xv6-public/proc.c:532-585 | a runnable process that then cannot be dispatched has had all K*K + 3K runs since its last reset |
| `Mlfq.TurnWaits` | xv6-public/proc.c:562-586 | a runnable process at the last level with nothing left stays so, undispatched and not reset, while another runs |
| `Mlfq.WaitsTwice` | xv6-public/proc.c:511-588 | and so over every run, until a boost |
| `Mlfq.Scheduler.constructor` | xv6-public/proc.c:105-112 | the accounts hold at boot, over an empty history |
| `Mlfq.Scheduler.Boost` | xv6-public/proc.c:519-525 | every process returns to the top with a full quantum, and every account starts anew |
| `Mlfq.Scheduler.Demote` | xv6-public/proc.c:532-541 | one queue down, with its quantum, for a used-up quantum above the last queue; the top for a sleeper; nobody else; every account still agrees with the history |
| `Mlfq.Scheduler.Level` | xv6-public/proc.c:544-549 | the highest queue with a runnable process that has quantum left, or K exactly when there is none |
| `Mlfq.Scheduler.Choose` | xv6-public/proc.c:566-572 | highest priority, and the first of it unless the candidate has it |
| `Mlfq.Scheduler.Dispatch` | xv6-public/proc.c:576-585 | whatever the process and the processes it starts did meanwhile, the history gets those starts and one run, and every account agrees with it |
| `Mlfq.Scheduler.Charge` | xv6-public/proc.c:583-584 | one run is charged at the level the process then has |
| `Mlfq.Scheduler.Turn` | xv6-public/proc.c:562-586 | one turn of the dispatching loop, for any behaviour of the process that runs |
| `Mlfq.Scheduler.Pass` | xv6-public/proc.c:562-586 | for any behaviour, the first dispatch is the first process of highest priority of the level; if nobody resets, the loop ends within a bound, and ends with nobody of the level eligible behind the last dispatch; if slot 0 outranks slot 1 and always calls yield2 it does not end in any number of turns, each of them a dispatch of slot 0 and none of slot 1 |
| `Mlfq.Scheduler.Prepare` | xv6-public/proc.c:518-541 | one boost per hundredth tick, then the demotions, and no dispatch; afterwards nobody is without quantum but in the last queue, and who is runnable there without any has had all K*K + 3K runs |
| `Mlfq.Scheduler.Iteration` | xv6-public/proc.c:511-588 | for any behaviour: dispatches if anybody is eligible, first the first of highest priority of the highest queue; ends if nobody yields2 and nobody starts; whoever is runnable with nothing left at the last level is dispatched or reset only after a boost |
| `Mlfq.Scheduler.Interrupt` | xv6-public/proc.c:935-951 | wakeups between iterations touch no account |
| `Mlfq.BoostMakesEligible` | xv6-public/proc.c:551-560 | after the boost of an iteration that found nobody, whoever is runnable is eligible in the next |
| `Mlfq.Scheduler.TwoIterations` | xv6-public/proc.c:511-588 | if anything is runnable, a dispatch happens within two iterations, for any behaviour and any wakeups in between |
| `Mlfq.TurnShrinks` | xv6-public/proc.c:583-584 | a dispatch takes one from the total hold, which is why the cursor may jump back |
| `Mlfq.QuietTurn` | xv6-public/proc.c:576-586 | a dispatch uses up a turn of the bound even if the cursor jumps back |
| `Mlfq.YieldLivelock` | xv6-public/proc.c:631-639 | after yield2 slot 0 is chosen again and comes back as it was, with the cursor behind it again |
| `FreeList.InsertKeepsLinks` | xv6-public/umalloc.c:25-44 | inserting keeps the list circular and in address order with one wrap |
| `FreeList.MergeKeepsTiles` | xv6-public/umalloc.c:33-42 | merging two touching blocks keeps blocks disjoint and tiling |
| `FreeList.MergeKeepsGaps` | xv6-public/umalloc.c:33-42 | and creates no new touching neighbours |
| `FreeList.FreeKeepsInv` | xv6-public/umalloc.c:25-44 | free keeps the list ordered, coalesced and tiling, takes exactly that block from those handed out, and loses no unit |
| `FreeList.FreeDisturbsNothing` | xv6-public/umalloc.c:25-44 | free writes into no block that stays handed out |
| `FreeList.UnlinkKeepsInv` | xv6-public/umalloc.c:81-82 | an exact fit leaves the list whole |
| `FreeList.TailKeepsInv` | xv6-public/umalloc.c:83-87 | cutting off a tail keeps all of it |
| `FreeList.GrowKeepsInv` | xv6-public/umalloc.c:47-61 | fresh memory from sbrk keeps all of it |
| `Umalloc.UnitsSuffice` | xv6-public/umalloc.c:74 | the rounded size holds the request exactly when it is at most 2^32 - 8 bytes |
| `Umalloc.HugeRequestWraps` | xv6-public/umalloc.c:74 | the seven larger requests get a block without payload |
| `Umalloc.AsksForMemory` | xv6-public/umalloc.c:47-56 | sbrk is asked for a positive number of bytes exactly for requests of at most 2^31 - 16 bytes and for the last seven sizes, and for zero bytes exactly in eight sizes below these |
| `Umalloc.GrownUnits` | xv6-public/umalloc.c:52-60 | fresh memory adds exactly its units |
| `Umalloc.WalkEnds` | xv6-public/umalloc.c:79-94 | back at freep, the walk has seen every free block |
| `Umalloc.FreedFits` | xv6-public/umalloc.c:25-44 | a freed block, merged or not, can be handed out again |
| `Umalloc.Allocator.constructor` | xv6-public/umalloc.c:21-22 | nothing is handed out at first |
| `Umalloc.Allocator.Search` | xv6-public/umalloc.c:30-32 | the search from anywhere in the ring ends at the place the block belongs |
| `Umalloc.Allocator.Splice` | xv6-public/umalloc.c:33-42 | the stores make exactly the inserted and merged list |
| `Umalloc.Allocator.Free` | xv6-public/umalloc.c:25-44 | exactly that block stops being live, no unit is lost, no other live block is written |
| `Umalloc.Allocator.Morecore` | xv6-public/umalloc.c:47-61 | 4096 units, or as many as asked for if more, join the heap where sbrk put them, and one block fits the request; when the request to sbrk has become zero or negative, its success gives no memory or takes some away, and nothing is said of the heap |
| `Umalloc.Allocator.Take` | xv6-public/umalloc.c:80-90 | a block of that size not in use, no live block disturbed |
| `Umalloc.Allocator.Malloc` | xv6-public/umalloc.c:64-95 | ends; a block of the rounded size not in use, no live block disturbed; the heap grows exactly when nothing fits, by 4096 units or the rounded size if more; fails exactly when nothing fits and sbrk, asked at most once, fails; ends outside the heap it was given exactly when nothing fits, sbrk succeeds and the request is above 2^31 - 16 bytes and at most 2^32 - 8 |
| `Pipe.CountersExact` | xv6-public/pipe.c:85 | the wrapping full and empty tests agree with the unbounded counts |
| `Pipe.SlotsApart` | xv6-public/pipe.c:93 | bytes in flight never share a slot |
| `Pipe.Ring.constructor` | xv6-public/pipe.c:34-37 | an empty pipe, open at both ends |
| `Pipe.Ring.Put` | xv6-public/pipe.c:93 | one byte stored, those in flight undisturbed |
| `Pipe.Ring.Fill` | xv6-public/pipe.c:84-94 | the loop stores up to the end or a full ring |
| `Pipe.Ring.Get` | xv6-public/pipe.c:116 | the oldest byte in flight |
| `Pipe.Ring.Write` | xv6-public/pipe.c:79-98 | stores exactly as much of the rest as there is room for, in order; ends, fails or sleeps exactly on its condition; leaves sleeping readers beside bytes they could read exactly when it fails with more to write than a whole ring |
| `Pipe.Ring.Read` | xv6-public/pipe.c:101-121 | the bytes read are the next ones stored, as many as asked or there are; sleeps exactly on an empty open pipe |
| `Pipe.Ring.Close` | xv6-public/pipe.c:60-75 | wakes the other side, and frees the pipe exactly when both ends are closed |
| `Pipe.KilledWriterForgetsReader` | xv6-public/pipe.c:85-88 | a killed writer can leave a reader asleep on a full pipe |
| `Grep.HereOne` | xv6-public/grep.c:93-94 | one character of the pattern against one of the text |
| `Grep.HereStar` | xv6-public/grep.c:99-106 | a starred character against every run of it |
| `Grep.MatchHere` | xv6-public/grep.c:85-96 | true exactly when a prefix (all, before a final $) is in the pattern's language |
| `Grep.MatchStar` | xv6-public/grep.c:99-106 | true exactly when some run of the character is followed by a match |
| `Grep.Match` | xv6-public/grep.c:73-82 | true exactly when some substring is in the pattern's language, anchored as ^ and $ say |
| `Grep.PlainMatch` | xv6-public/grep.c:73-96 | without stars a text matches where the pattern is spelled, a dot for any character: anywhere, at the start after ^, at the end before $, or all of it |
| `Grep.StarMatch` | xv6-public/grep.c:99-106 | c* is any run of c before what follows, and .* any run at all |

## Left out

- Hardware and boot code, the assembly files, ide.c, the console and all drivers: the disk is memide.c's, one atomic block write at a time.
- spinlock.c and memory ordering: a critical section of a spin lock is one step, except in SleepLocks, where the two spin locks that sleep lock users take are explicit.
- The byte layout of directory entries: in Inodes a directory is a sequence of entries; reading and writing device inodes is not modelled.
- A userid of 16 characters or more, for which strcpy leaves its field.
- The kernel's ialloc (fs.c:195-227): its search for an inode of type 0 is one more read of the inode blocks.
- The open-file table of file.c, and sysfile.c with its permission branches, whose begin_op and end_op calls are taken to be balanced.
- Interleaving of path walks: one process at a time uses the inode cache, and nobody else holds an inode lock when namex starts. Names are compared after cutting to 14 characters.
- ELF loading, inituvm, loaduvm, switchuvm and the order of exec's other failures: the model of exec begins with the program loaded.
- A process of size 0, for which allocuvm's 0 does not tell success from failure.
- The other schedulers of proc.c, getlev, setpriority, memory limits, the user table and printproclist: settled by reading one branch each.
- More than one CPU under MLFQ, and levels other than 2 to 5.
- Umalloc.Allocator.Malloc: says nothing of the heap after sbrk was asked for nothing or less, for a request above 2^31 - 16 bytes (outcome `Outside`): it may even have shrunk. Addresses count in headers.
- Transactions.Log.Commit: the readers beside it hold their buffers throughout and do not read logged blocks; readers that come and go during the commit are not modelled.
- ExecStack.BuildStack: asks that no single argument string is so long that the stack pointer wraps below zero, which exec and exec2 do not check; a string shorter than the program never is.
- UserSpace.UserMemory.Copyout: asks that the range lies within the pages of the process, so that page tables exist for it.
- Mlfq.Scheduler.Iteration: takes the number of turns it may make, since with yield2 it need not end; without yield2 and new processes `TurnsLeft` is enough, and the first dispatch and the accounts have no such restriction.
- CrashSafety.FilewriteCrash: each transaction of the write commits by itself; when a commit takes several operations together they survive together, which is CrashSafety.GroupIsAtomic.
- Operations that interleave within one group commit: a group is operations one after another.
- Mkfs.Image.Iappend: reports the end of the image, which mkfs does not check.
- Mkfs.Image.Ialloc: asks that an inode is left, which mkfs does not check.
- Files.Fs.Filewrite: the bound on a transaction and the inodes on the disk are for files without holes; whether a write into a hole reaches the disk is Files.Fs.Writei's exact condition.
- Files.Fs.LogWrite: has the panic outside a transaction; the one for a full log is Transactions.Log.LogWrite's.
- Inodes.Icache.Namex: says nothing of the inode cache after a panic.
- sh.c, pmanager.c, printf.c, usertests.c and the small user programs.
- NUL characters: patterns, texts, paths and arguments are sequences without a terminator in them.
