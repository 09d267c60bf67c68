# A verified model of the xv6 cores

This project models the hard cores of three modified copies of the xv6 teaching kernel in Dafny and proves
properties of them. Each core is modelled from one copy: the file system stack, the user heap, the shell, the
pipe, the process table, the sleep lock, the page tables and the matcher from Assignment1, copy-on-write fork
and the bitmap of mkfs from Assignment3. Code that updates its state in place is modelled by classes and loops; the methods are proved
against specification functions or relations, and the main results are lemmas about those.

- **Log** (`LogSpec`, `LogSystem`, `Log`, `LogReservation`). The redo log of log.c. `LogSpec` describes the disk
  after every single block write of a commit and of a recovery. `CrashAtomicity` says that after any run of
  commits, recoveries and power losses, with a crash between any two block writes, recovery gives exactly the home
  blocks that the committed groups define. `LogSystem` puts the cache on top: every run of begin_op, bread, stores,
  log_write, brelse, end_op and the single block writes of a commit, with readers and power losses anywhere, is a run
  of one atomic disk, and whenever power fails, recovery shows what the cache showed when the last committed group of
  operations ended (`CrashSafety`). `Log` is the code on the buffer cache; its methods are proved to issue exactly
  those writes and to be runs of those actions.
  `LogReservation` is the space accounting of begin_op, log_write and end_op with any number of interleaved
  operations and the capacity check outside the lock.
- **Buffer cache** (`BufferCache`). The circular doubly linked list of bio.c as pointers in an array, and its
  agreement with the disk: a dirty or referenced buffer is never recycled, and no block is in two buffers.
- **Files** (`FsSpec`, `FsInode`, `FsJournal`, `FileSystem`, `FsImage`, `File`, `ChunkLog`). Bitmap allocation, inode
  blocks, block maps, readi, writei, itrunc and filewrite. Every block has one owner; file contents are byte
  sequences; every store is logged; which free blocks a write takes and when it fails for lack of them is exact; and
  the blocks that a transaction logs are known one by one.
- **From mkfs to recovery** (`Mkfs`, `FsCrash`). The blocks alone are the file system: `Mkfs.Make` says when the image
  that mkfs makes is sound, a transaction of the file system is a run of log and cache (`FsCrash.TransactionRuns`),
  and after a power loss at any block write recovery gives a sound file system with the files of the last committed
  group (`FsCrash.CrashKeepsFileSystem`).
- **Links** (`LinkSpec`, `LinkInvariant`, `Links`). Directory entries and link counts of sysfile.c, exact over all
  interleavings if and only if no entry is made in a directory that has been unlinked.
- **Heap** (`HeapSpec`, `Heap`). The K&R allocator of umalloc.c.
- **Page tables** (`PrivatePages`, `PageSpec`, `PageCost`, `Vm`) and **copy-on-write** (`CopyOnWrite`). Page ownership in
  Assignment1 and reference-counted frames in Assignment3. Both copyuvm functions are proved to have the same
  effect on what processes see, `PrivatePages.EagerFork`.
- **Shell** (`ShellSpec`, `ShellRoundTrip`, `Shell`). The parser of sh.c: it accepts exactly the lines of a grammar and
  gives each line its command tree, down to the C strings in the buffer.
- **Pipe**, **SleepLock**, **ProcTable**. The pipe with wrapping counters, the sleep lock step by step, and
  fork, exit and wait.
- **Grep**. The matcher of grep.c against the language of its patterns.

Hypotheses that the proofs carry: the log has at most NBUF blocks and its header has the geometry mkfs gives it
(for the reservation result, nlog is LOGSIZE); logged blocks lie outside the log; the file system starts as
mkfs of Assignment1 makes it, with a root directory that has no hole (`Mkfs.Make`); block writes are atomic.
Locks are taken as atomic steps.

Where the code and its comments disagree, the model follows the code:

- param.h calls LOGSIZE the number of data blocks in the log, but log_write refuses a block at
  `log.size - 1`, so the log holds 29.
- MAXOPBLOCKS is described as the number of blocks an operation may write; with ten distinct blocks an operation
  can reach the panic "too big a transaction". Nine is the exact limit (`LogReservation.ReservationExact`).
- filewrite is said to choose its chunks so that a transaction fits the log. With up to three bitmap blocks it does;
  with four there is a file system in which a chunk logs ten blocks (`ChunkLogs.SomeChunkLogsTen`), one above the exact
  limit. It does so exactly if it takes four free blocks for four file blocks and the four lowest free blocks have
  their bits in four different bitmap blocks (`Files.ChunkFootprint`).
- mkfs of Assignment3 writes the bitmap from block 2 on, which is a swap block there; the superblock says that the
  bitmap is elsewhere. The image is then no consistent file system (`Mkfs.Maker.FinishAt`).
- mkfs rounds the size of the root directory up to the next block even if its entries fill whole blocks; the
  directory then has a hole, and the image is sound exactly if the number of entries is no multiple of 32
  (`Mkfs.Make`).
- link and create make entries in directories that have been unlinked; the link counts are wrong from then on
  (`LinkInvariant.OrphanRun`).
- A killed writer that fills a pipe does not wake the sleeping readers (`Pipes.Pipe.Write` says exactly when).

## Model

| member | source | states |
|---|---|---|
| Blocks.GetPut | Assignment1/log.c:101-113 | a word stored in a block reads back, and every other word is unchanged |
| Blocks.WordBytes | Assignment1/log.c:101-113 | a word lies in its four bytes with the lower ones first |
| Disks.Disk.Write | Assignment1/memide.c:38-60 | one atomic block write, recorded in the trace of disk images |
| BufferCaches.BufferCache.constructor | Assignment1/bio.c:38-56 | binit: all buffers are of device 0 and linked in one ring, and the cache shows the disk |
| BufferCaches.BufferCache.Bget | Assignment1/bio.c:58-93 | up to acquiresleep: one more reference to the block in its buffer, or the least recently used buffer that is neither referenced nor dirty recycled, empty and with one reference; fails exactly when the block is not cached and there is no such buffer |
| BufferCaches.BufferCache.Lookup | Assignment1/bio.c:68-76 | the first loop finds the block exactly when it is cached |
| BufferCaches.BufferCache.Victim | Assignment1/bio.c:78-91 | the second loop finds the free clean buffer that was released longest ago, exactly when there is one |
| BufferCaches.BufferCache.Fill | Assignment1/bio.c:101-104 | a locked buffer without data gets the block from the disk, and one with data keeps it; either way it shows what was last stored |
| BufferCaches.BufferCache.Bread | Assignment1/bio.c:95-106 | a bread that need not wait: the held buffer has the last value given to the block, from the cache or the disk, and no other held buffer changes |
| BufferCaches.BufferCache.CleanView | Assignment1/bio.c:95-116 | a block that is neither pinned nor held is on the disk as the cache shows it |
| BufferCaches.BufferCache.Pin | Assignment1/log.c:230-231 | a logged buffer stays in the cache until it is written |
| BufferCaches.BufferCache.Bwrite | Assignment1/bio.c:108-116 | one block of the disk takes the value of the buffer, and the buffer is clean |
| BufferCaches.BufferCache.Brelse | Assignment1/bio.c:118-141 | one reference less; the buffer comes first in the ring, with all others in their order, exactly if no other process waits for it; what the cache shows does not change, provided a changed buffer was logged or written |
| BufferCaches.BufferCache.MoveToHead | Assignment1/bio.c:130-137 | the six pointer assignments do the splice |
| BufferCaches.SpliceMovesToFront | Assignment1/bio.c:130-137 | the splice keeps one doubly linked ring through all buffers, in the old order with the released buffer in front |
| BufferCaches.RoomForOneMore | Assignment1/bio.c:78-92 | while fewer than NBUF blocks are pinned, held or waited for, bget does not panic |
| LogSpec.HeaderRoundTrip | Assignment1/log.c:84-113 | the header block that write_head makes is read back by read_head as the same list of blocks |
| LogSpec.InstallOverPartial | Assignment1/log.c:68-82 | installing over any partial installation of the same group gives the same home blocks |
| LogSpec.HeaderCommits | Assignment1/log.c:192-202 | once the header is written, installing from the log gives exactly the group applied to the old home blocks |
| LogSpec.CommitCrash | Assignment1/log.c:176-202 | whatever number of block writes of a commit reached the disk, recovery gives the old home blocks before the header write and the whole group after it |
| LogSpec.CommitCompletes | Assignment1/log.c:192-202 | a commit that completes leaves an empty log and the group installed |
| LogSpec.RecoverCrash | Assignment1/log.c:115-122 | recovery interrupted after any number of its writes can be started again with the same result |
| LogSpec.StepRefines | Assignment1/log.c:68-122 | one commit, recovery or power loss of the machine is one atomic step, or none, of the abstract disk |
| LogSpec.RunRefines | Assignment1/log.c:68-122 | every run of the machine refines a run of the abstract atomic disk |
| LogSpec.CrashAtomicity | Assignment1/log.c:68-202 | after any run with crashes between any two block writes, also inside recovery, the recovered home blocks are those of the groups whose header write completed |
| LogSystems.GroupShowsView | Assignment1/log.c:176-202 | logging the blocks at which cache and disk differ makes the disk what the cache shows |
| LogSystems.CommitIsAtomic | Assignment1/log.c:192-202 | recovery after any number of block writes of a commit gives the old home blocks, or exactly what the cache showed, the latter from the header write on |
| LogSystems.WriteIsNext | Assignment1/log.c:176-202 | copying one block through the cache is the next write of the specified commit, and stores in a home block what the cache shows of it |
| LogSystems.WriteKeepsView | Assignment1/log.c:68-82 | what the cache shows of the home blocks is the same after every single block write of a commit |
| LogSystems.ActionRefines | Assignment1/log.c:124-233 | each begin_op, bread, store, log_write, brelse, end_op, single block write of a commit, power loss and recovery is one action of the atomic disk; readers outside any operation may hold buffers all the time |
| LogSystems.BehaviourRefines | Assignment1/log.c:115-233 | at every moment of every run, also between the block writes of a commit while others read, log and cache together are the atomic disk |
| LogSystems.CrashSafety | Assignment1/log.c:115-233 | whenever power fails in any run, recovery shows what the cache showed when the last committed group of operations ended, and nothing later |
| LogSystems.IdleIsCommitted | Assignment1/log.c:143-174 | when no operation runs, no commit is under way and no held buffer is modified, a power loss takes nothing away |
| LogSystems.UpdateRuns | Assignment1/log.c:204-212 | inside a transaction with room in the log, bread, a store, log_write and brelse are a run of those four actions |
| LogSystems.EndRuns | Assignment1/log.c:143-174 | end_op in one piece, with readers that are not in its way, is a run of end_op and all block writes of its commit |
| Logs.Log.CopyBlock | Assignment1/log.c:73-81 | one turn of either copy loop: the target block gets the source block on the disk and in the cache, with one block write |
| Logs.Log.WriteHead | Assignment1/log.c:98-113 | a single block write: word 0 of the header is the number of blocks, the next words are the blocks, and every other block of the disk stays |
| Logs.Log.FillHeader | Assignment1/log.c:104-110 | the assignment loop stores the number of blocks and then the blocks, word by word |
| Logs.Log.LoadHeader | Assignment1/log.c:88-94 | the assignment loop takes the number of blocks and then the blocks from the words of the header |
| Logs.Log.ReadHead | Assignment1/log.c:84-96 | the list in memory becomes the one on the disk |
| Logs.Log.WriteLog | Assignment1/log.c:176-190 | block j of the group is in log block j + 1 as the cache shows it, no other block of the disk changes, and the writes are the ones of the trace |
| Logs.Log.InstallTrans | Assignment1/log.c:68-82 | the writes to the home blocks are the ones of the trace, and every pinned buffer is clean afterwards |
| Logs.InstalledMeans | Assignment1/log.c:68-82 | after install_trans every block of the group is at home with the contents of its log block, and no other block of the disk has changed |
| Logs.RecoveredMeans | Assignment1/log.c:115-122 | after recovery the blocks that the header listed are at home with the contents of their log blocks, the header lists none, and no other block has changed |
| Logs.Log.Commit | Assignment1/log.c:192-202 | the disk images left behind by the code are, write by write, those of the crash specification; recovery from each of them gives the old home blocks or what the cache showed; in the end the home blocks on the disk are what the cache showed and the header lists none; and readers of other blocks keep their buffers |
| Logs.Log.RecoverFromLog | Assignment1/log.c:115-122 | the disk images are, write by write, those of the crash specification, the header lists no block at the end, blocks outside the group stay, and the call is the recovery of the specification |
| Logs.Log.BeginOp | Assignment1/log.c:124-141 | an operation starts exactly when no commit is running and its full reservation still fits, as the action of the specification |
| Logs.Log.EndOp | Assignment1/log.c:143-174 | the last outstanding operation commits everything logged, atomically under crashes, and any other changes nothing but the count; either way it is a run of the actions of the specification |
| Logs.Log.LogWrite | Assignment1/log.c:204-233 | the block is in the group once and its buffer is pinned, or the call panics exactly when the list is full or no operation is outstanding; the disk is not written; it is the action of the specification |
| Logs.Log.ReadBlock | Assignment1/fs.c:30-39 | bread and brelse give what was last stored in the block and change nothing |
| Logs.Log.UpdateBlock | Assignment1/fs.c:41-51 | bread, a store, log_write and brelse are a run of the four actions of the specification, or panic exactly when the log is full |
| LogReservation.RunKeepsInv | Assignment1/log.c:124-174 | the accounting invariant holds along every run of interleaved operations |
| LogReservation.CommitRunsAlone | Assignment1/log.c:124-174 | in every reachable state, whatever the operations log, nothing is outstanding during a commit, the group has no duplicates, and it holds every logged block |
| LogReservation.GroupInBounds | Assignment1/log.c:213-233 | while operations keep their reservation, block[] is never overrun, although the check is outside the lock |
| LogReservation.BoundsExact | Assignment1/log.c:213-233 | for every limit on the distinct blocks of an operation: block[] is never overrun if and only if the limit is at most MAXOPBLOCKS |
| LogReservation.ReservationSuffices | Assignment1/log.c:213-233 | with fewer than MAXOPBLOCKS distinct blocks for each operation the panic is unreachable, and no append leaves block[], although the check is outside the lock |
| LogReservation.FullReservationPanics | Assignment1/log.c:218-219 | with ten distinct blocks for each operation a run reaches the panic |
| LogReservation.ReservationExact | Assignment1/log.c:124-141 | for every limit on the distinct blocks of an operation: the panic is unreachable if and only if the limit is below MAXOPBLOCKS |
| LogReservation.FootprintsSuffice | Assignment1/log.c:124-233 | operations that log only blocks of known footprints below MAXOPBLOCKS never reach the panic, in any interleaving |
| FsSpec.PutBitBits | Assignment1/fs.c:66-68 | setting or clearing the bit of a block changes the bit of no other block |
| FsSpec.BitOnDisk | Assignment1/fs.c:62-68 | the bit of a block is in the bitmap block and byte that its number says, the lowest bit of a byte first |
| FsSpec.FileOnDisk | Assignment1/fs.c:373-403 | byte k of a file is byte k % 512 of block k / 512, which is in addrs for the first twelve and in the words of the indirect block, in order, for the others |
| FsSpec.LinkDirect | Assignment1/fs.c:381-385 | storing a fresh block in addrs keeps every block with one owner and changes one reference |
| FsSpec.LinkIndirect | Assignment1/fs.c:388-399 | storing a fresh block in the indirect block keeps every block with one owner and changes one reference of one inode |
| FsSpec.UntouchedContent | Assignment1/fs.c:456-480 | a file whose blocks were not written has the same contents |
| FsSpec.WroteStep | Assignment1/fs.c:499-505 | one turn of the loop of writei adds exactly the bytes of one block to what is written |
| FsSpec.WroteAll | Assignment1/fs.c:499-514 | when the loop is done and the size updated, the file is the old one with the bytes spliced in |
| FsSpec.NeededSplit | Assignment1/fs.c:373-403 | mapping a range of file blocks in two overlapping or adjacent steps takes as many free blocks as in one |
| FsSpec.SpliceTwice | Assignment1/file.c:133-152 | two adjacent splices are one splice of both pieces |
| FsInodes.GetPutInode | Assignment1/fs.c:222-233 | an inode written to its 64 bytes of an inode block reads back field by field, and the other inodes of the block are as before |
| FsInodes.InodeBytes | Assignment1/fs.h:28-37 | entry k of an inode block is the struct dinode in its 64 bytes: type, major, minor and nlink in two bytes each, size and the 13 block numbers in four, the lower bytes first |
| FsInodes.InodeOnDisk | Assignment1/fs.h:39-43 | inode i is entry i % 8 of block inodestart + i / 8 |
| FsInodes.StoredUpdate | Assignment1/fs.c:216-234 | iupdate changes one entry of the table of inodes that the inode blocks hold |
| FsInodes.InodeWriteOwned | Assignment1/fs.c:216-234 | writing an inode block changes no bit, no owner of a block and no file content |
| FsJournal.LoggedByMore | Assignment1/fs.c:499-505 | writing a range of file blocks one by one logs the same blocks as the range at once, balloc taking the lowest free blocks each time |
| FsJournal.LoggedBySize | Assignment1/fs.c:482-515 | bitmap blocks, data blocks, indirect block and inode block of a write are all different, so their numbers add up |
| FileSystems.FileSystem.Balloc | Assignment1/fs.c:55-78 | the lowest free block, its bit set and its bytes zero, with both writes logged; out of blocks exactly when none is free |
| FileSystems.FileSystem.FindFree | Assignment1/fs.c:63-77 | the two loops find the lowest clear bit below the size of the disk, exactly when there is one |
| FileSystems.FileSystem.Bzero | Assignment1/fs.c:41-51 | the fresh block is zero and logged, and no file changes |
| FileSystems.FileSystem.Bmap | Assignment1/fs.c:373-403 | the block of the file at this index, allocated with its indirect block if it was missing; it takes exactly the lowest free blocks, as many as are needed, logs exactly what belongs to them, and fails exactly when the index is too large or they are not there |
| FileSystems.FileSystem.MapDirect | Assignment1/fs.c:380-391 | an entry of addrs, allocated if it is empty |
| FileSystems.FileSystem.MapEntry | Assignment1/fs.c:392-399 | an entry of the indirect block, allocated if it is empty |
| FileSystems.FileSystem.AllocDirect | Assignment1/fs.c:380-391 | a zeroed block of its own for a direct entry or for the indirect block, with all other references as before |
| FileSystems.FileSystem.AllocEntry | Assignment1/fs.c:392-399 | a block of its own for an entry of the indirect block |
| FileSystems.FileSystem.StoreEntry | Assignment1/fs.c:394-397 | the entry takes the number of the fresh block, every other reference stays, and the indirect block is logged |
| FileSystems.FileSystem.Ilock | Assignment1/fs.c:287-315 | every field of the inode in memory is read from its bytes in the inode block and is the one that the file system has there; a free inode is the panic |
| FileSystems.FileSystem.Iupdate | Assignment1/fs.c:216-237 | the bytes of the inode block hold the inode in memory and all others as before; that block is logged |
| FileSystems.FileSystem.StoreChunk | Assignment1/fs.c:499-505 | one turn of the loop of writei, with exactly the free blocks that it takes, the references that it changes and the blocks that it logs |
| FileSystems.FileSystem.WriteChunks | Assignment1/fs.c:499-505 | the whole loop: all bytes are in the file, no other file is touched, it fails exactly when the blocks it needs are not free, it takes the lowest free blocks, and exactly the data blocks, the bitmap blocks of the new ones and the indirect block are logged |
| FileSystems.FileSystem.Writei | Assignment1/fs.c:482-515 | a write at most at the end of the file and within the maximal size is accepted: every byte of the file is the new one in the range and the old one elsewhere, and the size is the larger of the two ends; it fails exactly when it needs more blocks than are free; a refused one changes nothing; every other file keeps its contents, every changed block is logged, and the set of blocks that the call logs and its size are exact |
| FileSystems.FileSystem.Readi | Assignment1/fs.c:453-480 | exactly the bytes asked for, clipped at the end of the file; nothing is allocated or written |
| FileSystems.FileSystem.Bfree | Assignment1/fs.c:80-95 | clears one bit, and panics exactly when it is clear already |
| FileSystems.FileSystem.FreeSlot | Assignment1/fs.c:416-431 | one block of the inode is freed in its turn, and the panic "freeing free block" does not happen |
| FileSystems.FileSystem.Itrunc | Assignment1/fs.c:405-438 | exactly the blocks of the inode are freed, its contents are empty, every other file keeps its contents, and only bitmap blocks and the inode block are logged, each changed one among them |
| FileSystems.FileSystem.QuietIsSound | Assignment1/fs.c:287-315 | between operations the whole file system is sound whichever inode is locked next |
| FsImages.BitmapExact | Assignment1/fs.c:53-95 | a bit is set if and only if the block is metadata or referenced, and a block is referenced from exactly one place |
| FsImages.OwnedExactly | Assignment1/fs.c:53-95 | every block can be given one owner if and only if bitmap and references are consistent |
| Mkfs.Maker.constructor | Assignment1/mkfs.c:93-116 | an image of zeros with the superblock is the empty table of inodes |
| Mkfs.Maker.Ialloc | Assignment1/mkfs.c:222-235 | the next inode is in its inode block with its type, one link, size 0 and no blocks, and no other inode changes |
| Mkfs.Maker.MapBlock | Assignment1/mkfs.c:270-287 | the block of the file at this index, counted up from freeblock with its indirect block if it was missing; every block still has one owner |
| Mkfs.Maker.Iappend | Assignment1/mkfs.c:256-298 | the bytes are at the end of the file, the rest of its last block is zero, and no other file changes; freeblock grows by exactly what is needed; the assertion on the file size fires exactly when the file would get too large |
| Mkfs.Maker.AddFile | Assignment1/mkfs.c:134-156 | one file of the host has a new inode of type 2 with one link and its bytes; the root directory gets 16 bytes, the inode number with its lower byte first and the name; no other file changes; it goes through exactly when neither gets too large and the blocks last |
| Mkfs.Maker.MakeRoot | Assignment1/mkfs.c:117-128 | inode 1 is a directory whose 32 bytes are the entries "." and ".." for inode 1; it takes one block |
| Mkfs.NeedsTidy | Assignment1/mkfs.c:269-287 | how many blocks an append takes depends on the old and the new size only |
| Mkfs.MarkBits | Assignment1/mkfs.c:246-249 | the loop sets the bits of exactly the first blocks |
| Mkfs.Maker.Finish | Assignment1/mkfs.c:158-165 | after the rounding of the root directory and the bitmap, the image is sound if and only if the entries do not fill whole blocks |
| Mkfs.Make | Assignment1/mkfs.c:118-168 | mkfs goes through exactly if no file and not the root directory is too large and all blocks fit the image and one bitmap block. File k of the command line is then inode 2 + k, of type 2 with one link and its bytes; inode 1 is a directory whose bytes are "." and ".." for inode 1 and, 16 bytes from 16 * (k + 2) on, the number 2 + k, below 2^16, with its lower byte first and the name of file k; the other slots of its last block are empty; and the image is a sound file system if and only if the number of entries is no multiple of 32 |
| Mkfs.LogIsEmpty | Assignment1/mkfs.c:110-115 | the log of that image is empty |
| Mkfs.Maker.FinishAt | Assignment3/mkfs.c:210-217 | with the bitmap written from its place or from somewhere before the inode blocks on: the image is sound if and only if it is its place and the root directory has no hole |
| Mkfs.MisplacedBitmap | Assignment3/mkfs.c:303-330 | a bitmap written below its place leaves an image that is no consistent file system |
| FsCrash.SoundAtHome | Assignment1/fs.h:8-30 | whether a disk holds a sound file system, and which files, does not depend on the blocks of the log |
| FsCrash.SoundIsOnDisk | Assignment1/fs.c:287-315 | between operations the blocks of the running file system alone are a sound file system |
| FsCrash.TransactionRuns | Assignment1/log.c:204-233 | the changes of a transaction of the file system, with its calls of log_write, are a run of log and cache |
| FsCrash.CrashKeepsFileSystem | Assignment1/log.c:115-202 | whenever power fails, at any block write of a commit or a recovery, recovery gives a sound file system with the files that the last committed group left, as long as every group leaves a sound one |
| FsImages.RootRounding | Assignment1/mkfs.c:158-163 | the rounded root directory has no hole if and only if its entries do not fill whole blocks |
| Files.ChunkNeeds | Assignment1/file.c:127-141 | a chunk takes at most four free blocks and lies in at most four file blocks, aligned or not |
| Files.File.WriteChunk | Assignment1/file.c:133-152 | one transaction of filewrite, from begin_op to end_op: it logs every block that it changes, and the number of blocks that it logs is exact |
| Files.File.Filewrite | Assignment1/file.c:115-156 | the chunks together store exactly the bytes that fit below the maximal file size, for any length and alignment, and every other byte of the file stays; it fails exactly when they need more blocks than are free; and how many blocks each of its transactions logs is exact |
| Files.ChunkFootprint | Assignment1/file.c:127-136 | a chunk logs at most ten blocks, and ten exactly if it takes four free blocks for four file blocks whose bits are in four bitmap blocks |
| ChunkLogs.FilewriteFitsLog | Assignment1/file.c:127-152 | the transactions that calls of filewrite made, interleaved in any way, never reach the panic of log_write, if none is such a chunk |
| ChunkLogs.SmallDisk | Assignment1/file.c:127-136 | with up to three bitmap blocks no chunk is |
| ChunkLogs.Realize | Assignment1/fs.c:53-95 | every assignment of blocks to slots of inodes is the state of some disk |
| ChunkLogs.SomeChunkLogsTen | Assignment1/file.c:127-136 | there is a sound file system with four bitmap blocks in which a chunk logs ten blocks |
| LinkSpec.TotalSet | Assignment1/fs.c:554-582 | changing one directory changes the total of entries for an inode by the difference in that directory |
| LinkInvariant.StepKeepsInv | Assignment1/sysfile.c:142-307 | every section of link, unlink and create that makes no entry in an unlinked directory keeps counts, names and parent entries right |
| LinkInvariant.OrphanEntryBreaks | Assignment1/sysfile.c:168-175 | an entry made in an unlinked directory makes a count wrong or a directory ill formed, always |
| LinkInvariant.StepExact | Assignment1/sysfile.c:142-307 | a section keeps everything right if and only if it makes no entry in an unlinked directory |
| LinkInvariant.RunExact | Assignment1/sysfile.c:142-307 | a whole interleaved run stays right if and only if no section makes an entry in an unlinked directory |
| LinkInvariant.OrphanRun | Assignment1/sysfile.c:265-307 | mkdir, rmdir of the current directory and create in it: the file has a link count of 1 and no linked directory names it |
| LinkInvariant.UnlinkDirCounts | Assignment1/sysfile.c:237-253 | a removable directory has link count 1 and its parent at least 2, so the two decrements leave exact counts |
| LinkInvariant.OnlyEntry | Assignment1/sysfile.c:191-205 | an empty directory is named by one entry only, its own "." apart |
| LinkInvariant.LinkCountsExact | Assignment1/sysfile.c:142-307 | over all interleavings without such entries nlink is the number of entries other than "." in linked directories plus the links under way, names are unique, and no entry names a free inode |
| LinkInvariant.StepsCommute | Assignment1/sysfile.c:157-188 | every section of another call does the same whether or not a link call has raised the count |
| LinkInvariant.RaisedStays | Assignment1/fs.c:327-355 | an inode whose count a link call has raised is not freed |
| LinkInvariant.FailedLinkRestores | Assignment1/sysfile.c:164-188 | a link call that fails leaves no trace, whatever sections of other calls come between its two: without it they lead to the same state |
| Links.Tree.DirLookup | Assignment1/fs.c:526-552 | finds an entry with the name exactly when there is one |
| Links.Tree.DirLink | Assignment1/fs.c:554-582 | adds the entry in the first empty slot or at the end, exactly when the name is new |
| Links.WithEntryMeans | Assignment1/fs.c:563-580 | the entry goes into the first slot with inode number 0, or behind the last one, and every other slot stays |
| Links.Tree.IsDirEmpty | Assignment1/sysfile.c:191-205 | true exactly when all slots after the first two are empty |
| Links.Tree.FindFree | Assignment1/fs.c:190-214 | a free inode, exactly when there is one |
| Links.Tree.BeginLink | Assignment1/sysfile.c:157-166 | raises the count of anything but a directory |
| Links.Tree.EndLink | Assignment1/sysfile.c:168-188 | writes the entry, or lowers the count again; the counts stay right exactly if the parent is still linked or the call fails |
| Links.Tree.Link | Assignment1/sysfile.c:141-189 | succeeds exactly for a non-directory and a new name in a directory, and otherwise changes nothing; the counts stay right exactly if the parent is still linked or it fails |
| Links.Tree.Unlink | Assignment1/sysfile.c:207-263 | in any directory, succeeds exactly when the name is there, is not "." or "..", and is not a directory with entries of its own; the entry is empty, its inode has one link less, and the parent of a removed directory too; the panic on nlink is unreachable |
| Links.Tree.MakeNode | Assignment1/sysfile.c:284-301 | the new inode has the type asked for, one link, and no entries or exactly "." for itself and ".." for the parent; the parent has the entry and one link more exactly for a directory; no other inode changes; and neither panic of create can happen |
| Links.Tree.Create | Assignment1/sysfile.c:265-307 | in any directory, the first free inode exactly for a new name if there is one: it has the type asked for, one link and no entries, or "." and ".." for a directory, and no other inode changes but the parent; an existing name is opened exactly if it names a file and a file is wanted, and is refused otherwise, without a change; the counts stay right exactly if the directory is still linked or nothing is made |
| Links.Tree.Iput | Assignment1/fs.c:327-355 | an inode is freed exactly when its link count is zero and this was its last use |
| HeapSpec.FreeOk | Assignment1/umalloc.c:24-44 | the list stays circular, in address order and without adjacent free blocks, and only the freed block changes hands |
| HeapSpec.FreedLeavesOthers | Assignment1/umalloc.c:24-44 | no word of another live block is written by free |
| HeapSpec.TakeWhole | Assignment1/umalloc.c:76-78 | taking a whole block keeps the list and the partition of memory |
| HeapSpec.TakeTail | Assignment1/umalloc.c:79-83 | taking the tail of a block keeps the list and the partition of memory |
| HeapSpec.GrowOk | Assignment1/umalloc.c:46-61 | new memory is one more live block until it is freed into the list |
| Heaps.RoomExact | Assignment1/umalloc.c:69 | the units allocated have room for the bytes asked for, and less than one unit more, if and only if the rounding did not wrap in 32 bits; if it did, there is the header only |
| Heaps.SbrkExact | Assignment1/umalloc.c:53 | morecore asks sbrk for the bytes of the block if and only if they are below 2^31; above, the argument is not positive and the heap shrinks |
| Heaps.Heap.Free | Assignment1/umalloc.c:24-44 | the block is free and merged with its neighbours, no live block is touched, and freep is the last node before the block |
| Heaps.Heap.Search | Assignment1/umalloc.c:30-32 | the loop ends at the place in address order, also across the wrap of the list |
| Heaps.Heap.Relink | Assignment1/umalloc.c:33-42 | the assignments do the two merges or links |
| Heaps.Heap.Morecore | Assignment1/umalloc.c:46-61 | the list gains exactly the units from sbrk, 4096 at least, and has a fit, also when the new block merged with freep; a refusal changes nothing |
| Heaps.Heap.Malloc | Assignment1/umalloc.c:63-90 | terminates, for every size unless it needs 2^31 bytes or more of new memory; succeeds exactly when a block fits or sbrk grants memory; the block that is cut is the first one that fits after freep, its end is the result, and freep is its predecessor; the result is a new block of the right size and no live block is touched |
| Heaps.Heap.NextFit | Assignment1/umalloc.c:74-89 | the loop takes the end of the first block that fits, if there is one, and otherwise uses morecore successfully at most once and finds a fit within one lap |
| Heaps.LapCovers | Assignment1/umalloc.c:74-89 | a full lap from any node has looked at every node |
| Heaps.Heap.Take | Assignment1/umalloc.c:75-85 | the end of the block, which is all of it if the size is exact, and freep is the node before it |
| Heaps.Heap.Store | Assignment1/umalloc.c:84 | whatever a program stores in its blocks, the heap stays well formed |
| Heaps.Heap.UnitsPartitioned | Assignment1/umalloc.c:24-90 | no unit is in two blocks, and every unit from sbrk is in a free or a live one |
| PageSpec.PagesPartitioned | Assignment1/kalloc.c:59-95 | free pages, directories, tables and user pages are disjoint and are all the pages; no page is mapped twice |
| PageTables.SkipExact | Assignment1/vm.c:264-268 | the skip of an absent directory entry lands on the last page of that entry, without wrapping, for all addresses below KERNBASE |
| PageTables.SkippedDirectory | Assignment1/vm.c:264-268 | the skip passes no page that is mapped |
| PageTables.GrownThenFreed | Assignment1/vm.c:342-345 | a directory that is built and freed again restores the owner of every page |
| PageTables.NewDirectoryGone | Assignment1/vm.c:284-298 | freevm of a new directory leaves no trace of it |
| PageTables.Memory.Kalloc | Assignment1/kalloc.c:79-95 | the first free page, exactly when there is one |
| PageTables.Memory.Kfree | Assignment1/kalloc.c:55-77 | the page is free and filled with ones, and what processes see is unchanged |
| PageTables.Memory.Walk | Assignment1/vm.c:32-55 | there is a table for the page, exactly when there was one or it may be made and a page is free; a new one is the first free page, zeroed |
| PageTables.Memory.MapPage | Assignment1/vm.c:57-80 | one user page is mapped with the permissions asked for, exactly when its table is there or a page is free for it; otherwise nothing that a process sees has changed |
| PageTables.Memory.Deallocuvm | Assignment1/vm.c:251-279 | exactly the pages above the new size are unmapped, their frames become free, no other frame changes hands, and the other entries stay |
| PageTables.Memory.Freevm | Assignment1/vm.c:281-298 | exactly the frames of the directory become free, each once, and all entries of other directories stay |
| PageTables.Memory.Allocuvm | Assignment1/vm.c:219-249 | each page of the new range is mapped writable for the user and zero, and all others stay, exactly when there are free pages for them and for the missing tables; otherwise a result of 0 and exactly the mapping that there was |
| PageTables.Memory.Setupkvm | Assignment1/vm.c:117-136 | a directory without user pages, exactly when there are free pages for it and for every table of the rows of kmap; otherwise every owner as it was |
| PageTables.Memory.MapRow | Assignment1/vm.c:129-134 | one row of kmap takes exactly the tables that are missing and changes nothing that a process sees; it fails exactly for lack of pages |
| PageTables.Memory.Copyuvm | Assignment1/vm.c:313-345 | each page of the child has the bytes and the permissions of the page of the parent in a frame of its own, and all others stay, exactly when there are free pages for the copies, the directory and its tables; otherwise every page is back with its owner |
| PrivatePages.DropChild | Assignment1/vm.c:342-345 | taking the pages of the child away again undoes the eager fork |
| PrivatePages.ForkMeans | Assignment1/vm.c:313-340 | in the eager fork each page of the child holds what that page of the parent holds, and all other pages stay |
| CopyOnWrite.RefIsMappings | Assignment3/kalloc.c:65-100 | the reference count of a mapped frame is its number of mappings, and a writable mapping is the only one |
| CopyOnWrite.WritableAlone | Assignment3/vm.c:506-541 | a writable page has a frame with count 1 that no other entry maps |
| CopyOnWrite.Kernel.FreeRangePage | Assignment3/kalloc.c:131-143 | a page enters the free list and nothing that a process sees changes |
| CopyOnWrite.Kernel.Kfree | Assignment3/kalloc.c:154-191 | the count drops, and the frame is freed and filled with ones only with its last mapping |
| CopyOnWrite.Kernel.Kalloc | Assignment3/kalloc.c:200-249 | the first free frame, mapped by no one, with count 1 |
| CopyOnWrite.Kernel.Cowalloc | Assignment3/vm.c:506-541 | the page becomes writable for this process alone, in the first free frame if its own was shared, and every process sees what it saw; it fails exactly when the frame is shared and memory is exhausted |
| CopyOnWrite.Kernel.Store | Assignment3/vm.c:464-503 | a store through the fault handler changes one page of one process, as with private pages; it fails exactly when the page is write-protected, shared, and memory is exhausted |
| CopyOnWrite.Kernel.Deallocuvm | Assignment3/vm.c:280-308 | exactly the pages of the range disappear, and frames that others share stay |
| CopyOnWrite.Kernel.Freevm | Assignment3/vm.c:316-334 | all pages of the process disappear, and no other process sees a change |
| CopyOnWrite.Kernel.Allocuvm | Assignment3/vm.c:236-268 | each page of the range is mapped writable for the user, in a zeroed frame with count 1, and all other entries stay, exactly when there are frames for them and mappages does not fail; otherwise exactly the pages that there were |
| CopyOnWrite.Kernel.Copyuvm | Assignment3/vm.c:356-397 | what processes see after fork is what the eager copy gives; each entry of the child is that of the parent, both read-only, and all other entries stay; a failing fork changes nothing they see |
| CopyOnWrite.Kernel.SharePage | Assignment3/vm.c:366-388 | one shared page: both entries are read-only, the count rises, and the child sees the page of the parent |
| ShellRoundTrip.RoundTrip | Assignment1/sh.c:390-509 | for every line of the grammar, with any redirections among the words of a command or behind a block and any blanks between the tokens: parsing succeeds if and only if no command has more than nine words, and gives its command tree, each redirection around everything before it |
| ShellRoundTrip.Language | Assignment1/sh.c:390-509 | on every input: the parser accepts exactly the spellings of lines of the grammar whose commands have at most nine words, and gives the tree of the line |
| ShellRoundTrip.ReadLine | Assignment1/sh.c:407-509 | wherever the tokens of a line of the grammar stand, up to the end or a closing parenthesis, parsing gives its tree, or panics exactly if a command has too many words |
| ShellRoundTrip.LineRead | Assignment1/sh.c:407-509 | whatever the parser accepts from some position on is a line of the grammar that fits |
| ShellRoundTrip.ReadSimple | Assignment1/sh.c:478-509 | a command of words and redirections in any order is the EXEC of the words in order, inside the redirections in order, the first innermost |
| ShellRoundTrip.ReadsSpelled | Assignment1/sh.c:324-371 | tokens spelled with any blanks between them, and some where two would run together, are read back one by one |
| ShellRoundTrip.EveryTree | Assignment1/sh.c:244-321 | every command tree with at most nine words in a command is the tree of some line |
| Shells.LineSound | Assignment1/sh.c:408-509 | on every input each word of a parsed command is one whole token, and no argv overflows |
| Shells.WordsReadExactly | Assignment1/sh.c:511-556 | on every input each argument and file name, once terminated in place, reads as exactly its token |
| Shells.StoredIsRead | Assignment1/sh.c:511-556 | once terminated in place, the whole command tree, each word read as a C string, is the one that was parsed |
| Shells.Parser.SkipBlanks | Assignment1/sh.c:335-336 | the loop stops at the first character that is not blank |
| Shells.Parser.NextToken | Assignment1/sh.c:328-371 | the kind and the ends of the next token, and the position after its trailing blanks |
| Shells.Parser.PeekAt | Assignment1/sh.c:373-383 | whether the next character that is not blank is one of the set |
| Shells.Parser.Redirs | Assignment1/sh.c:437-460 | the loop reads all redirections in order, or panics on a missing file |
| Shells.Parser.Args | Assignment1/sh.c:492-508 | the loop reads arguments and redirections up to a symbol that ends the command, or panics |
| Shells.Parser.ExecCommand | Assignment1/sh.c:478-509 | parseexec is the specified function of the input, which `ShellRoundTrip.ReadSimple` and `ShellRoundTrip.ReadStage` tie to the grammar |
| Shells.Parser.WrapAll | Assignment1/sh.c:437-460 | n redirections become exactly n nested REDIR nodes, the i-th from the inside with the file and the direction of the i-th redirection |
| Shells.Parser.Block | Assignment1/sh.c:462-476 | parseblock is the specified function of the input |
| Shells.Parser.Pipeline | Assignment1/sh.c:424-435 | parsepipe is the specified function of the input |
| Shells.Parser.CommandLine | Assignment1/sh.c:407-422 | parseline is the specified function of the input, and terminates on every input |
| Shells.Parser.NulTerminate | Assignment1/sh.c:511-556 | the buffer gets a NUL at the end of every word and nowhere else |
| Shells.Parser.Parse | Assignment1/sh.c:390-405 | on every input: it succeeds exactly on the lines of the grammar, and then the command tree, each word read as a C string from the buffer, is the one that the line stands for; on a panic the buffer is unchanged |
| Pipes.CounterIndex | Assignment1/pipe.c:93 | the slot of a byte does not depend on how often the counter has wrapped |
| Pipes.CountersExact | Assignment1/pipe.c:85-114 | comparing the wrapped counters decides empty and full, and their difference is the number of bytes held |
| Pipes.AppendHolds | Assignment1/pipe.c:93 | a byte appended to a pipe that is not full overwrites none that is unread |
| Pipes.Pipe.Write | Assignment1/pipe.c:77-98 | in any state, appends all bytes that fit in order and then returns, fails or sleeps; if no wakeup was lost before, none is lost by it if and only if it is not a killed writer that fills the pipe beside sleeping readers |
| Pipes.Pipe.Read | Assignment1/pipe.c:100-121 | in any state, the bytes read are the oldest unread ones, as many as there are up to n, and sleeping writers wake |
| Pipes.Pipe.Close | Assignment1/pipe.c:59-75 | in any state, everyone at the other end wakes, and the pipe is freed exactly when both ends are closed |
| Pipes.Pipe.Kill | Assignment1/proc.c:516-537 | waking a killed sleeper keeps the order of bytes, and loses no wakeup |
| Pipes.KilledWriterStrandsReader | Assignment1/pipe.c:84-92 | a run after which the pipe is full of the bytes of a killed writer and a reader is asleep: a wakeup is lost |
| Pipes.StrandedBytesAreRead | Assignment1/pipe.c:100-121 | after that run the next read takes exactly those bytes in order, while the first reader stays asleep |
| SleepLocks.StepKeepsInv | Assignment1/sleeplock.c:22-53 | every step of every process keeps the lock owners, the holder and the sleepers consistent |
| SleepLocks.AcquireTakes | Assignment1/sleeplock.c:22-32 | acquiresleep of a free lock runs through and returns with locked set and the pid of the caller |
| SleepLocks.FreeLockTaken | Assignment1/sleeplock.c:25-31 | a process that tests a free lock next holds it |
| SleepLocks.TakenLockSleeps | Assignment1/proc.c:455-492 | a process that finds the lock taken gives up the inner lock only with ptable.lock in its hands, and then sleeps |
| SleepLocks.ReleaseWakes | Assignment1/sleeplock.c:34-42 | after releasesleep the lock is free, every process that slept on it is runnable, and all others are where they were |
| SleepLocks.MutualExclusion | Assignment1/sleeplock.c:22-42 | in every reachable state at most one process holds the sleep lock |
| SleepLocks.NoLostWakeup | Assignment1/proc.c:455-514 | in every reachable state with the inner lock free, a sleeping process means that the lock is held by someone |
| SleepLocks.HoldingSleepExact | Assignment1/sleeplock.c:44-53 | holdingsleep returns whether the caller holds the lock |
| SleepLocks.SomeoneRuns | Assignment1/proc.c:457-514 | the two spin locks never deadlock: someone inside and awake means that some process can take a step |
| ProcTables.StepKeepsInv | Assignment1/proc.c:216-537 | every section under ptable.lock keeps the table invariant |
| ProcTables.ExitKeepsWait | Assignment1/proc.c:287-301 | the zombie that an exit makes, or hands to init, is no child of a process asleep in wait |
| ProcTables.WaitExitSafety | Assignment1/proc.c:216-352 | over all runs every process but init has a live parent, init is live, and no process asleep in wait has a zombie child |
| ProcTables.ZombiesAreChildless | Assignment1/proc.c:261-308 | over all runs no child has a zombie or a free slot as its parent |
| ProcTables.ProcTable.WakeOne | Assignment1/proc.c:494-505 | exactly the processes asleep on the channel become runnable |
| ProcTables.ProcTable.AllocProc | Assignment1/proc.c:108-127 | reserves the first unused slot with the next pid, exactly when there is one, and nothing else changes |
| ProcTables.ProcTable.ForkCompletes | Assignment1/proc.c:235-258 | the child is runnable with its parent set, and nothing else changes |
| ProcTables.ProcTable.ForkFails | Assignment1/proc.c:129-133 | the slot is unused again |
| ProcTables.ProcTable.ExitProcess | Assignment1/proc.c:287-301 | the process is a zombie, its children belong to init, exactly the processes asleep on its parent wake, and those asleep on init if it inherits a zombie; no other field of any entry changes |
| ProcTables.ProcTable.Wait | Assignment1/proc.c:310-352 | reaps the first zombie child if there is one, gives up exactly without children or when killed, and sleeps otherwise |
| ProcTables.ProcTable.KillPid | Assignment1/proc.c:516-537 | the first slot with the pid has killed set and is runnable if it was asleep, its other fields and all other slots stay; it answers whether there is one |
| ProcTables.ProcTable.SleepOn | Assignment1/proc.c:455-492 | the process is asleep on the channel and nothing else changes |
| ProcTables.ProcTable.YieldCpu | Assignment1/proc.c:425-432 | the process is runnable and nothing else changes |
| ProcTables.ProcTable.Schedule | Assignment1/proc.c:373-384 | the first runnable process from this slot on runs, exactly when there is one, and nothing else changes |
| Grep.MatchHere | Assignment1/grep.c:84-96 | true if and only if some prefix of the text is in the language of the pattern, the whole text if the pattern ends in $ |
| Grep.MatchStar | Assignment1/grep.c:98-106 | true if and only if some run of the starred character is followed by a match of the rest |
| Grep.Match | Assignment1/grep.c:72-82 | true if and only if some substring, tied to the start by ^ and to the end by $, is in the language of the pattern |
| Grep.ConsHere | Assignment1/grep.c:84-106 | a match of a pattern is a match of its first item followed by a match of the rest |
| Grep.PlainHere | Assignment1/grep.c:84-96 | a pattern without stars matches at the beginning exactly the texts that begin with its characters, "." standing for any, and end there if it ends in $ |
| Grep.StarHere | Assignment1/grep.c:98-106 | a starred character stands for any number of it, and a starred "." for any characters |

## Left out

- Device, boot and console code, exec, ELF loading, argument fetching and user commands: hardware access and plumbing.
- Concurrency inside the buffer cache and the file system: calls on one cache and on one file system happen one at a time. Buffer and inode locks exclude each other in the code; the sleep lock behind them is modelled on its own.
- BufferCaches.BufferCache.Bread: a call that has to wait is not one method call here: it is `Bget`, then `Acquire` once the holder has released the buffer, then `Fill`.
- BufferCaches.BufferCache.Bget: one device besides the empty device 0 of the initial buffers. acquiresleep is a step of its own, `Acquire`, in which a waiting process gets the lock; brelse gives up the lock and the reference in one step.
- Logs.Log.Commit: assumes a log of at most NBUF blocks, as mkfs makes it, so that the cache has room for the copies, and that readers hold or wait for unmodified blocks outside the group and the log only. A commit that has to wait for a reader in its way is in `LogSystem`, write by write.
- Logs.Log.LogWrite: here the capacity check and the append are one call; their interleaving with other operations is in `LogReservation`.
- LogReservation.ReservationSuffices: operations that sleep in begin_op are states in which `Begin` is not enabled; nothing is said about fairness.
- FileSystems.FileSystem.Writei: devices (T_DEV) are excluded. The methods of cache and log are not called: blocks are read and written directly, and `calls` records the log_write of each store, which `Logs.Log.UpdateBlock` proves of one update and `FsCrash.TransactionRuns` of a whole transaction.
- FsCrash.CrashKeepsFileSystem: that every group of operations leaves a sound file system is a hypothesis; each operation of `FileSystem` does. Operations of different processes on the same blocks do not overlap there.
- Mkfs.Make: mkfs does not notice that the image is too small for the files and writes behind its end; here it stops. The bytes of the superblock are a parameter. A root directory of exactly the largest file size, which the rounding would make too large, is excluded.
- Mkfs.Maker.Ialloc: mkfs does not check that there is an inode left; here that is a precondition.
- FileSystems.FileSystem.Ilock: the table of inodes in memory and their locks are not modelled; each call makes its own copy of the inode.
- Files.File.Filewrite: pipes and the reference counts of open files are not modelled. The length argument is taken as non-negative.
- The inode cache (iget, idup): it would add easy members. `Links.Tree.Iput` is given the number of uses.
- Links.Tree.Link: path names are resolved by the caller, entries are a sequence rather than bytes of a file, and inode numbers and link counts are unbounded.
- Links.Tree.DirLink: a directory file can always grow by one entry here.
- Links.Tree.Unlink: writes that fail for lack of blocks or of room in the directory file, which panic in the code, are not modelled.
- Heaps.Heap.Malloc: sbrk is a parameter: its answer, and an address beyond all memory in use. Requests that need 2^31 bytes or more of new memory are excluded; `Heaps.SbrkExact` says what they do.
- PageTables.Memory.Allocuvm: page table words are maps from indexes to frames and to the two permission bits, and the panic on a page that is already mapped is a precondition. clearpteu, for the guard page of exec, is left out.
- PageTables.Memory.Setupkvm: the rows of kmap are a parameter, and kernel mappings are counted only through the tables they need.
- PageTables.Memory.MapRow: the kernel entries themselves are not recorded.
- PageTables.Memory.Copyuvm: the panics on a page that is not mapped are preconditions.
- CopyOnWrite.Kernel.Kalloc: the threshold at which the code starts swapping is left out.
- CopyOnWrite.Kernel.Deallocuvm: directory entries, and the skip over absent ones, are left out; they are in `Vm` for Assignment1.
- CopyOnWrite.Kernel.Freevm: the frames of the directory and its tables are left out; they are in `Vm` for Assignment1.
- CopyOnWrite.Kernel.Allocuvm: page tables take no frames here, and the page at which mappages fails is a parameter.
- CopyOnWrite.Kernel.Copyuvm: page directories and tables do not use frames here; the page at which mappages fails is a parameter. A failing copy leaves the pages of the parent write-protected, which no process sees.
- CopyOnWrite.Kernel.Cowalloc: swapping is not triggered; the swap path of Assignment3 is not modelled. The copy makes the page accessible to the user, so for a guard page the precondition is that of a user fault.
- Shells.Parser.ExecCommand: a redirection inside a command is wrapped around it at the end; in the code the EXEC node is filled while it is already inside the REDIR node.
- The shell's built-in commands and runcmd, and the read loop of grep, which drops what it has read when a read ends with no newline in the buffer: input and output.
- Pipes.Pipe.Write: sections under the pipe lock are atomic; that sleep gives up the lock without losing a wakeup is proved step by step in `SleepLock` for the sleep lock.
- SleepLocks.SomeoneRuns: freedom from deadlock, not fairness.
- ProcTables.ProcTable.Wait: kernel stacks, memory and open files are left out, and pids do not wrap. Only wait sleeps on the address of a process.
- Memory ordering of spin locks, the scheduler of Assignment2, signals, and the mode, chmod, history and syscall-blocking additions: only easy facts, or no clean guarantee.
