# A verified model of testfs, the web server cache and the thread library

This project models three stateful programs and proves what their documentation promises, or exactly when the
code keeps the promise.

* **testfs** (`fs/`), a file system on a flat array of 8192-byte blocks. An inode maps logical blocks through ten direct
  block numbers, an indirect and a double indirect block. A freemap allocates the blocks and a super block counts them;
  every change is written through to the device. In-memory inodes are reference counted over the inode blocks.
  Directories are logs of variable-length records stored in such files, and together they form a tree.
* **The web server** (`webserver/server_thread.c`), with a cache of files in an open-addressing table, a queue of its slots
  in order of use, and a circular buffer of connections under a mutex with two conditions.
* **The thread library** (`threads/thread.c`), a scheduler on one processor with wait queues, locks and condition variables.

`dafny verify dfyconfig.toml` checks everything.

## How the model is built

Each layer uses only the contracts of the layer below.

| files | contents |
|---|---|
| Blocks, Bitmap, Errors | blocks as bytes and as little-endian words; a bit array and the set it stands for |
| BlockTree | the block tree as a value: which slot of which inode holds which block (`owner`), and what linking and unlinking do |
| Volume | class `Volume`: super block and freemaps, written through; mounting and formatting |
| Inode, ReadWrite, Reclaim | class `Inode`: mapping and allocating logical blocks, reading, writing and freeing |
| WriteCost | what a write costs in blocks, where it stops and what it leaves behind, as functions of the state before it |
| FileTheorems, Soundness | files as byte arrays, conservation, what every command keeps of every file |
| InodeCache, Scenarios | the inode cache, and short runs that show what goes wrong |
| Directory, DirectoryFile, Namespace | the record log and its map, the log in a file, the tree of directories |
| Commands, CreateCommand, WriteCommand | rm, cd, pwd, create, mkdir and write on a mounted volume, proved to do on its inodes and blocks what Namespace says of trees |
| MountCommand | making and mounting a file system, and mounting it again |
| Queues, Cyclic, Options | lists, modular indices |
| FileCache, CacheTable, CacheRuns, CacheHits | the file cache as a value, as a class, under all interleavings of its critical sections, and when all files fit into it |
| RequestQueue | the circular buffer, as a class and as a monitor |
| Scheduler, SchedulerInvariant, SchedulerCalls, SchedulerRuns, ThreadLibrary | the thread library as values, its invariant, its calls, its runs, and as a class |

Classes change their fields and arrays in place as the code does, and each method is proved against a function or
predicate on values about which the theorems are then proved. Where several threads interleave, a critical section (or a
call with interrupts off) is one step of a state machine, and theorems are about every state of every run.

Choices the code forces:

* `indirect_allocated` starts at 0 in block allocation; fs/read_write.c:121 initialises only its neighbour.
* Loops that step past a list node they have just deleted (webserver/server_thread.c:286-288, threads/thread.c:163-170)
  read the next node first.
* The owner of a new lock is any value; threads/thread.c:539-551 leaves it unset until the lock is first taken.
* The number of threads is any positive constant. Block size, fan-outs and freemap sizes are those of the layout on disk.
* New wait queues are empty, as in threads/thread.c:419; threads/thread.c:215 and 263 leave the head unset.
* A killed thread must not be waiting for a lock, a condition or in a queue made by user code, and a thread that is waited
  for must not have exited: `thread_kill` cleans up only the queues of threads (threads/thread.c:154-173).
* A request refers to a cached file by its slot; `CacheRuns.PinnedStays` shows that the slot keeps the file while it is in use.

Where the code falls short of its own documentation, the model follows the code:

* A write that fails for lack of space can leave blocks beyond the end of the file (`Reclaim.CoveredAfterWrite`,
  `Scenarios.OutOfSpace`). Removing the file then fails an assertion (`Reclaim.ReclaimsAllIffCovered`), and a later write
  further on makes the stale bytes part of the file instead of zeros (`Scenarios.StaleBytes`).
* If the only free block is taken for the double indirect block, the failed allocation keeps it (fs/read_write.c:195-196;
  `Inodes.Inode.AllocateBlock`, `Scenarios.IndexLeftBehind`).
* A failed write can raise the size into the range of the double indirect block although there is none. Removing the file
  then takes the super block for it and zeroes a block that is not the file's before an assertion fails
  (`Reclaim.FreeBlocks`, `Scenarios.FreemapWiped`).
* A failed write can change the size of an inode without marking it dirty (`InodeCaches.InodeCache.WriteInode`,
  `WriteCosts.LosesSizeIff`, `Scenarios.SizeNotStored`).
* A failed append can leave part of a record at the end of a directory (`Directories.TornRecord`, `WriteCosts.TearsIff`).
* If the entry of a new file cannot be written, the current directory is not written to disk (fs/dir.c:225-237). If the
  write took a block, the directory stays dirty, and the assertion in fs/inode.c:166 fails when the next change of
  directory or the end of the session gives it back (`CreateCommands.Create`, `MountCommands.DirectoryLeftDirty`).
* Adding a directory entry does not detect every duplicate; creation is safe because it looks the name up first
  (`Directories.AddRefusesIff`, `Directories.AddCanDuplicate`).
* Eviction leaves holes in probe sequences, so a cached file may not be found and be cached twice (`FileCaches.FoundIff`,
  `FileCaches.FalseMiss`, `FileCaches.UniqueAfterInsert`), and a file used is moved to the safe end of the queue only if it sits in its home slot (`FileCaches.UsedIsLastIff`).
* A file that cannot be made to fit because of the files in use evicts all others before it is refused
  (`FileCaches.StoreDoes`, `FileCaches.RefusalEvictsAll`).
* A search of a table without empty slots for a name that is not there never ends (`FileCaches.EndsIff`, `FileCaches.SearchCanHang`).
* Signalling a condition checks whom the lock names as its owner, not who holds it (`SchedulerRuns.SignalChecksLastOwner`), and a
  thread that waits for one that has exited is never woken (`SchedulerRuns.WaitForExitedIsLost`).

## Model

| member | source | states |
|---|---|---|
| Blocks.WordOfSetWord | fs/read_write.c:43-50 | a block number written into an index block reads back, and no other entry changes |
| Bitmaps.MarkedUpdate | fs/bitmap.c:103-126 | setting or clearing a bit changes exactly that member of the set and keeps the tail bits marked |
| Bitmaps.LowestClear | fs/bitmap.c:70-91 | the first clear bit found by word and offset lies below nbits, thanks to the marked tail, and every lower bit is set |
| Bitmaps.Bitmap.constructor | fs/bitmap.c:21-54 | a new bitmap of any size stands for the empty set, with the leftover bits of its last word marked |
| Bitmaps.Bitmap.FirstClear | fs/bitmap.c:77-86 | a word that is not all ones has a clear bit, so the search never falls through to the failing assertion |
| Bitmaps.Bitmap.Alloc | fs/bitmap.c:70-91 | takes the lowest free bit, fails exactly if all are marked, and adds exactly that bit to the set |
| Bitmaps.Bitmap.Mark | fs/bitmap.c:103-113 | adds exactly one member |
| Bitmaps.Bitmap.Unmark | fs/bitmap.c:116-126 | removes exactly one member |
| Bitmaps.Bitmap.IsSet | fs/bitmap.c:130-137 | membership |
| Bitmaps.Bitmap.NrAllocated | fs/bitmap.c:147-157 | the number of marked bits below nbits is the size of the set |
| BlockTree.DataSlotBijection | fs/read_write.c:24-51 | logical block numbers and data slots of the three-level tree correspond one to one |
| BlockTree.NoSharing | fs/read_write.c:117-233 | no two slots of any inodes point to the same block |
| BlockTree.PutData | fs/read_write.c:251-268 | overwriting a data block changes one logical block of one file and moves no pointer of any inode |
| BlockTree.LinkTop | fs/read_write.c:138-157 | linking a fresh block from an inode field leaves all trees disjoint and every file's contents unchanged |
| BlockTree.LinkWord | fs/read_write.c:158-169 | linking a fresh block from an index block entry does the same |
| BlockTree.UnlinkTop | fs/read_write.c:170-176 | taking an empty index block out of the tree again leaves all files unchanged |
| Volumes.SuperImageReadsBack | fs/super.c:15-22 | the counters written to the super block read back |
| Volumes.FreemapReadsBack | fs/super.c:25-48 | a freemap written block by block reads back bit for bit |
| Volumes.MirroredAfterWrite | fs/super.c:38-48 | after one bit changes, writing the one disk block that holds it brings the device up to date |
| Volumes.Volume.GetBlockFreemap | fs/super.c:52-63 | takes the lowest free bit or fails with ENOSPC exactly if none is free; the device mirrors the freemap afterwards and nothing outside it changes |
| Volumes.Volume.PutBlockFreemap | fs/super.c:67-72 | frees one bit, on the device too |
| Volumes.Volume.GetInodeFreemap | fs/super.c:199-212 | takes the lowest free inode number or fails exactly if none is free |
| Volumes.Volume.PutInodeFreemap | fs/super.c:215-223 | gives one inode number back |
| Volumes.Volume.AllocBlock | fs/super.c:226-239 | fails with ENOSPC exactly if the limit or the device leaves no free block; else yields a block nobody owned, and the device agrees with the memory |
| Volumes.Volume.FreeBlock | fs/super.c:244-255 | the block is zero on disk, free again, and the only thing that changed |
| Volumes.Volume.Mount | fs/super.c:137-173 | reads the counters and freemaps of an image |
| Volumes.Volume.WriteDataBlock | fs/block.c:13-31 | data writes leave super block, freemaps and inode blocks alone |
| Volumes.Remount | fs/super.c:137-196 | mounting the device of a running volume at any point rebuilds the same counters and freemaps |
| Volumes.Format | fs/mktestfs.c:65-72 | a formatted device is an empty, consistent volume |
| Inodes.Inode.ReadBlock | fs/read_write.c:15-62 | yields the physical block the tree maps, or 0 and zeros for a hole; EFBIG exactly beyond the largest file |
| Inodes.Inode.AllocBlock | fs/inode.c:236-246 | block_count follows the allocation; a new block is zero and in no tree |
| Inodes.Inode.FreeBlock | fs/inode.c:250-257 | gives back a block of this inode, nothing for block 0 |
| Inodes.Inode.AllocateBlock | fs/read_write.c:117-233 | maps one more logical block, index blocks included, without changing any file's contents or place of any other block; fails exactly if fewer blocks are free than it needs; a failure leaves no block behind except exactly if the one free block was taken for a missing double indirect block; the inode is dirty exactly if it was or a block was taken |
| Inodes.Inode.AllocateSingle | fs/read_write.c:146-176 | the same for the indirect range, with the rollback of a new indirect block |
| Inodes.Inode.AllocateDouble | fs/read_write.c:177-230 | the same for the double indirect range, with the rollback of one or two new index blocks, and the early return without it |
| Inodes.Inode.UndoDouble | fs/read_write.c:214-228 | the rollback frees exactly the index blocks just taken and restores the tree |
| ReadWrite.ReadData | fs/read_write.c:69-111 | returns min(size, i_size - start) and exactly those bytes of the sparse array, holes as zeros; fails with EFBIG exactly if it would look beyond the largest file |
| ReadWrite.WriteData | fs/read_write.c:235-274 | on every outcome the bytes written overlay the sparse array, exactly the blocks they touch are mapped, all other files keep contents and places, and no block is lost; what it returns and writes, the new size, the dirty flag, whether there is a double indirect block and how many blocks are free then are functions of the state before |
| WriteCosts.NeedIsExtra | fs/read_write.c:138-212 | while a write goes on, what the next block needs is what the state before the write says it costs: itself and the index blocks not met before |
| WriteCosts.StopIs | fs/read_write.c:244-263 | a write stops at the first block whose cost, with all before it, exceeds the free blocks, or that lies beyond the largest file |
| WriteCosts.WriteSucceedsIff | fs/read_write.c:235-274 | a write succeeds exactly if it ends within the largest file and the missing data and index blocks are free |
| WriteCosts.NoCost | fs/read_write.c:132-135 | overwriting mapped blocks costs nothing |
| WriteCosts.LosesSizeIff | fs/read_write.c:245-263 | a write changes the size without the dirty flag exactly if the inode was clean, no block was taken, and it stopped at its last block or at the largest file beyond the old size |
| WriteCosts.TearsIff | fs/read_write.c:244-263 | a failed append stays in part at the end of the file exactly if it wrote a whole block and stopped at its last block or at the largest file |
| ReadWrite.SameFuture | fs/read_write.c:235-274 | what a write to a file will do does not depend on other files, as long as its own blocks and index blocks stay in place |
| FileTheorems.WriteOverlaysFile | fs/read_write.c:235-274 | a write that raises the size to max(old, start + n) is an overlay of the file's byte array exactly if the gap before it was zero; for files in use see SoundFiles and InodeCaches.InodeCache.WriteInode |
| FileTheorems.WriteKeepsTailZero | fs/read_write.c:270-271 | such writes keep all bytes beyond the end zero, so gaps stay zero |
| FileTheorems.TailAfterWrite | fs/read_write.c:235-274 | whatever its outcome, a write keeps the bytes beyond the end zero exactly if the part of the buffer that the state before says it places beyond the new size is zero; only running out of space before the last block places any |
| FileTheorems.WrittenReadsBack | fs/read_write.c:235-274 | what was written reads back |
| FileTheorems.Conservation | fs/super.c:226-255 | the marked blocks are exactly the disjoint union of all trees, the counters agree with them and with the sum of all block_counts, the limit holds, and free blocks are zero |
| Reclaim.FreeBlocks | fs/read_write.c:276-337 | frees exactly the blocks of the slots its size reaches, each once, and clears the fields that held them; the assertion on the indirect block fails exactly if it comes with a size within the direct blocks; if the size needs a double indirect block and there is none, a block that the inode freemap's words name is zeroed instead |
| Reclaim.FreeThroughSuperBlock | fs/read_write.c:309-324 | the super block read as an index block leads to the inode freemap block read as another; the block freed first is its first word that is not 0, or the freemap block itself, and is zeroed before the assertion in fs/super.c:249 |
| Reclaim.ReclaimsAllIffCovered | fs/inode.c:220-224 | freeing ends as it should and reaches an empty tree, as the assertions demand, exactly if the size covers every mapped block and the index blocks exist just when the size needs them |
| Reclaim.CoveredReclaim | fs/read_write.c:276-337 | then every other file is intact and all trees are still disjoint |
| Reclaim.EmptyInode | fs/inode.c:220-226 | all assertions on the way hold, and the inode becomes a free one with no block left, exactly if it was covered |
| Reclaim.CoveredAfterWrite | fs/read_write.c:235-274 | a write keeps a covered file covered exactly if the state before it says so: the size, start and length, the free blocks, and which blocks are mapped decide where it stops and what it leaves behind |
| SoundFiles.SoundAfterWrite | fs/read_write.c:235-274 | a write leaves a sound file (covered, zero beyond the end, no holes in a directory) sound exactly if the state before says so |
| SoundFiles.SuccessIsSound | fs/read_write.c:235-274 | nonempty writes that succeed, and EFBIG writes that start below the maximum, leave it sound |
| SoundFiles.StillSound | fs/read_write.c:235-274 | an operation on one file leaves all files sound if it leaves that one sound |
| SoundFiles.FreeSound | fs/inode.c:220-231 | a new or removed inode is sound |
| SoundFiles.OverwriteSucceeds | fs/read_write.c:132-135 | overwriting within a file without holes never fails |
| SoundFiles.LostIsSound | fs/read_write.c:244-263 | a write that lost the size mapped nothing; with the old size back, the file is sound exactly if the bytes placed beyond that are zero |
| InodeCaches.DinodeRoundTrip | fs/inode.h:12-20 | an inode that fits its fields survives being written and read |
| InodeCaches.DiskInodeAfterWrite | fs/inode.c:148-160 | writing one slot of the inode blocks changes no other slot |
| InodeCaches.InodeFits | fs/inode.h:12-20 | block numbers and counts always fit their 32-bit fields |
| InodeCaches.InodeCache.constructor | fs/inode.c:24-35 | an empty cache over a volume whose inode blocks hold the inodes is coherent |
| InodeCaches.InodeCache.GetInode | fs/inode.c:117-144 | one in-memory inode per number, counted once more, with the value of its slot if it was not in memory |
| InodeCaches.InodeCache.SyncInode | fs/inode.c:148-160 | the slot holds the inode and every other slot is unchanged |
| InodeCaches.InodeCache.PutInode | fs/inode.c:164-171 | the reference count equals the outstanding gets; the inode leaves memory with the last one, and with it a size that a failed write changed without the dirty flag; nothing else is lost |
| InodeCaches.InodeCache.CreateInode | fs/inode.c:199-216 | the lowest free inode, without blocks, of the given type, and all files stay sound; fails exactly if all inodes are taken |
| InodeCaches.InodeCache.RemoveInode | fs/inode.c:220-231 | the assertions on the way hold exactly if the inode was covered; then it is free on disk and in the freemap, no other file changes, and all files stay sound |
| InodeCaches.InodeCache.WriteInode | fs/read_write.c:235-274 | the cache stays consistent on every path, and coherent unless the state before says that the size is lost; if all files were sound, a successful nonempty write gives exactly the file's bytes overlaid with the buffer, with zeros in the gap, and all files stay sound exactly if the state before says so |
| Scenarios.NewFileSystem | fs/mktestfs.c:65-72 | a new file system meets every invariant |
| Scenarios.OutOfSpace | fs/read_write.c:244-249 | a three-block write with one free block leaves a file that its size does not cover |
| Scenarios.StaleBytes | fs/read_write.c:270-271 | afterwards a one-byte write exposes stale bytes in its gap |
| Scenarios.SizeNotStored | fs/read_write.c:258-262 | a concrete failed write changes the size in memory only |
| Scenarios.IndexLeftBehind | fs/read_write.c:181-196 | with one free block, a write that needs the double indirect block leaves it behind empty, in a file that its size does not cover |
| Scenarios.FreemapWiped | fs/read_write.c:309-324 | with two free blocks, such a write leaves a size without the block; removing the file zeroes the inode freemap on the device while inode 0 is in use |
| Directories.ScanLog | fs/dir.c:17-42 | the records parse back as written, in order, and scanning ends exactly at the size |
| Directories.FlattenInjective | fs/dir.c:17-42 | a directory file has only one reading |
| Directories.LookupIsMap | fs/dir.c:325-340 | looking a name up is looking it up in the map of live entries |
| Directories.AddIsUpdate | fs/dir.c:87-114 | adding a new name updates the map, keeps names unique, and moves no record |
| Directories.AddRefusesIff | fs/dir.c:96-110 | adding refuses a name exactly if it occurs before every removed record of its length |
| Directories.AddCanDuplicate | fs/dir.c:96-110 | so adding alone can put a name into a directory twice |
| Directories.RemoveIsDelete | fs/dir.c:146-176 | removing a name deletes it from the map and moves no record; it fails exactly if the name is not there |
| Directories.RewriteRecord | fs/dir.c:66-82 | rewriting a record of the same length changes its bytes only |
| Directories.TornRecord | fs/dir.c:66-82 | a partly appended record leaves a directory that is no log, unless nothing or everything was appended |
| DirectoryFiles.NextDirent | fs/dir.c:17-42 | on a directory file, yields the records of its log one after the other and stops at its size |
| DirectoryFiles.LookupName | fs/dir.c:325-340 | the inode number of the live entry with the name, else ENOENT |
| DirectoryFiles.FindDirent | fs/dir.c:48-61 | the first entry for an inode number |
| DirectoryFiles.WriteRecord | fs/dir.c:66-82 | the cached directory holds the log with that record, and no other file changes; the state before says whether it succeeds, whether the directory is dirty or its size lost and how many blocks are free then, whether a failed append leaves a log, and whether all files stay sound; in a sound directory an existing record can always be overwritten |
| DirectoryFiles.AddDirent | fs/dir.c:87-114 | the cached directory holds the updated log; EEXIST exactly as Directories.AddRefusesIff says, and then nothing changed; any other outcome as for DirectoryFiles.WriteRecord |
| DirectoryFiles.RemoveAllowed | fs/dir.c:119-138 | ENOTEMPTY exactly for a directory with live entries besides itself and its parent |
| DirectoryFiles.RemoveDirent | fs/dir.c:146-176 | the errors in their order, and otherwise the cached directory holds the log without the name; where all files are sound the write cannot fail; inode references are balanced |
| Namespaces.PwdResolves | fs/dir.c:242-265 | pwd ends at the root, and following its path from the root leads back to the directory |
| Namespaces.UniqueParent | fs/dir.c:182-197 | the entry `..` names the only directory with an entry for this one, and there is one such entry |
| Namespaces.CreateKeepsTree | fs/dir.c:201-238 | create and mkdir keep the tree; they fail exactly if the name is there |
| Namespaces.RmKeepsTree | fs/dir.c:408-424 | rm keeps the tree, with the current directory in it |
| Namespaces.RemovedEntries | fs/dir.c:146-176 | what rm removes is neither the root nor the current directory nor the parent of anything |
| Namespaces.CdKeepsTree | fs/dir.c:343-362 | cd keeps the tree and fails without a change |
| Namespaces.NamespaceIsTree | fs/dir.c:201-424 | in every state of every session the directories form a tree in which pwd of every directory resolves |
| Commands.RmDescribes | fs/dir.c:408-424 | erasing an entry in one file and then freeing another inode turns a volume that describes a tree into one that describes the tree after rm |
| CreateCommands.CreateDescribes | fs/dir.c:201-238 | filling a new inode and entering it in the current directory turns a volume that describes a tree into one that describes the tree after create or mkdir |
| Commands.RmCases | fs/dir.c:146-176 | on a mounted volume the errors of removing an entry are those of Namespaces.Rm, and what is removed is allocated and is not the current directory |
| Commands.CdCases | fs/dir.c:343-362 | on a mounted volume every entry refers to an inode, and cd fails and succeeds as Namespaces.Cd does |
| Commands.PwdStep | fs/dir.c:242-265 | the entry `..` of a directory is there, its parent lists the directory, and the path grows by that name |
| Commands.Rm | fs/dir.c:408-424 | the mounted volume, through directory writes, block reclamation and freemaps, goes to the tree that Namespaces.Rm gives and returns what it says; only the current directory stays in memory, clean, and all files stay sound |
| Commands.RemoveFile | fs/inode.c:220-231 | after the entry is gone, the inode and its blocks are freed and no other file changes |
| CreateCommands.CreateEmptyDir | fs/dir.c:182-197 | the new directory file holds exactly `.` and `..`; that succeeds exactly if a block is free, takes that block, and all files stay sound either way |
| CreateCommands.Create | fs/dir.c:201-238 | EEXIST exactly if the name is there; ENOSPC and everything as before without a free inode, or a block for a new directory; else the state before says what it returns: on success the mounted volume goes to the tree that Namespaces.Create gives for the lowest free inode number, and a failure leaves everything as it was exactly if the write of the entry neither tears, nor dirties the directory, nor leaves stray bytes or blocks |
| CreateCommands.GiveUpInode | fs/dir.c:234-237 | the clean-up after a failure restores inodes, freemap, cache and every other file |
| CreateCommands.EnterInode | fs/dir.c:225-235 | the state before says whether it succeeds; then the directory holds the log with the new entry and both inodes are on disk; otherwise the new inode is gone again, and the state before says whether the directory is dirty, whether all files are sound, and whether the directory holds its old log or none |
| CreateCommands.EntryEnds | fs/dir.c:225-229 | writing an entry for a new name fails only as an append; then the dirty flag, soundness, and the old log or none follow from the state before |
| CreateCommands.EnterNew | fs/dir.c:225-237 | what a filled inode and the write of its entry come to, in terms of the volume before the creation began |
| CreateCommands.SameEntry | fs/dir.c:219-229 | filling a new directory first changes for the write of its entry nothing but the number of free blocks |
| CreateCommands.AddSecond | fs/dir.c:191-195 | the second entry of a new directory can always be written, so the attempt to take back the first one never runs |
| CreateCommands.FailureDescribes | fs/dir.c:225-237 | a new inode filled, not entered and removed again leaves the tree as it was |
| Commands.Cd | fs/dir.c:343-362 | the current directory is the one Namespaces.Cd gives, the old reference is given back, nothing on the volume changes |
| Commands.Pwd | fs/dir.c:242-265 | pwd ends and prints the path of Namespaces.Pwd, and leaves the cache as it was |
| MountCommands.MakeRootDir | fs/dir.c:201-321 | on an empty file system the volume describes the root directory alone, exactly if a block is free, and has one free block less; otherwise it is empty as before |
| MountCommands.MakeAndMount | fs/mktestfs.c:65-78 | a new file system with room for a block, mounted, is where the sessions of Namespaces.NamespaceIsTree begin |
| MountCommands.MountAgain | fs/super.c:137-173 | mounting the device again between any two commands gives the same tree, with the root as the current directory, and every file with the same bytes |
| MountCommands.LongEntry | fs/dir.c:225-237 | an entry of 24600 bytes in a directory of 21 bytes with one block free: the write fails without tearing and leaves the directory dirty |
| MountCommands.DirectoryLeftDirty | fs/dir.c:225-237 | creating a file with such a name on a new file system of two blocks leaves the root directory dirty with its old entries |
| WriteCommands.FileCases | fs/file.c:16-32 | a name in the current directory of a mounted volume refers to an allocated inode, a file or a directory of the tree |
| WriteCommands.WriteDescribes | fs/file.c:89-119 | writing to a file leaves the tree as it was |
| WriteCommands.WriteFile | fs/file.c:114-118 | the file changes as the state before says; its inode is stored and forgotten, and a lost size is what it was |
| WriteCommands.AfterWrite | fs/file.c:114-118 | after the inode is stored, all files are sound exactly if the state before says so, also when the size was lost |
| WriteCommands.Write | fs/file.c:89-119 | ENOENT and EISDIR exactly by what the name refers to; otherwise one file changes, the tree does not, a nonempty success overlays its bytes, and the mounted volume meets its invariant again exactly if the state before says that the file stays sound |
| FileCaches.EndsIff | webserver/server_thread.c:225-232 | probing ends exactly if some slot is empty or holds the name |
| FileCaches.FoundIff | webserver/server_thread.c:225-239 | a cached file is found exactly if no slot between its home and its own is empty, and then at the first slot that holds it |
| FileCaches.FalseMiss | webserver/server_thread.c:282-286 | two files are cached in an empty table of two, the first is evicted, and the second is there and not found; caching it again puts its name in the table twice |
| FileCaches.UniqueAfterInsert | webserver/server_thread.c:242-254 | caching a file that was not found keeps names unique exactly if it is not in the table once room was made |
| FileCaches.HomeOccupied | webserver/server_thread.c:225-239 | the home slot of a name that is found is occupied |
| FileCaches.EvictionKeepsMiss | webserver/server_thread.c:299-309 | an insertion after an eviction finds an empty slot and replaces no entry |
| FileCaches.EvictRemoves | webserver/server_thread.c:257-297 | eviction removes exactly the shortest prefix of unpinned files in queue order that makes room, or all of them, and keeps the rest of the queue in order |
| FileCaches.EvictSucceedsIff | webserver/server_thread.c:257-297 | it succeeds exactly if the files in use leave that much of the limit |
| FileCaches.InsertCorrect | webserver/server_thread.c:242-254 | insertion keeps the invariant, evicts only unused files, fills one empty slot, and is refused exactly if the file cannot fit |
| FileCaches.UsedKeepsValid | webserver/server_thread.c:333-336 | although it is the home slot that is moved in the queue, the cache stays valid |
| FileCaches.UsedDoes | webserver/server_thread.c:333-336 | taking a file raises its count by one, puts its home slot last in the queue and keeps the order of all other slots |
| FileCaches.AcquireDoes | webserver/server_thread.c:353-362 | a request takes its file exactly if that can be found, from the slot where it is found, and else nothing changes |
| FileCaches.FilledIsFound | webserver/server_thread.c:299-322 | a file put where probing for it stops is found there |
| FileCaches.StoreDoes | webserver/server_thread.c:379-387 | a file that is found is taken and nothing is evicted; else the shortest prefix of unused files that makes room is gone, the file is where it can be found with one user, and it is refused exactly if the files in use leave too little room |
| FileCaches.RefusalEvictsAll | webserver/server_thread.c:274-297 | a file that is refused because of the files in use has evicted all others |
| FileCaches.UsedIsLastIff | webserver/server_thread.c:333-336 | the file just used is last in the queue exactly if it sits in its home slot |
| FileCaches.SizeIsSum | webserver/server_thread.c:282-320 | curr_size is the sum of the sizes of all cached files and within the limit |
| FileCaches.SearchEnds | webserver/server_thread.c:225-232 | with no empty files and more slots than bytes every search ends |
| FileCaches.SearchCanHang | webserver/server_thread.c:225-232 | an empty file can fill a table so that a search never ends |
| Queues.Delete | webserver/server_thread.c:192-211 | unlinks the first node with the index, if any |
| Queues.WithoutThenEnd | webserver/server_thread.c:333-336 | deleting an element and appending it again moves it to the end and keeps the order of the others |
| CacheTables.FileCache.constructor | webserver/server_thread.c:84-96 | a new cache is empty and valid |
| CacheTables.FileCache.ProbeFor | webserver/server_thread.c:225-232 | the loop stops at the slot the probe sequence determines |
| CacheTables.FileCache.DeleteLeastUsed | webserver/server_thread.c:274-297 | the loop over the list has the effect that FileCaches.DeletesShortestPrefix describes |
| CacheTables.FileCache.MakeRoom | webserver/server_thread.c:257-271 | the effect that FileCaches.EvictRemoves and FileCaches.EvictSucceedsIff describe |
| CacheTables.FileCache.Add | webserver/server_thread.c:242-254 | the effect that FileCaches.InsertCorrect describes |
| CacheTables.FileCache.TakeCached | webserver/server_thread.c:353-362 | the first critical section takes the file exactly if it can be found, changes nothing else, and keeps the cache valid and every file in use |
| CacheTables.FileCache.OfferFile | webserver/server_thread.c:379-387 | the second critical section caches the file after the evictions it needs, takes the cached one if it is found, and keeps the cache valid and every file in use |
| CacheTables.FileCache.LetGo | webserver/server_thread.c:366-368 | the third critical section lowers the count of the file by one, changes nothing else, and keeps the cache valid |
| FileCaches.DeletesShortestPrefix | webserver/server_thread.c:274-297 | the list walk removes the shortest prefix of evictable files that makes room |
| CacheRuns.PinnedStays | webserver/server_thread.c:274-289 | no critical section of another request evicts or replaces a file that a request is using |
| CacheRuns.StepKeepsInv | webserver/server_thread.c:338-408 | every step of every request keeps the invariant of the cache and all requests |
| CacheRuns.CacheIsTransparent | webserver/server_thread.c:338-408 | in every state of every interleaving a finished request replied what it would have without a cache, and bytes about to be sent are there |
| CacheRuns.ActiveCountsHolders | webserver/server_thread.c:355-393 | the active count of a file is the number of requests using it |
| CacheRuns.CanAdvanceIff | webserver/server_thread.c:338-408 | a request can always go on, except exactly if its search never ends |
| CacheRuns.NeverStuck | webserver/server_thread.c:338-408 | with no empty files and more slots than bytes no request is ever stuck |
| CacheRuns.StepDoes | webserver/server_thread.c:338-408 | a step changes one request and brings it nearer to its end: it is served from the cache exactly if its file can be found there, and else the file it read is offered to the cache |
| CacheRuns.RunDoes | webserver/server_thread.c:338-408 | so it is at every step of every run |
| CacheHits.BytesFit | webserver/server_thread.c:282-320 | cached files with different names are no larger together than the disk |
| CacheHits.RoomForMissed | webserver/server_thread.c:242-271 | if all files fit into the cache together, a file that is not found is not cached, and there is room for it |
| CacheHits.StepKeepsSettled | webserver/server_thread.c:338-408 | if all files fit together, every step keeps all cached files in their slots where they can be found, names unique, and every file that was served cached |
| CacheHits.NothingEvicted | webserver/server_thread.c:274-297 | if all files fit together, nothing is evicted in any run |
| CacheHits.ServedOnceHitsAlways | webserver/server_thread.c:338-408 | if all files fit together, in every run each later request for a file that was served once is served from the cache |
| RequestQueues.PutAppends | webserver/server_thread.c:121-129 | a connection put into the ring goes to its end and overwrites none |
| RequestQueues.TakeOldest | webserver/server_thread.c:131-140 | taking yields the oldest connection |
| RequestQueues.RequestBuffer.Send | webserver/server_thread.c:121-129 | the contents grow by the connection; a broadcast is due exactly if they were empty |
| RequestQueues.RequestBuffer.Receive | webserver/server_thread.c:131-140 | the oldest leaves; a broadcast is due exactly if the buffer was full |
| RequestQueues.QueueIsFifo | webserver/server_thread.c:439-472 | in every run connections are received in order and exactly once, the indices agree with the count, and no wakeup is lost |
| RequestQueues.NeverBothWait | webserver/server_thread.c:439-472 | senders and workers never wait for each other, and one side's next step releases the other |
| SchedulerInvariants.FreeExitedKeeps | threads/thread.c:342-355 | reclaiming an exited thread touches no other thread, no waiting thread and not the ready queue |
| SchedulerInvariants.CreateKeeps | threads/thread.c:226-283 | a new thread takes a free number and goes last in the ready queue; fails exactly if all numbers are in use |
| SchedulerCalls.CreateDoes | threads/thread.c:226-283 | a new thread has the lowest number not in use, is last in the ready queue, and changes no other thread, queue or lock |
| SchedulerInvariants.YieldKeeps | threads/thread.c:285-340 | keeps the scheduler invariant |
| SchedulerInvariants.KillKeeps | threads/thread.c:387-405 | keeps it although for a moment two threads have exited |
| SchedulerInvariants.ReleaseKeeps | threads/thread.c:578-587 | keeps it although the lock is marked free before its waiters are awake |
| SchedulerInvariants.CvWaitKeeps | threads/thread.c:621-637 | keeps it across release, sleep and reacquisition |
| SchedulerCalls.YieldDoes | threads/thread.c:285-340 | who runs after a yield and what it returns, in all cases of its documentation; no queue but the ready queue and no lock changes |
| SchedulerCalls.SleepDoes | threads/thread.c:437-478 | the caller is last in the queue with the given rest to do, and the first ready thread runs; nothing else changes; fails exactly if there is none |
| SchedulerCalls.WakeupDoes | threads/thread.c:482-518 | returns how many threads it woke; exactly those leave the queue and join the ready queue in their order; nothing else changes |
| SchedulerCalls.WakeupIsFifo | threads/thread.c:482-518 | of two sleepers the first is woken no later and runs first |
| SchedulerCalls.ExitDoes | threads/thread.c:358-385 | the threads waiting for the exiting one are ready, the first ready thread runs, other queues stay; the program ends exactly if nobody can run |
| SchedulerCalls.KillDoes | threads/thread.c:342-405 | the victim is in no queue, its waiters are ready behind the others, others keep their status; of it and a thread that exited before, the one with the lower number is reclaimed |
| SchedulerCalls.WaitDoes | threads/thread.c:521-531 | the caller queues up at the thread and the first ready thread runs, or it returns at once if no other thread can run |
| SchedulerCalls.AcquireDoes | threads/thread.c:564-576 | takes the lock exactly if nobody holds it; else queues up and is to try for the lock again when it wakes; nothing else changes |
| SchedulerCalls.ReleaseDoes | threads/thread.c:578-587 | has an effect exactly if the caller holds the lock; then it is free, the owner stays recorded, and all waiters are ready in order |
| SchedulerCalls.CvWaitIsAtomic | threads/thread.c:621-637 | the owner gives the lock back and is last in the condition's queue, to try for the lock when it wakes, before any other thread runs; if none can run it goes on with the lock; for others the call is an attempt to take the lock |
| SchedulerCalls.CvWakeDoes | threads/thread.c:640-667 | by the owner of the lock a broadcast readies all who wait for the condition and a signal the first, in order; by others nobody |
| SchedulerCalls.ResumeDoes | threads/thread.c:456-461 | a thread that runs again reclaims the exited thread; after a plain sleep it then has nothing left to do, else it tries for its lock |
| SchedulerRuns.StepKeepsInv | threads/thread.c:226-667 | every call keeps the invariant |
| SchedulerRuns.SchedulerInvariant | threads/thread.c:226-531 | in every state of every run one thread runs, the ready queue is exact, each blocked thread is in exactly one queue, numbers match slots, and at most one exited thread is unreclaimed |
| SchedulerRuns.MutualExclusion | threads/thread.c:564-587 | in every run a lock is taken only while free and given back only by its holder, by thread number, and is held while threads wait for it |
| SchedulerRuns.SameThread | threads/thread.c:226-283 | while a thread neither exits nor is killed its number is not given to another; so with SchedulerRuns.MutualExclusion the thread that took a lock is the one that gives it back |
| SchedulerRuns.HoldsLockOnReturn | threads/thread.c:564-637 | a thread that sleeps in lock_acquire or cv_wait goes on trying for the lock until it takes it |
| SchedulerRuns.ReturnsWithLock | threads/thread.c:564-637 | in every run a thread that calls lock_acquire or cv_wait and is not killed holds the lock when it is first back in user code |
| SchedulerRuns.WaitsUntilWoken | threads/thread.c:482-667 | a thread leaves its queue exactly by a call that is to wake it, and then it is ready or runs |
| SchedulerRuns.RunsOnlyIfWoken | threads/thread.c:437-667 | in every run a thread that waits and is not killed runs again only after such a call |
| SchedulerRuns.StaysAlive | threads/thread.c:226-667 | a thread stays until it exits or is killed, and no call of another thread changes what it has left to do |
| SchedulerRuns.SignalChecksLastOwner | threads/thread.c:640-652 | signalling has an effect exactly if the lock names the caller as its owner, which is who took it last or, before the first time, not set |
| SchedulerRuns.WaitForExitedIsLost | threads/thread.c:521-531 | a thread that waits for an exited one stays blocked in no queue |
| SchedulerRuns.PositionNeverGrows | threads/thread.c:106-152 | a ready thread never falls back, and moves up whenever another is dispatched from the head |
| SchedulerRuns.ReadyUntilRun | threads/thread.c:106-173 | a thread leaves the ready queue only by running or by being killed |
| SchedulerRuns.DispatchesAhead | threads/thread.c:285-478 | while a thread stays ready, at most as many threads are dispatched from the head as were before it |
| SchedulerRuns.BoundedWaiting | threads/thread.c:285-478 | a thread in position k of the ready queue that is not killed has run once the head of the queue has been dispatched more than k times |
| ThreadLibraries.ThreadLibrary.constructor | threads/thread.c:211-225 | one running thread, with the scheduler invariant and the start of every run |
| ThreadLibraries.ThreadLibrary.ThreadId | threads/thread.c:67-73 | the scan for a running thread finds the one that runs |
| ThreadLibraries.ThreadLibrary.GetId | threads/thread.c:92-98 | the lowest number not in use |
| ThreadLibraries.ThreadLibrary.FreeFirstExited | threads/thread.c:342-355 | the scan frees the first exited thread, with the effect that SchedulerInvariants.FreeExitedKeeps describes |
| ThreadLibraries.ThreadLibrary.DeleteFromAllQueues | threads/thread.c:154-173 | after the loop no thread's queue lists the given thread |
| ThreadLibraries.ThreadLibrary.CreateThread | threads/thread.c:226-283 | the effect that SchedulerCalls.CreateDoes describes |
| ThreadLibraries.ThreadLibrary.YieldThread | threads/thread.c:285-340 | the effect that SchedulerCalls.YieldDoes describes |
| ThreadLibraries.ThreadLibrary.SleepThread | threads/thread.c:437-478 | the effect that SchedulerCalls.SleepDoes describes |
| ThreadLibraries.ThreadLibrary.Wakeup | threads/thread.c:482-518 | the loop has the effect that SchedulerCalls.WakeupDoes describes |
| ThreadLibraries.ThreadLibrary.ExitThread | threads/thread.c:358-385 | the effect that SchedulerCalls.ExitDoes describes |
| ThreadLibraries.ThreadLibrary.KillThread | threads/thread.c:387-405 | the effect that SchedulerCalls.KillDoes describes |
| ThreadLibraries.ThreadLibrary.WaitForThread | threads/thread.c:521-531 | the effect that SchedulerCalls.WaitDoes describes |
| ThreadLibraries.ThreadLibrary.AcquireLock | threads/thread.c:564-576 | the effect that SchedulerCalls.AcquireDoes describes |
| ThreadLibraries.ThreadLibrary.ReleaseLock | threads/thread.c:578-587 | the effect that SchedulerCalls.ReleaseDoes describes |
| ThreadLibraries.ThreadLibrary.WaitOnCv | threads/thread.c:621-637 | the effect that SchedulerCalls.CvWaitIsAtomic describes |
| ThreadLibraries.ThreadLibrary.WakeCv | threads/thread.c:640-667 | the effect that SchedulerCalls.CvWakeDoes describes |
| ThreadLibraries.ThreadLibrary.FinishSleep | threads/thread.c:456-461 | the effect that SchedulerCalls.ResumeDoes describes |

## Left out

- ReadWrite.ReadData: requires start <= i_size, because beyond the end the code's unsigned subtraction wraps around; reads of 2^31 bytes and more, whose totals the code keeps in 32 bits, are not modelled.
- Reclaim.FreeBlocks: after a block that is not the file's is zeroed, nothing more is modelled.
- ReadWrite.WriteData: offsets are unbounded; block numbers that overflow a C int and write sizes of 2^31 and more are not modelled.
- InodeCaches.InodeCache.SyncInode: requires the size to fit its 64-bit field.
- InodeCaches.InodeCache.PutInode: requires a clean inode, as the assertion in the code does.
- CacheTables.FileCache.ProbeFor: requires that probing ends; otherwise the loop in the code runs forever (FileCaches.EndsIff).
- ThreadLibraries.ThreadLibrary.AcquireLock: requires that the lock is free or another thread is ready; otherwise the loop in the code spins with interrupts off.
- ThreadLibraries.ThreadLibrary.WaitOnCv: the same.
- ThreadLibraries.ThreadLibrary.FinishSleep: the same.
- DirectoryFiles.WriteRecord: for a failed write over an existing record, possible only in a directory with holes, it does not say what the directory holds.
- Namespaces.CreateKeepsTree: covers creation that succeeds or finds the name taken; for running out of space see CreateCommands.Create.
- SchedulerInvariants.KillKeeps: requires that the victim waits for no lock or condition and in no user queue, which the code does not clean up.
- SchedulerCalls.KillDoes: the same.
- ThreadLibraries.ThreadLibrary.KillThread: the same.
- SchedulerCalls.WaitDoes: requires a target that has not exited (SchedulerRuns.WaitForExitedIsLost).
- ThreadLibraries.ThreadLibrary.WaitForThread: the same.
- SchedulerRuns.MutualExclusion: holders are thread numbers; a number freed by an exit or a kill passes the lock to the next thread that gets it (SchedulerRuns.SameThread).
- WriteCommands.Write: the offset and the length fit a 64-bit size; `read` is left out.
- Signedness of block numbers and counters on disk, and layout padding: fields are little-endian words that never exceed their range.
- Files hold NUL-terminated names; a name is its bytes without the NUL. Command parsing, `ls`, `stat` and `fsstat` are left out.
- Seeking in the device file, checking its errors, closing it, and the block trees and logs that do not come from this code.
- Local buffers cleared after a block was freed, which nobody reads again.
- malloc failure, leaks, printing, logging and freeing of memory at shutdown.
- The web server's sockets and HTTP text: a request is a name, reading a file is a fixed function from names to bytes.
- Server shutdown, which broadcasts without the mutex, and running without worker threads.
- Contexts, signals, timers and stacks of threads: a timer interrupt is a yield to any thread between two calls.
- The number returned by a yield after the thread it names has been reclaimed.
- Destruction of queues, locks and condition variables; a free lock has no waiters (SchedulerRuns.MutualExclusion).
- The older copy of the thread library in threads/os-101.
