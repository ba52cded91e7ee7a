/** Making a file system, and mounting it. */
module MountCommands {
  import opened Blocks
  import opened BlockTree
  import opened Bitmaps
  import opened Errors
  import opened Volumes
  import opened Inodes
  import opened WriteCosts
  import opened ReadWrite
  import opened Reclaim
  import opened SoundFiles
  import opened InodeCaches
  import opened DirectoryFiles
  import opened Commands
  import opened CreateCommands
  import opened Scenarios
  import D = Directories
  import N = Namespaces

  /** The root directory alone. */
  const ROOT_LOGS: map<nat, D.Log> := map[N.ROOT := N.EmptyDirectory(N.ROOT, N.ROOT)]

  lemma RootDescribes(data0: seq<Block>, data: seq<Block>, table: map<nat, Dinode>)
    requires OthersSame(data0, FreeInodes(NR_INODES), data, table, N.ROOT) && table[N.ROOT].itype == I_DIR
    requires HoldsLog(data, table[N.ROOT], N.EmptyDirectory(N.ROOT, N.ROOT))
    ensures Described(data, table, {N.ROOT}, ROOT_LOGS, N.ROOT, map[N.ROOT := 0])
    ensures SpaceOf(table, ROOT_LOGS, N.ROOT) == N.Space(ROOT_LOGS, {}, N.ROOT)
  {
    hide HoldsLog, SameContent, SamePlaces;
    forall nr: nat ensures KindRight(table, {N.ROOT}, ROOT_LOGS, nr) && DirectoryHolds(data, table, ROOT_LOGS, nr) {}
    assert FilesOf(table) == {};
    N.RootIsTree(N.Space(ROOT_LOGS, {}, N.ROOT));
  }

  /** Makes the root directory on an empty file system, which takes one block. */
  method MakeRootDir(c: InodeCache) returns (ret: int)
    requires c.Valid() && c.stale == {} && AllSound(c.sb.Data(), c.sb.table) && c.hash == map[] && c.outstanding == multiset{}
    requires c.sb.table == FreeInodes(NR_INODES) && c.sb.inodeFreemap.Bits() == {}
    modifies c, c.sb`dev, c.sb`usedInodeCount, c.sb`usedBlockCount, c.sb`owner, c.sb`table, c.sb.inodeFreemap.v, c.sb.blockFreemap.v
    ensures c.Valid() && ret == if old(c.sb.FreeBlocks()) > 0 then 0 else -ENOSPC
    ensures AllSound(c.sb.Data(), c.sb.table) && c.stale == {} && c.hash == map[] && c.outstanding == multiset{}
    ensures ret < 0 ==> c.sb.table == old(c.sb.table) && c.sb.inodeFreemap.Bits() == {}
    ensures ret == 0 ==>
              && c.sb.inodeFreemap.Bits() == {N.ROOT} && c.sb.FreeBlocks() == old(c.sb.FreeBlocks()) - 1
              && Described(c.sb.Data(), c.sb.table, {N.ROOT}, ROOT_LOGS, N.ROOT, map[N.ROOT := 0])
              && SpaceOf(c.sb.table, ROOT_LOGS, N.ROOT) == N.Space(ROOT_LOGS, {}, N.ROOT)
  {
    hide Volumes.Consistent, Linked, Counted, LooseBlocks, Marked, TailMarked, DiskInode, OthersSame, Covered, Sound, AllSound, HoldsLog,
         Described;
    ghost var data0, table0 := c.sb.Data(), c.sb.table;
    ZeroIsFree(c);
    var created: Inode?;
    ret, created := c.CreateInode(I_DIR);
    OthersOfUpdate(data0, table0, created.nr, created.din);
    ret := FillRoot(c, created, data0);
    if ret == 0 {
      RootDescribes(data0, c.sb.Data(), c.sb.table);
    }
  }

  /** The rest once the inode is there: its entries, and the inode to disk, or the inode is removed again. */
  method FillRoot(c: InodeCache, inode: Inode, ghost data0: seq<Block>) returns (ret: int)
    requires c.Valid() && c.stale == {} && AllSound(c.sb.Data(), c.sb.table)
    requires c.hash == map[N.ROOT := inode] && c.outstanding == multiset{N.ROOT}
    requires inode.nr == N.ROOT && inode.din == FREE_DINODE.(itype := I_DIR) && inode.dirty && c.sb.inodeFreemap.Bits() == {N.ROOT}
    requires OthersSame(data0, FreeInodes(NR_INODES), c.sb.Data(), c.sb.table, N.ROOT)
    requires c.sb.table == FreeInodes(NR_INODES)[N.ROOT := inode.din]
    modifies c, inode, c.sb`dev, c.sb`usedInodeCount, c.sb`usedBlockCount, c.sb`owner, c.sb`table, c.sb.inodeFreemap.v, c.sb.blockFreemap.v
    ensures c.Valid() && ret == if old(c.sb.FreeBlocks()) > 0 then 0 else -ENOSPC
    ensures AllSound(c.sb.Data(), c.sb.table) && c.stale == {} && c.hash == map[] && c.outstanding == multiset{}
    ensures ret < 0 ==> c.sb.table == FreeInodes(NR_INODES) && c.sb.inodeFreemap.Bits() == {}
    ensures ret == 0 ==>
              && c.sb.inodeFreemap.Bits() == {N.ROOT} && c.sb.FreeBlocks() == old(c.sb.FreeBlocks()) - 1
              && OthersSame(data0, FreeInodes(NR_INODES), c.sb.Data(), c.sb.table, N.ROOT)
              && N.ROOT in c.sb.table && c.sb.table[N.ROOT].itype == I_DIR
              && HoldsLog(c.sb.Data(), c.sb.table[N.ROOT], N.EmptyDirectory(N.ROOT, N.ROOT))
  {
    hide Volumes.Consistent, Linked, Counted, LooseBlocks, Marked, TailMarked, DiskInode, OthersSame, Covered, Sound, AllSound, HoldsLog;
    ghost var data1, table1 := c.sb.Data(), c.sb.table;
    ret := CreateEmptyDir(c, inode, inode.nr);
    OthersTrans(data0, FreeInodes(NR_INODES), data1, table1, c.sb.Data(), c.sb.table, inode.nr);
    MapPutBack(map[], inode.nr, inode);
    if ret < 0 {
      DropRoot(c, inode, data0);
      return;
    }
    OffsetInFile(c.sb.Data(), inode.din, N.EmptyDirectory(N.ROOT, N.ROOT), 0);
    Save(c, inode);
  }

  /** Removes the root inode again. */
  method DropRoot(c: InodeCache, inode: Inode, ghost data0: seq<Block>)
    requires c.Valid() && AllSound(c.sb.Data(), c.sb.table) && c.hash == map[N.ROOT := inode] && c.outstanding == multiset{N.ROOT}
    requires inode.nr == N.ROOT && c.sb.inodeFreemap.Bits() == {N.ROOT} && c.stale <= {N.ROOT} && Covered(c.sb.Data(), inode.din)
    requires OthersSame(data0, FreeInodes(NR_INODES), c.sb.Data(), c.sb.table, N.ROOT)
    modifies c, inode, c.sb`dev, c.sb`usedInodeCount, c.sb`usedBlockCount, c.sb`owner, c.sb`table, c.sb.inodeFreemap.v, c.sb.blockFreemap.v
    ensures c.Valid() && c.hash == map[] && c.outstanding == multiset{} && c.stale == {} && AllSound(c.sb.Data(), c.sb.table)
    ensures c.sb.table == FreeInodes(NR_INODES) && c.sb.inodeFreemap.Bits() == {}
  {
    hide Volumes.Consistent, Linked, Counted, LooseBlocks, Marked, TailMarked, DiskInode, Covered, Sound, AllSound, SameContent, SamePlaces;
    MapPutBack(map[], inode.nr, inode);
    var ok := c.RemoveInode(inode);
    assert c.sb.table == FreeInodes(NR_INODES);
  }

  lemma ZeroIsFree(c: InodeCache)
    requires c.Valid() && c.sb.inodeFreemap.Bits() == {}
    ensures c.sb.inodeFreemap.Valid() && 0 !in c.sb.inodeFreemap.Bits()
  {}

  /** Makes a file system with its root directory and mounts it: this is where a session of Namespaces begins. */
  method MakeAndMount(max: nat) returns (ret: int, c: InodeCache, cur: Inode?)
    requires max < WORD_LIMIT * WORD_LIMIT
    ensures ret == (if max > 0 then 0 else -ENOSPC) && (ret == 0 <==> cur != null)
    ensures ret == 0 ==> Mounted(c, cur, ROOT_LOGS, map[N.ROOT := 0])
    ensures ret == 0 ==> SpaceOf(c.sb.table, ROOT_LOGS, cur.nr) == N.Space(ROOT_LOGS, {}, N.ROOT)
    ensures fresh(c) && fresh(c.sb) && fresh(c.sb.inodeFreemap.v) && fresh(c.sb.blockFreemap.v) && (cur != null ==> fresh(cur))
    ensures ret == 0 ==> cur.nr == N.ROOT && (max < NR_DATA_BLOCKS ==> c.sb.FreeBlocks() == max - 1)
  {
    hide Volumes.Consistent, Linked, Counted, LooseBlocks, Marked, TailMarked, DiskInode, AllSound, HoldsLog, Described;
    cur := null;
    c := NewFileSystem(max);
    CountedNever(c);
    ret := MakeRootDir(c);
    if ret == 0 {
      cur := Borrow(c, N.ROOT);
    }
  }

  lemma CountedNever(c: InodeCache)
    requires c.Valid() && c.hash == map[]
    ensures c.outstanding == multiset{}
  {
    forall nr: nat ensures c.outstanding[nr] == 0 {
      assert c.CachedRight(nr);
    }
  }

  // ---------------------------------------------------------------- mounting again

  /** Between commands the device holds every inode. */
  lemma AllStored(c: InodeCache, cur: Inode, logs: map<nat, D.Log>, rank: map<nat, nat>)
    requires Mounted(c, cur, logs, rank)
    ensures forall nr: nat | nr < NR_INODES :: nr in c.sb.table && DiskInode(c.sb.InodeBlocks(), nr) == c.sb.table[nr]
    ensures forall nr: nat | nr < NR_INODES && nr !in c.sb.inodeFreemap.Bits() :: nr in c.sb.table && c.sb.table[nr] == FREE_DINODE
  {
    hide Linked, Counted, LooseBlocks, DiskInode, Described, AllSound;
    forall nr: nat | nr < NR_INODES
      ensures nr in c.sb.table && DiskInode(c.sb.InodeBlocks(), nr) == c.sb.table[nr]
      ensures nr !in c.sb.inodeFreemap.Bits() ==> c.sb.table[nr] == FREE_DINODE
    {
      assert c.StoredRight(nr) && c.FreeRight(nr);
    }
  }

  /** The same volume with the root as the current directory. */
  lemma RootIsCurrent(data: seq<Block>, table: map<nat, Dinode>, bits: set<nat>, logs: map<nat, D.Log>, cur: nat, rank: map<nat, nat>)
    requires Described(data, table, bits, logs, cur, rank)
    ensures Described(data, table, bits, logs, N.ROOT, rank)
  {
    N.AnyCurrent(SpaceOf(table, logs, cur), rank, N.ROOT);
  }

  /**
   * Mounting the device again between any two commands gives the same tree, with the root as the current directory, and
   * every file with the bytes it had.
   */
  method MountAgain(c: InodeCache, cur: Inode, ghost logs: map<nat, D.Log>, ghost rank: map<nat, nat>) returns (c': InodeCache, cur': Inode)
    requires Mounted(c, cur, logs, rank)
    ensures fresh(c') && fresh(c'.sb) && Mounted(c', cur', logs, rank) && cur'.nr == N.ROOT
    ensures c'.sb.Data() == c.sb.Data() && c'.sb.table == c.sb.table && c'.sb.FreeBlocks() == c.sb.FreeBlocks()
    ensures forall k | k in c.sb.table ::
              && c.sb.table[k].size <= MAX_FILE_SIZE
              && FileBytes(c'.sb.Data(), c'.sb.table[k]) == FileBytes(c.sb.Data(), c.sb.table[k])
  {
    hide Volumes.Consistent, Linked, Counted, LooseBlocks, Marked, TailMarked, DiskInode, Described, AllSound, FileBytes;
    InodeWords(c.sb);
    RootIsCurrent(c.sb.Data(), c.sb.table, c.sb.inodeFreemap.Bits(), logs, cur.nr, rank);
    forall k | k in c.sb.table ensures c.sb.table[k].size <= MAX_FILE_SIZE {
      SoundOne(c.sb.Data(), c.sb.table, k);
    }
    c' := CacheAgain(c, cur, logs, rank);
    CountedNever(c');
    cur' := Borrow(c', N.ROOT);
  }

  /** The first half: the super block and the freemaps from the device, and an empty inode cache. */
  method CacheAgain(c: InodeCache, cur: Inode, ghost logs: map<nat, D.Log>, ghost rank: map<nat, nat>) returns (c': InodeCache)
    requires Mounted(c, cur, logs, rank)
    ensures fresh(c') && fresh(c'.sb) && Calm(c') && c'.hash == map[]
    ensures c'.sb.Data() == c.sb.Data() && c'.sb.table == c.sb.table && c'.sb.FreeBlocks() == c.sb.FreeBlocks()
    ensures c'.sb.inodeFreemap.Bits() == c.sb.inodeFreemap.Bits()
  {
    hide Linked, Counted, LooseBlocks, DiskInode, Described, AllSound;
    AllStored(c, cur, logs, rank);
    var w := Remount(c.sb);
    c' := new InodeCache(w);
  }

  // ---------------------------------------------------------------- what a failed creation leaves

  /** An entry of 24600 bytes cannot be appended to a directory of one block and 21 bytes with one block free. */
  lemma LongEntry(data: seq<Block>, d: Dinode, name: D.Name)
    requires Sound(data, d) && d.itype == I_DIR && d.size == 21 && EntrySize(name) == 24600
    ensures WriteReturns(data, d, 21, EntrySize(name), 1) == -ENOSPC
    ensures !EntryTears(data, d, name, 1) && EntryDirties(data, d, name, 1)
  {
    assert !IsHole(data, d, 0) && IsHole(data, d, 1) && IsHole(data, d, 2);
    assert Cost(data, d, 0, 0) == 0 && Cost(data, d, 0, 1) == 0 && Cost(data, d, 0, 2) == 1 && Cost(data, d, 0, 3) == 2;
    assert LastBlock(21, 24600) == 3;
    assert Stop(data, d, 0, 0, 3, 1) == Stop(data, d, 0, 1, 3, 1) == Stop(data, d, 0, 2, 3, 1) == 2;
  }

  /** What the code looks at when a name is added to a new root directory. */
  lemma RootEntry(name: D.Name)
    requires name != D.DOT && name != D.DOTDOT
    ensures var log := N.EmptyDirectory(N.ROOT, N.ROOT); D.Lookup(log, name).None? && D.AddStop(log, name, 0) == 2 && D.Offset(log, 2) == 21
  {
    var log := N.EmptyDirectory(N.ROOT, N.ROOT);
    assert D.Offset(log, 1) == D.Offset(log, 0) + D.Size(log[0]) && D.Offset(log, 2) == D.Offset(log, 1) + D.Size(log[1]);
    assert D.Find(log, name, 0) == D.Find(log, name, 1) == D.Find(log, name, 2) == 2;
    assert D.AddStop(log, name, 0) == D.AddStop(log, name, 1) == D.AddStop(log, name, 2) == 2;
  }

  /**
   * On a new file system with two blocks, creating a file with such a name fails after taking the other block for the
   * current directory. Nothing but the dirty flag and that block tell: the directory holds its old entries. But it is
   * not written to disk, and giving it back, as the next change of directory does, fails the assertion that it is clean.
   */
  method DirectoryLeftDirty() returns (ret: int, c: InodeCache, cur: Inode?)
    ensures ret == -ENOSPC && cur != null && cur.dirty && c.Valid() && c.hash == map[N.ROOT := cur]
    ensures HoldsLog(c.sb.Data(), cur.din, N.EmptyDirectory(N.ROOT, N.ROOT))
    ensures forall logs, rank :: !Mounted(c, cur, logs, rank)
  {
    hide Volumes.Consistent, Linked, Counted, LooseBlocks, Marked, TailMarked, DiskInode, Sound, AllSound, HoldsLog, Described,
         WriteReturns,
         EntryTears, EntryDirties, EntryKeepsSound, D.Offset, D.AddStop, D.Lookup, N.EmptyDirectory;
    ret, c, cur := MakeAndMount(2);
    var name: D.Name := seq(24591, _ => 1);
    NewRoot(c, cur);
    ghost var data0, d0, table0 := c.sb.Data(), cur.din, c.sb.table;
    SoundOne(data0, table0, N.ROOT);
    RootEntry(name);
    LongEntry(data0, d0, name);
    ghost var nr, after, rank;
    ret, nr, after, rank := Create(c, cur, false, name, ROOT_LOGS, map[N.ROOT := 0]);
    InodeWords(c.sb);
    assert c.CachedRight(N.ROOT);
    DescribedHolds(c.sb.Data(), c.sb.table, c.sb.inodeFreemap.Bits(), ROOT_LOGS, N.ROOT, map[N.ROOT := 0]);
  }

  /** The root directory of a new file system. */
  lemma NewRoot(c: InodeCache, cur: Inode)
    requires Mounted(c, cur, ROOT_LOGS, map[N.ROOT := 0]) && cur.nr == N.ROOT
    requires SpaceOf(c.sb.table, ROOT_LOGS, cur.nr) == N.Space(ROOT_LOGS, {}, N.ROOT)
    ensures cur.din.size == 21 && cur.din.itype == I_DIR && N.ROOT in c.sb.table && c.sb.table[N.ROOT] == cur.din
    ensures c.sb.inodeFreemap.Valid() && CanFill(c.sb.inodeFreemap.Bits(), false, c.sb.FreeBlocks())
  {
    CurrentDirectory(c, cur, ROOT_LOGS, map[N.ROOT := 0]);
    SizeIsOffset(c.sb.Data(), cur.din, ROOT_LOGS[N.ROOT]);
    hide HoldsLog;
    RootEntry([1]);
    assert KindRight(c.sb.table, c.sb.inodeFreemap.Bits(), ROOT_LOGS, 1);
    assert 1 !in FilesOf(c.sb.table);
  }
}
