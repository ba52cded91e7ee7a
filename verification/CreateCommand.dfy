/** Creating files and directories on a mounted file system. */
module CreateCommands {
  import opened Blocks
  import opened BlockTree
  import opened Bitmaps
  import opened Errors
  import opened Options
  import opened Volumes
  import opened Inodes
  import opened WriteCosts
  import opened ReadWrite
  import opened Reclaim
  import opened FileTheorems
  import opened SoundFiles
  import opened InodeCaches
  import opened DirectoryFiles
  import opened Commands
  import D = Directories
  import N = Namespaces

  lemma OthersTrans(data0: seq<Block>, table0: map<nat, Dinode>, data1: seq<Block>, table1: map<nat, Dinode>,
                    data2: seq<Block>, table2: map<nat, Dinode>, k: nat)
    requires OthersSame(data0, table0, data1, table1, k) && OthersSame(data1, table1, data2, table2, k)
    ensures OthersSame(data0, table0, data2, table2, k)
  {}

  lemma OthersOfUpdate(data: seq<Block>, table: map<nat, Dinode>, k: nat, d: Dinode)
    requires k in table
    ensures OthersSame(data, table, data, table[k := d], k)
  {}

  /** After a new inode was filled and entered in the current directory. */
  lemma CreateDescribes(data0: seq<Block>, table0: map<nat, Dinode>, bits: set<nat>, logs: map<nat, D.Log>, cur: nat, rank: map<nat, nat>,
                        isDir: bool, name: D.Name, nr: nat, data1: seq<Block>, table1: map<nat, Dinode>, data2: seq<Block>,
                        table2: map<nat, Dinode>)
    requires Described(data0, table0, bits, logs, cur, rank) && nr !in bits
    requires nr < NR_INODES && cur < NR_INODES && D.Lookup(logs[cur], name).None?
    requires OthersSame(data0, table0, data1, table1, nr) && OthersSame(data1, table1, data2, table2, cur)
    requires table1[nr].itype == (if isDir then I_DIR else I_FILE) && (isDir ==> HoldsLog(data1, table1[nr], N.EmptyDirectory(nr, cur)))
    requires table2[cur].itype == I_DIR && D.Add(logs[cur], name, nr).Some?
    requires HoldsLog(data2, table2[cur], D.Add(logs[cur], name, nr).value)
    ensures cur in logs && cur in rank && nr !in logs && nr !in FilesOf(table0)
    ensures var (s', r) := N.Create(SpaceOf(table0, logs, cur), isDir, name, nr);
            && r == 0 && SpaceOf(table2, s'.dirs, cur) == s'
            && Described(data2, table2, bits + {nr}, s'.dirs, cur, if isDir then rank[nr := rank[cur] + 1] else rank)
  {
    hide HoldsLog, D.Add, SameContent, SamePlaces;
    var s := SpaceOf(table0, logs, cur);
    assert KindRight(table0, bits, logs, cur) && KindRight(table0, bits, logs, nr);
    N.CreateKeepsTree(s, rank, isDir, name, nr);
    hide N.IsTree;
    var s' := N.Create(s, isDir, name, nr).0;
    forall k: nat ensures KindRight(table2, bits + {nr}, s'.dirs, k) {
      assert KindRight(table0, bits, logs, k);
    }
    forall k ensures k in FilesOf(table2) <==> k in FilesOf(table0) || (k == nr && !isDir) {}
    assert FilesOf(table2) == s'.files;
    forall k: nat ensures DirectoryHolds(data2, table2, s'.dirs, k) {
      assert DirectoryHolds(data0, table0, logs, k);
      if k == cur {
        AddedNumbers(logs[cur], name, nr);
      } else if k == nr {
        if isDir {
          SameLog(data1, table1[nr], data2, N.EmptyDirectory(nr, cur));
        }
      } else {
        SameDirectory(data0, table0, data1, table1, logs, nr, k);
        SameDirectory(data1, table1, data2, table2, logs, cur, k);
      }
    }
  }

  lemma AddedNumbers(log: D.Log, name: D.Name, nr: nat)
    requires D.Add(log, name, nr).Some? && nr < NR_INODES && forall i | 0 <= i < |log| :: log[i].inodeNr < NR_INODES
    ensures forall i | 0 <= i < |D.Add(log, name, nr).value| :: D.Add(log, name, nr).value[i].inodeNr < NR_INODES
  {}

  /** After a new inode was given up again. */
  lemma StillDescribes(data0: seq<Block>, table0: map<nat, Dinode>, bits: set<nat>, logs: map<nat, D.Log>, cur: nat, rank: map<nat, nat>,
                       data1: seq<Block>, nr: nat)
    requires Described(data0, table0, bits, logs, cur, rank) && nr !in bits && OthersSame(data0, table0, data1, table0, nr)
    ensures Described(data1, table0, bits, logs, cur, rank)
  {
    hide HoldsLog, SameContent, SamePlaces, N.IsTree;
    assert KindRight(table0, bits, logs, nr);
    forall k: nat ensures DirectoryHolds(data1, table0, logs, k) {
      assert DirectoryHolds(data0, table0, logs, k);
      if k != nr {
        SameDirectory(data0, table0, data1, table0, logs, nr, k);
      }
    }
  }

  lemma EmptyDirectoryLogs(nr: nat, parent: nat)
    ensures D.Add([], D.DOT, nr) == Some([D.Record(nr, D.DOT)])
    ensures D.Add([D.Record(nr, D.DOT)], D.DOTDOT, parent) == Some(N.EmptyDirectory(nr, parent))
    ensures D.ValidName(D.DOT) && D.ValidName(D.DOTDOT) && |D.DOT| == 1 && |D.DOTDOT| == 2
    ensures D.AddStop([], D.DOT, 0) == 0 == D.Offset([], 0)
    ensures D.AddStop([D.Record(nr, D.DOT)], D.DOTDOT, 0) == 1 && D.Offset([D.Record(nr, D.DOT)], 1) == D.Size(D.Record(nr, D.DOT))
  {
    var self, up := D.Record(nr, D.DOT), D.Record(parent, D.DOTDOT);
    assert D.AddStop([], D.DOT, 0) == 0 && [] + [self] == [self];
    assert D.Offset([self], 1) == D.Offset([self], 0) + D.Size(self);
    assert D.AddStop([self], D.DOTDOT, 0) == D.AddStop([self], D.DOTDOT, 1) == 1 && [self] + [up] == [self, up];
  }

  lemma EmptyFileHolds(data: seq<Block>, d: Dinode)
    requires d.size == 0
    ensures HoldsLog(data, d, [])
  {}

  lemma SizeOfOne(data: seq<Block>, d: Dinode, r: D.Record)
    requires HoldsLog(data, d, [r])
    ensures d.size == D.Size(r)
  {
    assert D.Offset([r], 1) == D.Offset([r], 0) + D.Size(r);
  }

  /** A write within the first block keeps a file sound whatever its outcome. */
  lemma FirstBlock(data: seq<Block>, d: Dinode, start: nat, buf: seq<byte>, free: nat)
    requires |buf| > 0 && start + |buf| <= BLOCK_SIZE && start <= d.size <= MAX_FILE_SIZE
    ensures StaysSound(data, d, start, buf, free)
  {
    if WriteReturns(data, d, start, |buf|, free) >= 0 {
      SuccessIsSound(data, d, start, buf, free);
    }
  }

  /** Writing within the first block of a file takes that block, if it is missing. */
  lemma FirstEntries(data: seq<Block>, d: Dinode, start: nat, n: nat, free: nat)
    requires n > 0 && start + n <= BLOCK_SIZE
    ensures WriteReturns(data, d, start, n, free) == if free > 0 || !IsHole(data, d, 0) then n else -ENOSPC
    ensures WriteReturns(data, d, start, n, free) >= 0 ==> FreeAfter(data, d, start, n, free) == free - if IsHole(data, d, 0) then 1 else 0
  {
    assert LastBlock(start, n) == start / BLOCK_SIZE == 0;
    assert Cost(data, d, 0, 1) == Cost(data, d, 0, 0) + Extra(data, d, 0, 0);
    WriteSucceedsIff(data, d, start, n, free);
  }

  /** A directory that is not empty has its first block. */
  lemma HasFirstBlock(data: seq<Block>, table: map<nat, Dinode>, k: nat)
    requires AllSound(data, table) && k in table && table[k].itype == I_DIR && table[k].size > 0
    ensures !IsHole(data, table[k], 0)
  {
    assert SoundAt(data, table, k);
  }

  /** Adding a record within the first block keeps all files sound, and takes that block if it is missing. */
  lemma SmallAdd(data0: seq<Block>, table0: map<nat, Dinode>, d0: Dinode, dirty0: bool, free0: nat, log: D.Log, k: nat, r: D.Record,
                 ret: int,
                 data: seq<Block>, table: map<nat, Dinode>, d: Dinode, dirty: bool, free: int)
    requires k <= |log| && D.ValidRecord(r) && AllSound(data0, table0)
    requires D.Offset(log, k) + D.Size(r) <= BLOCK_SIZE && D.Offset(log, k) <= d0.size <= MAX_FILE_SIZE
    requires AddEnds(data0, table0, d0, dirty0, free0, log, k, r, ret, data, table, d, dirty, free)
    ensures AllSound(data, table) && (dirty0 ==> dirty)
    ensures ret == if free0 > 0 || !IsHole(data0, d0, 0) then D.Size(r) else -ENOSPC
    ensures ret >= 0 ==> free == free0 - if IsHole(data0, d0, 0) then 1 else 0
  {
    hide AllSound, StaysSound, WriteReturns, HoldsLog, D.Encode, FreeAfter, IsHole, WriteEnd, Cost;
    FirstBlock(data0, d0, D.Offset(log, k), D.Encode(r), free0);
    FirstEntries(data0, d0, D.Offset(log, k), D.Size(r), free0);
  }

  lemma NewHole(data: seq<Block>, d: Dinode)
    requires d == FREE_DINODE.(itype := d.itype)
    ensures IsHole(data, d, 0)
  {}

  /** Writes `.` and `..` into a new directory; that takes one block. */
  method CreateEmptyDir(c: InodeCache, dir: Inode, parent: nat) returns (ret: int)
    requires c.Valid() && dir.nr in c.hash && c.hash[dir.nr] == dir && dir.nr in c.sb.inodeFreemap.Bits() && dir.dirty
    requires dir.din == FREE_DINODE.(itype := I_DIR) && parent < NR_INODES && dir.nr < NR_INODES && AllSound(c.sb.Data(), c.sb.table)
    modifies dir, c.sb`dev, c.sb`usedBlockCount, c.sb`owner, c.sb`table, c.sb.blockFreemap.v, c`stale
    ensures c.Valid() && OthersSame(old(c.sb.Data()), old(c.sb.table), c.sb.Data(), c.sb.table, dir.nr) && dir.dirty
    ensures c.sb.table[dir.nr] == dir.din && dir.din.itype == I_DIR && Covered(c.sb.Data(), dir.din)
    ensures ret == (if old(c.sb.FreeBlocks()) > 0 then 0 else -ENOSPC) && c.stale <= old(c.stale) + {dir.nr}
    ensures ret == 0 ==> c.sb.FreeBlocks() == old(c.sb.FreeBlocks()) - 1
    ensures ret == 0 ==> HoldsLog(c.sb.Data(), dir.din, N.EmptyDirectory(dir.nr, parent)) && c.stale == old(c.stale) - {dir.nr}
    ensures AllSound(c.sb.Data(), c.sb.table)
  {
    hide Volumes.Consistent, Linked, Counted, LooseBlocks, Marked, TailMarked, DiskInode, OthersSame, Covered, Sound, AllSound, HoldsLog,
         D.Add, AddEnds, D.AddStop,
         IsHole, WriteReturns, LosesSize;
    ghost var data0, table0 := c.sb.Data(), c.sb.table;
    assert c.CachedRight(dir.nr);
    SoundOne(c.sb.Data(), c.sb.table, dir.nr);
    EmptyFileHolds(c.sb.Data(), dir.din);
    EmptyDirectoryLogs(dir.nr, parent);
    ghost var d0, dirty0, free0 := dir.din, dir.dirty, c.sb.FreeBlocks();
    ret := AddDirent(c, dir, D.DOT, dir.nr, []);
    ghost var data1, table1, d1, dirty1, free1 := c.sb.Data(), c.sb.table, dir.din, dir.dirty, c.sb.FreeBlocks();
    SmallAdd(data0, table0, d0, dirty0, free0, [], 0, D.Record(dir.nr, D.DOT), ret, data1, table1, d1, dirty1, free1);
    NewHole(data0, d0);
    InTable(data0, table0, data1, table1, dir.nr);
    SoundOne(data1, table1, dir.nr);
    if ret < 0 {
      return;
    }
    SizeOfOne(data1, dir.din, D.Record(dir.nr, D.DOT));
    HasFirstBlock(data1, table1, dir.nr);
    ret := AddSecond(c, dir, parent, data1, table1);
    OthersTrans(data0, table0, data1, table1, c.sb.Data(), c.sb.table, dir.nr);
    ret := 0;
  }

  /** Writes `..`; the block is there, so this succeeds, and the code's attempt to take `.` back never runs. */
  method AddSecond(c: InodeCache, dir: Inode, parent: nat, ghost data1: seq<Block>, ghost table1: map<nat, Dinode>) returns (ret: int)
    requires c.Valid() && dir.nr in c.hash && c.hash[dir.nr] == dir && dir.nr in c.sb.inodeFreemap.Bits() && dir.dirty && dir.nr < NR_INODES
    requires data1 == c.sb.Data() && table1 == c.sb.table && dir.nr in table1 && table1[dir.nr] == dir.din && dir.din.itype == I_DIR
    requires HoldsLog(data1, dir.din, [D.Record(dir.nr, D.DOT)])
    requires dir.din.size == D.Size(D.Record(dir.nr, D.DOT)) && !IsHole(data1, dir.din, 0)
    requires parent < NR_INODES && AllSound(data1, table1)
    modifies dir, c.sb`dev, c.sb`usedBlockCount, c.sb`owner, c.sb`table, c.sb.blockFreemap.v, c`stale
    ensures c.Valid() && OthersSame(data1, table1, c.sb.Data(), c.sb.table, dir.nr) && dir.dirty && ret >= 0
    ensures dir.nr in c.sb.table && c.sb.table[dir.nr] == dir.din && dir.din.itype == I_DIR && Covered(c.sb.Data(), dir.din)
    ensures AllSound(c.sb.Data(), c.sb.table) && c.sb.FreeBlocks() == old(c.sb.FreeBlocks()) && c.stale == old(c.stale) - {dir.nr}
    ensures HoldsLog(c.sb.Data(), dir.din, N.EmptyDirectory(dir.nr, parent))
  {
    hide Volumes.Consistent, Linked, Counted, LooseBlocks, Marked, TailMarked, DiskInode, OthersSame, Covered, Sound, AllSound, HoldsLog,
         D.Add, AddEnds,
         D.AddStop, IsHole, WriteReturns, LosesSize;
    SoundOne(data1, table1, dir.nr);
    EmptyDirectoryLogs(dir.nr, parent);
    ghost var d1, free1 := dir.din, c.sb.FreeBlocks();
    ret := AddDirent(c, dir, D.DOTDOT, parent, [D.Record(dir.nr, D.DOT)]);
    SmallAdd(data1, table1, d1, true, free1, [D.Record(dir.nr, D.DOT)], 1, D.Record(parent, D.DOTDOT), ret,
             c.sb.Data(), c.sb.table, dir.din, dir.dirty, c.sb.FreeBlocks());
    InTable(data1, table1, c.sb.Data(), c.sb.table, dir.nr);
    SoundOne(c.sb.Data(), c.sb.table, dir.nr);
  }

  lemma InTable(data: seq<Block>, table: map<nat, Dinode>, data': seq<Block>, table': map<nat, Dinode>, k: nat)
    requires OthersSame(data, table, data', table', k)
    ensures k in table'
  {}

  // ---------------------------------------------------------------- what the state before says of the new entry

  function EntrySize(name: D.Name): nat {
    D.HEADER_SIZE + |name| + 1
  }

  /** What the write of a new entry returns. */
  ghost function EntryReturns(data: seq<Block>, d: Dinode, log: D.Log, name: D.Name, free: nat): int {
    WriteReturns(data, d, D.Offset(log, D.AddStop(log, name, 0)), EntrySize(name), free)
  }

  /** Whether that write, if it fails, leaves part of the entry at the end of the directory. */
  ghost predicate EntryTears(data: seq<Block>, d: Dinode, name: D.Name, free: nat) {
    Tears(data, d, EntrySize(name), free)
  }

  /** Whether it leaves a clean directory dirty, which nobody then writes to disk. */
  ghost predicate EntryDirties(data: seq<Block>, d: Dinode, name: D.Name, free: nat) {
    DirtyAfter(data, d, false, d.size, EntrySize(name), free)
  }

  ghost predicate EntryKeepsSound(data: seq<Block>, d: Dinode, name: D.Name, nr: nat, free: nat)
    requires D.ValidName(name) && nr < NR_INODES
  {
    StaysSound(data, d, d.size, D.Encode(D.Record(nr, name)), free)
  }

  /** Whether it leaves everything as it is between commands. */
  ghost predicate EntryHarmless(data: seq<Block>, d: Dinode, name: D.Name, nr: nat, free: nat)
    requires D.ValidName(name) && nr < NR_INODES
  {
    !EntryTears(data, d, name, free) && !EntryDirties(data, d, name, free) && EntryKeepsSound(data, d, name, nr, free)
  }

  /** Another file with the same places does not matter. */
  lemma SameEntry(data: seq<Block>, data': seq<Block>, d: Dinode, log: D.Log, name: D.Name, nr: nat, free: nat)
    requires SamePlaces(data, data', d) && D.ValidName(name) && nr < NR_INODES
    ensures EntryReturns(data', d, log, name, free) == EntryReturns(data, d, log, name, free)
    ensures EntryTears(data', d, name, free) == EntryTears(data, d, name, free)
    ensures EntryDirties(data', d, name, free) == EntryDirties(data, d, name, free)
    ensures EntryKeepsSound(data', d, name, nr, free) == EntryKeepsSound(data, d, name, nr, free)
  {
    SameFuture(data, data', d, D.Offset(log, D.AddStop(log, name, 0)), EntrySize(name), free);
    SameFuture(data, data', d, d.size, EntrySize(name), free);
    hide SamePlaces, WriteReturns, WriteEnd, WriteLength, NewSize, DirtyAfter, StaysCovered, D.Encode;
  }

  lemma LostMeansTorn(data: seq<Block>, d: Dinode, n: nat, free: nat)
    requires LosesSize(data, d, false, d.size, n, free)
    ensures Tears(data, d, n, free)
  {
    hide Stop, Cost;
  }

  lemma SizeIsOffset(data: seq<Block>, d: Dinode, log: D.Log)
    requires HoldsLog(data, d, log)
    ensures d.size == D.Offset(log, |log|)
  {}

  /** How entering a name that can be added ends. Only an append can fail. */
  lemma EntryEnds(data0: seq<Block>, table0: map<nat, Dinode>, d0: Dinode, free0: nat, log: D.Log, name: D.Name, nr: nat, ret: int,
                  data: seq<Block>, table: map<nat, Dinode>, d: Dinode, dirty: bool, free: int)
    requires D.ValidName(name) && nr < NR_INODES && AllSound(data0, table0) && d.itype == I_DIR && HoldsLog(data0, d0, log)
    requires AddEnds(data0, table0, d0, false, free0, log, D.AddStop(log, name, 0), D.Record(nr, name), ret, data, table, d, dirty, free)
    ensures ret == EntryReturns(data0, d0, log, name, free0)
    ensures ret >= 0 ==> AllSound(data, table)
    ensures ret < 0 ==>
              && (dirty <==> EntryDirties(data0, d0, name, free0))
              && (AllSound(data, table) <==> EntryKeepsSound(data0, d0, name, nr, free0))
              && (if EntryTears(data0, d0, name, free0) then !HoldsSome(data, d) else HoldsLog(data, d, log))
              && (!EntryTears(data0, d0, name, free0) ==>
                    !LosesSize(data0, d0, false, D.Offset(log, D.AddStop(log, name, 0)), EntrySize(name), free0))
  {
    SizeIsOffset(data0, d0, log);
    hide WriteReturns, Tears, AllSound, StaysSound, HoldsLog, HoldsSome, D.Encode, DirtyAfter, FreeAfter, LosesSize, D.AddStop, D.Offset,
         D.ValidName;
    var k := D.AddStop(log, name, 0);
    if ret < 0 {
      assert k == |log| && D.Offset(log, k) == d0.size;
      if LosesSize(data0, d0, false, d0.size, EntrySize(name), free0) {
        LostMeansTorn(data0, d0, EntrySize(name), free0);
      }
    }
  }

  // ---------------------------------------------------------------- creation

  /** There is a free inode and, for a directory, a free block. */
  ghost predicate CanFill(bits: set<nat>, isDir: bool, free: nat) {
    (isDir ==> free > 0) && exists i: nat :: i < NR_INODES && i !in bits
  }

  /** The free blocks when the entry is written. */
  function FreeThen(isDir: bool, free: nat): nat {
    if isDir && free > 0 then free - 1 else free
  }

  /**
   * What a creation leaves behind that could not write the new entry: the new inode is gone again, but the current
   * directory is not written to disk. Everything is as it is between commands exactly if the state before says that the
   * failed write is harmless.
   */
  ghost predicate EntryFailed(c: InodeCache, cur: Inode, logs: map<nat, D.Log>, rank: map<nat, nat>, bits: set<nat>, files: set<nat>,
                              data0: seq<Block>, d0: Dinode, name: D.Name, nr: nat, free: nat)
    requires D.ValidName(name) && nr < NR_INODES
    reads c, c.sb, c.sb.inodeFreemap.v, c.sb.blockFreemap.v, c.hash.Values, cur
  {
    && c.Valid() && c.hash == map[cur.nr := cur] && c.outstanding == multiset{cur.nr} && c.sb.inodeFreemap.Bits() == bits
    && (cur.dirty <==> EntryDirties(data0, d0, name, free))
    && (AllSound(c.sb.Data(), c.sb.table) <==> EntryKeepsSound(data0, d0, name, nr, free))
    && (if EntryTears(data0, d0, name, free) then !HoldsSome(c.sb.Data(), cur.din)
        else Described(c.sb.Data(), c.sb.table, bits, logs, cur.nr, rank) && FilesOf(c.sb.table) == files && c.stale == {})
    && (Mounted(c, cur, logs, rank) <==> EntryHarmless(data0, d0, name, nr, free))
  }

  /**
   * Creates a file or directory. What the volume describes afterwards is what Namespaces.Create says, with the lowest free
   * inode number. Whether that succeeds, and what a failure leaves behind, is told by the state before.
   */
  method Create(c: InodeCache, cur: Inode, isDir: bool, name: D.Name, ghost logs: map<nat, D.Log>, ghost rank: map<nat, nat>)
    returns (ret: int, ghost nr: nat, ghost after: map<nat, D.Log>, ghost rank': map<nat, nat>)
    requires Mounted(c, cur, logs, rank) && D.ValidName(name)
    modifies c, c.hash.Values, c.sb`dev, c.sb`usedInodeCount, c.sb`usedBlockCount, c.sb`owner, c.sb`table, c.sb.inodeFreemap.v,
             c.sb.blockFreemap.v
    ensures c.Valid() && cur.nr in logs
    ensures D.Lookup(logs[cur.nr], name).Some? ==> ret == -EEXIST
    ensures D.Lookup(logs[cur.nr], name).None? && !CanFill(old(c.sb.inodeFreemap.Bits()), isDir, old(c.sb.FreeBlocks())) ==> ret == -ENOSPC
    ensures D.Lookup(logs[cur.nr], name).Some? || !CanFill(old(c.sb.inodeFreemap.Bits()), isDir, old(c.sb.FreeBlocks())) ==>
              Mounted(c, cur, logs, rank) && c.sb.table == old(c.sb.table)
    ensures D.Lookup(logs[cur.nr], name).None? && CanFill(old(c.sb.inodeFreemap.Bits()), isDir, old(c.sb.FreeBlocks())) ==>
              var free := FreeThen(isDir, old(c.sb.FreeBlocks()));
              var w := EntryReturns(old(c.sb.Data()), old(cur.din), logs[cur.nr], name, free);
              && nr < NR_INODES && nr !in old(c.sb.inodeFreemap.Bits()) && (forall i: nat | i < nr :: i in old(c.sb.inodeFreemap.Bits()))
              && ret == (if w >= 0 then 0 else w)
              && (ret == 0 ==>
                    && nr !in logs && nr !in FilesOf(old(c.sb.table)) && Mounted(c, cur, after, rank')
                    && (SpaceOf(c.sb.table, after, cur.nr), 0) == N.Create(SpaceOf(old(c.sb.table), logs, cur.nr), isDir, name, nr))
              && (ret < 0 ==> EntryFailed(c, cur, logs, rank, old(c.sb.inodeFreemap.Bits()), FilesOf(old(c.sb.table)),
                                          old(c.sb.Data()), old(cur.din), name, nr, free))
  {
    hide Volumes.Consistent, Linked, Counted, LooseBlocks, Marked, TailMarked, DiskInode, OthersSame, Covered, Sound, AllSound, HoldsLog,
         D.Add,
         Described, N.Create, EntryReturns, EntryFailed;
    CurrentDirectory(c, cur, logs, rank);
    ghost var data0, table0, bits := c.sb.Data(), c.sb.table, c.sb.inodeFreemap.Bits();
    assert cur.nr in c.hash && cur in c.hash.Values;
    nr, after, rank' := 0, logs, rank;
    ret := LookupName(cur, name, logs[cur.nr]);
    if ret >= 0 {
      return -EEXIST, nr, after, rank';
    }
    var created: Inode?;
    ret, created := c.CreateInode(if isDir then I_DIR else I_FILE);
    if ret < 0 {
      SameDescription(data0, table0, bits, logs, cur.nr, rank, c.sb.Data(), c.sb.table);
      return;
    }
    assert created.nr != cur.nr;
    OthersOfUpdate(data0, table0, created.nr, created.din);
    ret, after, rank' := CompleteNew(c, cur, created, isDir, name, logs, rank, data0, table0, bits);
    nr := created.nr;
  }

  /** Creation from the point where there is a new inode. */
  method CompleteNew(c: InodeCache, cur: Inode, inode: Inode, isDir: bool, name: D.Name, ghost logs: map<nat, D.Log>, ghost rank: map<nat,
                     nat>,
                     ghost data0: seq<Block>, ghost table0: map<nat, Dinode>, ghost bits: set<nat>)
    returns (ret: int, ghost after: map<nat, D.Log>, ghost rank': map<nat, nat>)
    requires c.Valid() && c.hash == map[cur.nr := cur][inode.nr := inode]
    requires c.outstanding == multiset{cur.nr} + multiset{inode.nr} && c.stale == {}
    requires Described(data0, table0, bits, logs, cur.nr, rank) && cur.nr in logs && D.Lookup(logs[cur.nr], name).None? && D.ValidName(name)
    requires D.UniqueNames(logs[cur.nr])
    requires data0 == c.sb.Data() && c.sb.table == table0[inode.nr := inode.din] && AllSound(c.sb.Data(), c.sb.table)
    requires inode.nr in table0 && table0[inode.nr] == FREE_DINODE && cur.nr != inode.nr && !cur.dirty && inode.dirty
    requires inode.din == FREE_DINODE.(itype := if isDir then I_DIR else I_FILE) && inode.nr < NR_INODES && cur.nr < NR_INODES
    requires inode.nr !in bits && cur.nr in bits && c.sb.inodeFreemap.Bits() == bits + {inode.nr} && AllSound(data0, table0)
    modifies c, cur, inode, c.sb`dev, c.sb`usedInodeCount, c.sb`usedBlockCount, c.sb`owner, c.sb`table, c.sb.inodeFreemap.v,
             c.sb.blockFreemap.v
    ensures c.Valid()
    ensures isDir && old(c.sb.FreeBlocks()) == 0 ==> ret == -ENOSPC && Mounted(c, cur, logs, rank) && c.sb.table == table0
    ensures !isDir || old(c.sb.FreeBlocks()) > 0 ==>
              var free := FreeThen(isDir, old(c.sb.FreeBlocks()));
              var w := EntryReturns(data0, old(cur.din), logs[cur.nr], name, free);
              && ret == (if w >= 0 then 0 else w)
              && (ret == 0 ==>
                    && inode.nr !in logs && inode.nr !in FilesOf(table0) && Mounted(c, cur, after, rank')
                    && (SpaceOf(c.sb.table, after, cur.nr), 0) == N.Create(SpaceOf(table0, logs, cur.nr), isDir, name, inode.nr))
              && (ret < 0 ==> EntryFailed(c, cur, logs, rank, bits, FilesOf(table0), data0, old(cur.din), name, inode.nr, free))
  {
    hide Volumes.Consistent, Linked, Counted, LooseBlocks, Marked, TailMarked, DiskInode, OthersSame, Covered, Sound, AllSound, HoldsLog,
         D.Add,
         Described, N.Create, EntryReturns, EntryTears, EntryDirties, EntryKeepsSound;
    after, rank' := logs, rank;
    ghost var nr := inode.nr;
    assert c.CachedRight(nr) && c.CachedRight(cur.nr);
    OthersOfUpdate(data0, table0, nr, inode.din);
    ghost var table1 := c.sb.table;
    ret := FillInode(c, inode, isDir, cur.nr);
    OthersTrans(data0, table0, data0, table1, c.sb.Data(), c.sb.table, nr);
    if ret < 0 {
      GiveUpInode(c, cur, inode, data0, table0);
      StillDescribes(data0, table0, bits, logs, cur.nr, rank, c.sb.Data(), nr);
      return;
    }
    ret, after, rank' := EnterNew(c, cur, inode, isDir, name, logs, rank, data0, table0, bits);
  }

  /** Creation from the point where the new inode is filled. */
  method EnterNew(c: InodeCache, cur: Inode, inode: Inode, isDir: bool, name: D.Name, ghost logs: map<nat, D.Log>, ghost rank: map<nat,
                  nat>,
                  ghost data0: seq<Block>, ghost table0: map<nat, Dinode>, ghost bits: set<nat>)
    returns (ret: int, ghost after: map<nat, D.Log>, ghost rank': map<nat, nat>)
    requires c.Valid() && c.hash == map[cur.nr := cur][inode.nr := inode]
    requires c.outstanding == multiset{cur.nr} + multiset{inode.nr} && c.stale == {}
    requires Described(data0, table0, bits, logs, cur.nr, rank) && cur.nr in logs && D.Lookup(logs[cur.nr], name).None? && D.ValidName(name)
    requires D.UniqueNames(logs[cur.nr]) && OthersSame(data0, table0, c.sb.Data(), c.sb.table, inode.nr)
    requires AllSound(c.sb.Data(), c.sb.table)
    requires inode.nr in table0 && table0[inode.nr] == FREE_DINODE && cur.nr != inode.nr && !cur.dirty && inode.dirty
    requires inode.din.itype == (if isDir then I_DIR else I_FILE) && inode.nr < NR_INODES
    requires cur.nr < NR_INODES && inode.din.size <= MAX_FILE_SIZE
    requires inode.nr !in bits && cur.nr in bits && c.sb.inodeFreemap.Bits() == bits + {inode.nr} && c.sb.table[inode.nr] == inode.din
    requires isDir ==> HoldsLog(c.sb.Data(), inode.din, N.EmptyDirectory(inode.nr, cur.nr))
    modifies c, cur, inode, c.sb`dev, c.sb`usedInodeCount, c.sb`usedBlockCount, c.sb`owner, c.sb`table, c.sb.inodeFreemap.v,
             c.sb.blockFreemap.v
    ensures c.Valid()
    ensures var w := EntryReturns(data0, old(cur.din), logs[cur.nr], name, old(c.sb.FreeBlocks())); ret == if w >= 0 then 0 else w
    ensures ret == 0 ==>
              && inode.nr !in logs && inode.nr !in FilesOf(table0) && Mounted(c, cur, after, rank')
              && (SpaceOf(c.sb.table, after, cur.nr), 0) == N.Create(SpaceOf(table0, logs, cur.nr), isDir, name, inode.nr)
    ensures ret < 0 ==> EntryFailed(c, cur, logs, rank, bits, FilesOf(table0), data0, old(cur.din), name, inode.nr, old(c.sb.FreeBlocks()))
  {
    hide Volumes.Consistent, Linked, Counted, LooseBlocks, Marked, TailMarked, DiskInode, OthersSame, Covered, Sound, AllSound, HoldsLog,
         D.Add,
         Described, N.Create, EntryReturns, EntryTears, EntryDirties, EntryKeepsSound, HoldsSome;
    after, rank' := logs, rank;
    ghost var nr, d0, data2, table2, free2 := inode.nr, cur.din, c.sb.Data(), c.sb.table, c.sb.FreeBlocks();
    assert c.CachedRight(cur.nr);
    NameFits(data0, table0, bits, logs, cur.nr, rank, data2, table2, name, nr);
    SamePlacesOf(data0, table0, data2, table2, nr, cur.nr);
    SameEntry(data0, data2, d0, logs[cur.nr], name, nr, free2);
    ghost var data3, table3;
    ret, data3, table3 := EnterInode(c, cur, inode, name, logs[cur.nr]);
    if ret < 0 {
      if !EntryTears(data2, d0, name, free2) {
        FailureDescribes(data0, table0, bits, logs, cur.nr, rank, nr, data2, table2, data3, table3, c.sb.Data(), c.sb.table);
      } else {
        TornDescribesNone(c.sb.Data(), c.sb.table, bits, logs, cur.nr, rank);
      }
      return;
    }
    CreateDescribes(data0, table0, bits, logs, cur.nr, rank, isDir, name, nr, data2, table2, c.sb.Data(), c.sb.table);
    after := N.Create(SpaceOf(table0, logs, cur.nr), isDir, name, nr).0.dirs;
    rank' := if isDir then rank[nr := rank[cur.nr] + 1] else rank;
  }

  lemma SamePlacesOf(data: seq<Block>, table: map<nat, Dinode>, data': seq<Block>, table': map<nat, Dinode>, k: nat, t: nat)
    requires OthersSame(data, table, data', table', k) && t != k && (t in table || t in table')
    ensures t in table && t in table' && table'[t] == table[t]
    ensures SamePlaces(data, data', table[t]) && SameContent(data, table[t], data', table[t])
  {}

  /** A torn directory holds no log, so the volume describes no tree. */
  lemma TornDescribesNone(data: seq<Block>, table: map<nat, Dinode>, bits: set<nat>, logs: map<nat, D.Log>, cur: nat, rank: map<nat, nat>)
    requires cur in table && table[cur].itype == I_DIR && !HoldsSome(data, table[cur])
    ensures !Described(data, table, bits, logs, cur, rank)
  {
    if Described(data, table, bits, logs, cur, rank) {
      DescribedHolds(data, table, bits, logs, cur, rank);
    }
  }

  lemma DescribedHolds(data: seq<Block>, table: map<nat, Dinode>, bits: set<nat>, logs: map<nat, D.Log>, cur: nat, rank: map<nat, nat>)
    requires Described(data, table, bits, logs, cur, rank) && (cur in logs || (cur in table && table[cur].itype == I_DIR))
    ensures cur in logs && cur in table && HoldsLog(data, table[cur], logs[cur])
  {
    hide HoldsLog;
    assert KindRight(table, bits, logs, cur) && DirectoryHolds(data, table, logs, cur);
  }

  /** After a new inode could not be entered and was removed again, if the current directory still holds its log. */
  lemma FailureDescribes(data0: seq<Block>, table0: map<nat, Dinode>, bits: set<nat>, logs: map<nat, D.Log>, cur: nat, rank: map<nat, nat>,
                         nr: nat,
                         data2: seq<Block>, table2: map<nat, Dinode>, data3: seq<Block>, table3: map<nat, Dinode>, data4: seq<Block>,
                         table4: map<nat, Dinode>)
    requires Described(data0, table0, bits, logs, cur, rank) && nr in table0 && table0[nr] == FREE_DINODE && nr != cur && cur in logs
    requires OthersSame(data0, table0, data2, table2, nr) && OthersSame(data2, table2, data3, table3, cur)
    requires OthersSame(data3, table3, data4, table4, nr)
    requires table4 == table3[nr := FREE_DINODE] && table3[cur].itype == I_DIR && HoldsLog(data3, table3[cur], logs[cur])
    ensures Described(data4, table4, bits, logs, cur, rank) && FilesOf(table4) == FilesOf(table0)
  {
    hide HoldsLog, SameContent, SamePlaces, N.IsTree;
    assert KindRight(table0, bits, logs, cur) && KindRight(table0, bits, logs, nr);
    forall k: nat ensures KindRight(table4, bits, logs, k) && DirectoryHolds(data4, table4, logs, k) {
      assert KindRight(table0, bits, logs, k) && DirectoryHolds(data0, table0, logs, k);
      if k == cur {
        SameLog(data3, table3[cur], data4, logs[cur]);
      } else if k != nr {
        SameDirectory(data0, table0, data2, table2, logs, nr, k);
        SameDirectory(data2, table2, data3, table3, logs, cur, k);
        SameDirectory(data3, table3, data4, table4, logs, nr, k);
      }
    }
    forall k ensures k in FilesOf(table4) <==> k in FilesOf(table0) {}
    assert FilesOf(table4) == FilesOf(table0);
  }

  /** The current directory still holds its log, and the name can be added to it. */
  lemma NameFits(data0: seq<Block>, table0: map<nat, Dinode>, bits: set<nat>, logs: map<nat, D.Log>, cur: nat, rank: map<nat, nat>,
                 data: seq<Block>, table: map<nat, Dinode>, name: D.Name, nr: nat)
    requires Described(data0, table0, bits, logs, cur, rank) && cur in logs && D.Lookup(logs[cur], name).None? && D.UniqueNames(logs[cur])
    requires OthersSame(data0, table0, data, table, nr) && cur != nr
    ensures cur in table && table[cur].itype == I_DIR && HoldsLog(data, table[cur], logs[cur]) && D.Add(logs[cur], name, nr).Some?
  {
    hide HoldsLog;
    assert KindRight(table0, bits, logs, cur) && DirectoryHolds(data0, table0, logs, cur);
    SameDirectory(data0, table0, data, table, logs, nr, cur);
    D.LookupIsMap(logs[cur], name);
    D.AddIsUpdate(logs[cur], name, nr);
  }

  /** The new inode could not be filled: it is removed again. */
  method GiveUpInode(c: InodeCache, cur: Inode, inode: Inode, ghost data0: seq<Block>, ghost table0: map<nat, Dinode>)
    requires c.Valid() && cur.nr != inode.nr && c.hash == map[cur.nr := cur][inode.nr := inode]
    requires c.outstanding == multiset{cur.nr} + multiset{inode.nr}
    requires inode.dirty && !cur.dirty && inode.nr in c.sb.inodeFreemap.Bits() && c.stale <= {inode.nr} && Covered(c.sb.Data(), inode.din)
    requires OthersSame(data0, table0, c.sb.Data(), c.sb.table, inode.nr) && table0[inode.nr] == FREE_DINODE && AllSound(data0, table0)
    modifies c, inode, c.sb`dev, c.sb`usedInodeCount, c.sb`usedBlockCount, c.sb`owner, c.sb`table, c.sb.inodeFreemap.v, c.sb.blockFreemap.v
    ensures c.Valid() && c.hash == map[cur.nr := cur] && c.outstanding == multiset{cur.nr} && c.stale == {}
    ensures c.sb.table == table0 && OthersSame(data0, table0, c.sb.Data(), c.sb.table, inode.nr) && AllSound(c.sb.Data(), c.sb.table)
    ensures c.sb.inodeFreemap.Bits() == old(c.sb.inodeFreemap.Bits()) - {inode.nr}
  {
    hide Volumes.Consistent, Linked, Counted, LooseBlocks, Marked, TailMarked, DiskInode, Covered, Sound, AllSound, SameContent, SamePlaces;
    ghost var data1, table1 := c.sb.Data(), c.sb.table;
    var ok := c.RemoveInode(inode);
    assert c.sb.table == table0;
    OthersTrans(data0, table0, data1, table1, c.sb.Data(), c.sb.table, inode.nr);
    FreeSound(c.sb.Data(), FREE_DINODE);
    StillSound(data0, table0, c.sb.Data(), c.sb.table, inode.nr);
  }

  /** Gives a new directory its two entries. */
  method FillInode(c: InodeCache, inode: Inode, isDir: bool, parent: nat) returns (ret: int)
    requires c.Valid() && inode.nr in c.hash && c.hash[inode.nr] == inode && inode.nr in c.sb.inodeFreemap.Bits() && inode.dirty
    requires inode.din == FREE_DINODE.(itype := if isDir then I_DIR else I_FILE)
    requires parent < NR_INODES && inode.nr < NR_INODES && AllSound(c.sb.Data(), c.sb.table)
    modifies inode, c.sb`dev, c.sb`usedBlockCount, c.sb`owner, c.sb`table, c.sb.blockFreemap.v, c`stale
    ensures c.Valid() && OthersSame(old(c.sb.Data()), old(c.sb.table), c.sb.Data(), c.sb.table, inode.nr) && inode.dirty
    ensures c.sb.table[inode.nr] == inode.din && inode.din.itype == old(inode.din.itype) && Covered(c.sb.Data(), inode.din)
    ensures ret == (if isDir && old(c.sb.FreeBlocks()) == 0 then -ENOSPC else 0) && c.stale <= old(c.stale) + {inode.nr}
    ensures AllSound(c.sb.Data(), c.sb.table) && (ret == 0 ==> inode.din.size <= MAX_FILE_SIZE && c.stale == old(c.stale) - {inode.nr})
    ensures ret == 0 && isDir ==> HoldsLog(c.sb.Data(), inode.din, N.EmptyDirectory(inode.nr, parent))
    ensures ret == 0 ==> c.sb.FreeBlocks() == FreeThen(isDir, old(c.sb.FreeBlocks()))
  {
    hide Volumes.Consistent, Linked, Counted, LooseBlocks, Marked, TailMarked, DiskInode, Covered, Sound, AllSound, HoldsLog;
    c.CachedReady(inode);
    assert c.StoredRight(inode.nr) && c.CachedRight(inode.nr);
    if isDir {
      ret := CreateEmptyDir(c, inode, parent);
      if ret == 0 {
        OffsetInFile(c.sb.Data(), inode.din, N.EmptyDirectory(inode.nr, parent), 0);
      }
    } else {
      SoundOne(c.sb.Data(), c.sb.table, inode.nr);
      NothingElse(inode);
      ret := 0;
    }
  }

  lemma CoveredElsewhere(data: seq<Block>, table: map<nat, Dinode>, data': seq<Block>, table': map<nat, Dinode>, k: nat, t: nat)
    requires OthersSame(data, table, data', table', k) && t in table && t != k && Covered(data, table[t])
    ensures t in table' && table'[t] == table[t] && Covered(data', table'[t])
  {
    forall n: nat | n < MAX_BLOCK_NR ensures IsHole(data', table[t], n) <==> IsHole(data, table[t], n) {
      assert SamePlaces(data, data', table[t]);
    }
  }

  /** Whether all files are sound is not changed by removing one. */
  lemma SoundAfterRemoval(data0: seq<Block>, table0: map<nat, Dinode>, data1: seq<Block>, table1: map<nat, Dinode>, cur: nat,
                          data2: seq<Block>, table2: map<nat, Dinode>, nr: nat)
    requires AllSound(data0, table0) && OthersSame(data0, table0, data1, table1, cur) && OthersSame(data1, table1, data2, table2, nr)
    requires nr in table2 && table2[nr] == FREE_DINODE && nr != cur && cur in table1
    ensures AllSound(data2, table2) <==> AllSound(data1, table1)
  {
    hide Sound, AllSound, SameContent, SamePlaces;
    FreeSound(data2, FREE_DINODE);
    if AllSound(data1, table1) {
      StillSound(data1, table1, data2, table2, nr);
    } else if AllSound(data2, table2) {
      SoundOne(data2, table2, cur);
      SamePlacesBack(data1, data2, table1[cur]);
      StillSound(data0, table0, data1, table1, cur);
    }
  }

  lemma SamePlacesBack(data: seq<Block>, data': seq<Block>, d: Dinode)
    requires SameContent(data, d, data', d) && SamePlaces(data, data', d) && Sound(data', d)
    ensures Sound(data, d)
  {
    hide Sound;
    SamePlacesSound(data', data, d);
  }

  /** Enters a new inode in the current directory and writes both to disk, or removes the new inode again. */
  method EnterInode(c: InodeCache, cur: Inode, inode: Inode, name: D.Name, ghost log: D.Log)
    returns (ret: int, ghost data1: seq<Block>, ghost table1: map<nat, Dinode>)
    requires c.Valid() && cur.nr != inode.nr && c.hash == map[cur.nr := cur][inode.nr := inode]
    requires c.outstanding == multiset{cur.nr} + multiset{inode.nr}
    requires inode.dirty && c.stale == {} && cur.nr in c.sb.inodeFreemap.Bits()
    requires inode.nr in c.sb.inodeFreemap.Bits() && inode.nr < NR_INODES
    requires HoldsLog(c.sb.Data(), cur.din, log) && D.ValidName(name) && D.Add(log, name, inode.nr).Some? && inode.din.size <= MAX_FILE_SIZE
    requires AllSound(c.sb.Data(), c.sb.table) && cur.din.itype == I_DIR && !cur.dirty
    modifies c, cur, inode, c.sb`dev, c.sb`usedInodeCount, c.sb`usedBlockCount, c.sb`owner, c.sb`table, c.sb.inodeFreemap.v,
             c.sb.blockFreemap.v
    ensures c.Valid() && c.hash == map[cur.nr := cur] && c.outstanding == multiset{cur.nr}
    ensures cur.din.itype == I_DIR && cur.nr in c.sb.table && c.sb.table[cur.nr] == cur.din
    ensures var w := EntryReturns(old(c.sb.Data()), old(cur.din), log, name, old(c.sb.FreeBlocks())); ret == if w >= 0 then 0 else w
    ensures OthersSame(old(c.sb.Data()), old(c.sb.table), data1, table1, cur.nr)
    ensures ret == 0 ==>
              && !cur.dirty && c.stale == {} && AllSound(c.sb.Data(),
                                                         c.sb.table) && c.sb.inodeFreemap.Bits() == old(c.sb.inodeFreemap.Bits())
              && data1 == c.sb.Data() && table1 == c.sb.table
              && HoldsLog(c.sb.Data(), cur.din, D.Add(log, name, inode.nr).value)
    ensures ret < 0 ==>
              && c.sb.inodeFreemap.Bits() == old(c.sb.inodeFreemap.Bits()) - {inode.nr} && c.sb.table == table1[inode.nr := FREE_DINODE]
              && OthersSame(data1, table1, c.sb.Data(), c.sb.table, inode.nr) && cur.nr in table1
              && (cur.dirty <==> EntryDirties(old(c.sb.Data()), old(cur.din), name, old(c.sb.FreeBlocks())))
              && (AllSound(c.sb.Data(), c.sb.table) <==> EntryKeepsSound(old(c.sb.Data()), old(cur.din), name, inode.nr,
                                                                         old(c.sb.FreeBlocks())))
              && (if EntryTears(old(c.sb.Data()), old(cur.din), name, old(c.sb.FreeBlocks())) then !HoldsSome(c.sb.Data(), cur.din)
                  else c.stale == {} && HoldsLog(data1, table1[cur.nr], log))
  {
    hide Volumes.Consistent, Linked, Counted, LooseBlocks, Marked, TailMarked, DiskInode, Covered, Sound, AllSound, HoldsLog, OthersSame,
         D.Add,
         AddEnds, EntryReturns, EntryTears, EntryDirties, EntryKeepsSound, LosesSize, D.AddStop, HoldsSome;
    ghost var data0, table0, d0, free0 := c.sb.Data(), c.sb.table, cur.din, c.sb.FreeBlocks();
    assert c.CachedRight(cur.nr) && c.CachedRight(inode.nr);
    SoundOne(data0, table0, inode.nr);
    ret := AddDirent(c, cur, name, inode.nr, log);
    data1, table1 := c.sb.Data(), c.sb.table;
    EntryEnds(data0, table0, d0, free0, log, name, inode.nr, ret, data1, table1, cur.din, cur.dirty, c.sb.FreeBlocks());
    InTable(data0, table0, data1, table1, cur.nr);
    CoveredElsewhere(data0, table0, data1, table1, cur.nr, inode.nr);
    if ret < 0 {
      DropInode(c, cur, inode);
      SoundAfterRemoval(data0, table0, data1, table1, cur.nr, c.sb.Data(), c.sb.table, inode.nr);
      SamePlacesOf(data1, table1, c.sb.Data(), c.sb.table, inode.nr, cur.nr);
      NoLogStays(data1, cur.din, c.sb.Data());
      return;
    }
    OffsetInFile(data1, cur.din, D.Add(log, name, inode.nr).value, 0);
    SaveBoth(c, cur, inode);
    ret := 0;
  }

  lemma NoLogStays(data: seq<Block>, d: Dinode, data': seq<Block>)
    requires SameContent(data, d, data', d)
    ensures !HoldsSome(data, d) ==> !HoldsSome(data', d)
  {
    if log :| HoldsLog(data', d, log) {
      SameContentSameBytes(data, d, data', d, 0, d.size);
      assert HoldsLog(data, d, log);
    }
  }

  /** Removes the new inode again. */
  method DropInode(c: InodeCache, cur: Inode, inode: Inode)
    requires c.Valid() && cur.nr != inode.nr && c.hash == map[cur.nr := cur][inode.nr := inode]
    requires c.outstanding == multiset{cur.nr} + multiset{inode.nr}
    requires inode.nr in c.sb.inodeFreemap.Bits() && Covered(c.sb.Data(), inode.din) && inode.nr !in c.stale
    modifies c, inode, c.sb`dev, c.sb`usedInodeCount, c.sb`usedBlockCount, c.sb`owner, c.sb`table, c.sb.inodeFreemap.v, c.sb.blockFreemap.v
    ensures c.Valid() && c.hash == map[cur.nr := cur] && c.outstanding == multiset{cur.nr} && c.stale == old(c.stale)
    ensures c.sb.inodeFreemap.Bits() == old(c.sb.inodeFreemap.Bits()) - {inode.nr} && c.sb.table == old(c.sb.table)[inode.nr := FREE_DINODE]
    ensures OthersSame(old(c.sb.Data()), old(c.sb.table), c.sb.Data(), c.sb.table, inode.nr)
    ensures cur.nr in c.sb.table && c.sb.table[cur.nr] == cur.din
  {
    hide Volumes.Consistent, Linked, Counted, LooseBlocks, Marked, TailMarked, DiskInode, Covered, Sound, AllSound, OthersSame;
    assert c.CachedRight(cur.nr);
    MapPutBack(map[cur.nr := cur], inode.nr, inode);
    var ok := c.RemoveInode(inode);
    assert c.CachedRight(cur.nr);
  }

  /** Writes the current directory and the new inode to disk, and forgets the latter. */
  method SaveBoth(c: InodeCache, cur: Inode, inode: Inode)
    requires c.Valid() && cur.nr != inode.nr && c.hash == map[cur.nr := cur][inode.nr := inode]
    requires c.outstanding == multiset{cur.nr} + multiset{inode.nr}
    requires c.stale == {} && cur.din.size <= MAX_FILE_SIZE && inode.din.size <= MAX_FILE_SIZE
    modifies c, cur`dirty, inode`dirty, inode`count, c.sb`dev, c.sb`table
    ensures c.Valid() && c.hash == map[cur.nr := cur] && c.outstanding == multiset{cur.nr} && !cur.dirty && c.stale == {}
    ensures c.sb.table == old(c.sb.table) && c.sb.Data() == old(c.sb.Data())
  {
    hide Volumes.Consistent, Linked, Counted, LooseBlocks, Marked, TailMarked, DiskInode;
    c.CachedReady(cur);
    c.SyncInode(cur);
    MapPutBack(map[cur.nr := cur], inode.nr, inode);
    Save(c, inode);
  }

  /** Writes an inode to disk and gives back a reference to it. */
  method Save(c: InodeCache, inode: Inode)
    requires c.Valid() && inode.nr in c.hash && c.hash[inode.nr] == inode && c.stale == {} && inode.din.size <= MAX_FILE_SIZE
    modifies c, inode`dirty, inode`count, c.sb`dev, c.sb`table
    ensures c.Valid() && !inode.dirty && c.stale == {} && c.outstanding == old(c.outstanding) - multiset{inode.nr}
    ensures c.hash == if old(c.outstanding)[inode.nr] == 1 then old(c.hash) - {inode.nr} else old(c.hash)
    ensures c.sb.table == old(c.sb.table) && c.sb.Data() == old(c.sb.Data())
  {
    hide Volumes.Consistent, Linked, Counted, LooseBlocks, Marked, TailMarked, DiskInode;
    assert c.CachedRight(inode.nr);
    c.SyncInode(inode);
    c.PutInode(inode);
  }
}
