/** Writing to a file on a mounted file system. */
module WriteCommands {
  import opened Blocks
  import opened BlockTree
  import opened Bitmaps
  import opened Errors
  import opened Volumes
  import opened Inodes
  import opened WriteCosts
  import opened ReadWrite
  import opened FileTheorems
  import opened SoundFiles
  import opened InodeCaches
  import opened DirectoryFiles
  import opened Commands
  import D = Directories
  import N = Namespaces

  /** What looking a name up in the current directory can find. */
  lemma FileCases(data: seq<Block>, table: map<nat, Dinode>, bits: set<nat>, logs: map<nat, D.Log>, cur: nat, rank: map<nat, nat>,
                  name: D.Name)
    requires Described(data, table, bits, logs, cur, rank) && cur in logs && forall nr: nat :: nr in table <==> nr < NR_INODES
    requires D.Lookup(logs[cur], name).Some?
    ensures var t := D.Lookup(logs[cur], name).value;
            && 0 <= t < NR_INODES && t in table && t in bits && cur in table && table[cur].itype == I_DIR
            && (if t in logs then table[t].itype == I_DIR else t in FilesOf(table) && table[t].itype == I_FILE)
  {
    hide HoldsLog;
    var s := SpaceOf(table, logs, cur);
    var t := D.Lookup(logs[cur], name).value;
    assert N.DirGood(s, rank, cur) && DirectoryHolds(data, table, logs, cur) && KindRight(table, bits, logs, cur);
    assert t == logs[cur][D.Find(logs[cur], name, 0)].inodeNr;
    D.LookupIsMap(logs[cur], name);
    assert KindRight(table, bits, logs, t);
    if !D.IsDots(name) {
      assert N.IsChild(s, cur, name, t);
      assert N.ChildGood(s, cur, name, t);
    }
  }

  /** A change to one file leaves the tree as it was. */
  lemma WriteDescribes(data0: seq<Block>, table0: map<nat, Dinode>, bits: set<nat>, logs: map<nat, D.Log>, cur: nat, rank: map<nat, nat>,
                       data: seq<Block>, table: map<nat, Dinode>, t: nat)
    requires Described(data0, table0, bits, logs, cur, rank) && OthersSame(data0, table0, data, table, t)
    requires t in FilesOf(table0) && table[t].itype == I_FILE
    ensures Described(data, table, bits, logs, cur, rank) && SpaceOf(table, logs, cur) == SpaceOf(table0, logs, cur)
  {
    hide HoldsLog, SameContent, SamePlaces, N.IsTree;
    forall k: nat ensures KindRight(table, bits, logs, k) && DirectoryHolds(data, table, logs, k) {
      assert KindRight(table0, bits, logs, k) && DirectoryHolds(data0, table0, logs, k);
      if k != t {
        SameDirectory(data0, table0, data, table, logs, t, k);
      }
    }
    forall k ensures k in FilesOf(table) <==> k in FilesOf(table0) {}
    assert FilesOf(table) == FilesOf(table0);
  }

  /** What a write to file t comes to, told by the state before. */
  ghost predicate FileWritten(data0: seq<Block>, table0: map<nat, Dinode>, t: nat, offset: nat, buf: seq<byte>, free0: nat, ret: int,
                              data: seq<Block>, table: map<nat, Dinode>)
    requires t in table0
  {
    && ret == WriteReturns(data0, table0[t], offset, |buf|, free0)
    && OthersSame(data0, table0, data, table, t) && table[t].itype == table0[t].itype
    && (AllSound(data, table) <==> StaysSoundOnDisk(data0, table0[t], offset, buf, free0))
    && (ret >= 0 && |buf| > 0 ==>
          && AllSound(data, table) && table0[t].size <= MAX_FILE_SIZE && table[t].size <= MAX_FILE_SIZE
          && FileBytes(data, table[t]) == Overlay(FileBytes(data0, table0[t]), offset, buf))
  }

  /** The end of a write to inode k, once the inode is stored and forgotten. The requirements are the postcondition of WriteInode. */
  lemma AfterWrite(data0: seq<Block>, table0: map<nat, Dinode>, k: nat, free0: nat, data: seq<Block>, table: map<nat, Dinode>, dirty: bool,
                   free: int,
                   offset: nat, buf: seq<byte>, ret: int, written: nat, more: nat)
    requires OthersSame(data0, table0, data, table, k) && k in table && AllSound(data0, table0) && written <= |buf|
    requires Outcome(data0, table0[k], false, free0, offset, |buf|, ret, written, table[k], dirty, free)
    requires dirty || table[k] == table0[k].(size := table[k].size)
    requires var end := WriteEnd(data0, table0[k], offset, |buf|, free0);
             && (written > 0 ==> offset + written <= MAX_FILE_SIZE)
             && Wrote(data0, table0[k], data, table[k], offset, buf[..written], offset / BLOCK_SIZE, end, end + more)
    requires AllSound(data, table) <==> StaysSound(data0, table0[k], offset, buf, free0)
    requires ret >= 0 && |buf| > 0 ==>
               && table0[k].size <= MAX_FILE_SIZE && table[k].size <= MAX_FILE_SIZE
               && FileBytes(data, table[k]) == Overlay(FileBytes(data0, table0[k]), offset, buf)
    ensures LosesSize(data0, table0[k], false, offset, |buf|, free0) ==> !dirty
    ensures table[k].size <= Max(MAX_FILE_SIZE, offset + |buf|)
    ensures var after := if LosesSize(data0, table0[k], false, offset, |buf|, free0) then table[k := table0[k]] else table;
            FileWritten(data0, table0, k, offset, buf, free0, ret, data, after)
  {
    var d0, end := table0[k], WriteEnd(data0, table0[k], offset, |buf|, free0);
    OutcomeSays(data0, d0, false, free0, offset, |buf|, ret, written, table[k], dirty, free);
    SameType(data0, d0, data, table[k], offset, buf[..written], offset / BLOCK_SIZE, end, end + more);
    hide Sound, AllSound, SameContent, SamePlaces, Wrote, FileBytes, Overlay, StaysSound, DirtyAfter, DoubleAfter, NewSize, Stop;
    SizeBound(data0, d0, offset, |buf|, free0);
    SoundOne(data0, table0, k);
    if ret >= 0 && |buf| > 0 {
      SuccessIsSound(data0, d0, offset, buf, free0);
    }
    if LosesSize(data0, d0, false, offset, |buf|, free0) {
      LostIsSound(data0, d0, data, table[k], offset, buf, free0, end + more);
      var after := table[k := d0];
      if Sound(data, d0) {
        StillSound(data0, table0, data, after, k);
      } else if AllSound(data, after) {
        SoundOne(data, after, k);
      }
    }
  }

  lemma SizeBound(data: seq<Block>, d: Dinode, start: nat, n: nat, free: nat)
    ensures NewSize(data, d, start, n, free) <= Max(d.size, start + n)
  {}

  /** The rest of a write once the file is in memory: the bytes, and the inode to disk. */
  method WriteFile(c: InodeCache, cur: Inode, inode: Inode, offset: nat, buf: seq<byte>) returns (ret: int)
    requires c.Valid() && cur.nr != inode.nr && c.hash == map[cur.nr := cur][inode.nr := inode]
    requires c.outstanding == multiset{cur.nr} + multiset{inode.nr}
    requires !cur.dirty && !inode.dirty && c.stale == {} && inode.nr in c.sb.inodeFreemap.Bits() && inode.din.itype != I_DIR
    requires AllSound(c.sb.Data(), c.sb.table) && offset + |buf| < WORD_LIMIT * WORD_LIMIT
    requires inode.nr in c.sb.table && c.sb.table[inode.nr] == inode.din
    modifies c, inode, c.sb`dev, c.sb`usedBlockCount, c.sb`owner, c.sb`table, c.sb.blockFreemap.v
    ensures Calm(c) && c.hash == map[cur.nr := cur] && c.outstanding == multiset{cur.nr}
    ensures FileWritten(old(c.sb.Data()), old(c.sb.table), inode.nr, offset, buf, old(c.sb.FreeBlocks()), ret, c.sb.Data(), c.sb.table)
  {
    hide Volumes.Consistent, Linked, Counted, LooseBlocks, Marked, TailMarked, DiskInode, Sound, AllSound, OthersSame, WriteReturns,
         FileBytes, Overlay,
         Outcome, Wrote, StaysSound, StaysSoundOnDisk, LosesSize, WriteEnd, GapIsZero, FileWritten;
    ghost var data0, table0, d0, free0 := c.sb.Data(), c.sb.table, inode.din, c.sb.FreeBlocks();
    assert c.CachedRight(inode.nr) && c.StoredRight(inode.nr);
    assert DiskInode(c.sb.InodeBlocks(), inode.nr) == d0;
    ghost var written;
    ret, written := c.WriteInode(inode, buf, offset);
    c.CachedReady(inode);
    AfterWrite(data0, table0, inode.nr, free0, c.sb.Data(), c.sb.table, inode.dirty, c.sb.FreeBlocks(), offset, buf, ret, written,
               if ret < 0 then 1 else 0);
    StoreFile(c, cur, inode);
  }

  /** Stores the written inode and forgets it; a size that was lost comes back as it was. */
  method StoreFile(c: InodeCache, cur: Inode, inode: Inode)
    requires c.Valid() && cur.nr != inode.nr && c.hash == map[cur.nr := cur][inode.nr := inode]
    requires c.outstanding == multiset{cur.nr} + multiset{inode.nr}
    requires !cur.dirty && c.stale == (if inode.nr in c.stale then {inode.nr} else {}) && inode.din.size < WORD_LIMIT * WORD_LIMIT
    modifies c, inode`dirty, inode`count, c.sb`dev, c.sb`table
    ensures Calm(c) && c.hash == map[cur.nr := cur] && c.outstanding == multiset{cur.nr} && c.sb.Data() == old(c.sb.Data())
    ensures inode.nr < NR_INODES
    ensures c.sb.table == if inode.nr in old(c.stale)
                          then old(c.sb.table)[inode.nr := DiskInode(old(c.sb.InodeBlocks()), inode.nr)] else old(c.sb.table)
  {
    hide Volumes.Consistent, Linked, Counted, LooseBlocks, Marked, TailMarked, DiskInode;
    assert c.CachedRight(inode.nr) && c.StoredRight(inode.nr);
    MapPutBack(map[cur.nr := cur], inode.nr, inode);
    c.SyncInode(inode);
    c.PutInode(inode);
  }

  /**
   * Writes to a file of the current directory. The tree of directories stays as it was, one file changes as the state
   * before says, and the file system is as it is between commands exactly if that state says that the file stays sound.
   */
  method Write(c: InodeCache, cur: Inode, name: D.Name, offset: nat, buf: seq<byte>, ghost logs: map<nat, D.Log>, ghost rank: map<nat,
               nat>) returns (ret: int)
    requires Mounted(c, cur, logs, rank) && offset + |buf| < WORD_LIMIT * WORD_LIMIT
    modifies c, c.hash.Values`count, c.sb`dev, c.sb`usedBlockCount, c.sb`owner, c.sb`table, c.sb.blockFreemap.v
    ensures Calm(c) && c.hash == map[cur.nr := cur] && c.outstanding == multiset{cur.nr} && cur.nr in logs
    ensures Described(c.sb.Data(), c.sb.table, c.sb.inodeFreemap.Bits(), logs, cur.nr, rank)
    ensures SpaceOf(c.sb.table, logs, cur.nr) == old(SpaceOf(c.sb.table, logs, cur.nr))
    ensures var target := D.Lookup(logs[cur.nr], name);
            if target.None? then ret == -ENOENT && Mounted(c, cur, logs, rank)
            else if target.value in logs then ret == -EISDIR && Mounted(c, cur, logs, rank)
            else
              && target.value >= 0 && target.value in old(c.sb.table)
              && FileWritten(old(c.sb.Data()), old(c.sb.table), target.value, offset, buf, old(c.sb.FreeBlocks()), ret, c.sb.Data(),
                             c.sb.table)
              && (Mounted(c, cur, logs, rank) <==>
                  StaysSoundOnDisk(old(c.sb.Data()), old(c.sb.table)[target.value], offset, buf, old(c.sb.FreeBlocks())))
  {
    hide Volumes.Consistent, Linked, Counted, LooseBlocks, Marked, TailMarked, DiskInode, AllSound, HoldsLog, Described, DirectoriesHold,
         StaysSoundOnDisk, OthersSame, WriteReturns, FileBytes, Overlay;
    CurrentDirectory(c, cur, logs, rank);
    ghost var data0, table0, bits := c.sb.Data(), c.sb.table, c.sb.inodeFreemap.Bits();
    ret := LookupName(cur, name, logs[cur.nr]);
    if ret < 0 {
      return;
    }
    FileCases(data0, table0, bits, logs, cur.nr, rank, name);
    ghost var t := ret;
    ret := WriteFound(c, cur, ret, offset, buf);
    if t in logs {
      SameDescription(data0, table0, bits, logs, cur.nr, rank, c.sb.Data(), c.sb.table);
    } else {
      WriteDescribes(data0, table0, bits, logs, cur.nr, rank, c.sb.Data(), c.sb.table, t);
    }
  }

  /** The rest of a write once the name is found. */
  method WriteFound(c: InodeCache, cur: Inode, t: nat, offset: nat, buf: seq<byte>) returns (ret: int)
    requires Calm(c) && c.hash == map[cur.nr := cur] && c.outstanding == multiset{cur.nr} && AllSound(c.sb.Data(), c.sb.table)
    requires t < NR_INODES && t in c.sb.inodeFreemap.Bits() && t in c.sb.table
    requires cur.din.itype == I_DIR && offset + |buf| < WORD_LIMIT * WORD_LIMIT
    modifies c, c.hash.Values`count, c.sb`dev, c.sb`usedBlockCount, c.sb`owner, c.sb`table, c.sb.blockFreemap.v
    ensures Calm(c) && c.hash == map[cur.nr := cur] && c.outstanding == multiset{cur.nr}
    ensures if old(c.sb.table)[t].itype == I_DIR then ret == -EISDIR && c.sb.table == old(c.sb.table) && c.sb.Data() == old(c.sb.Data())
            else FileWritten(old(c.sb.Data()), old(c.sb.table), t, offset, buf, old(c.sb.FreeBlocks()), ret, c.sb.Data(), c.sb.table)
  {
    hide Volumes.Consistent, Linked, Counted, LooseBlocks, Marked, TailMarked, DiskInode, AllSound, FileWritten;
    CountedOnce(c, t);
    var inode := Borrow(c, t);
    c.CachedReady(inode);
    assert c.CachedRight(cur.nr) && c.CachedRight(t);
    MapPutBack(map[cur.nr := cur], t, inode);
    if inode.din.itype == I_DIR {
      Return(c, inode);
      return -EISDIR;
    }
    ret := WriteFile(c, cur, inode, offset, buf);
  }
}
