/** The commands on a mounted file system: files, inodes, freemaps and directories together are the tree of Namespaces. */
module Commands {
  import opened Blocks
  import opened BlockTree
  import opened Bitmaps
  import opened Errors
  import opened Options
  import opened Volumes
  import opened Inodes
  import opened ReadWrite
  import opened Reclaim
  import opened FileTheorems
  import opened SoundFiles
  import opened InodeCaches
  import opened DirectoryFiles
  import D = Directories
  import N = Namespaces

  // ---------------------------------------------------------------- the tree a volume describes

  ghost function FilesOf(table: map<nat, Dinode>): set<nat> {
    set nr | nr in table && table[nr].itype == I_FILE
  }

  ghost function SpaceOf(table: map<nat, Dinode>, logs: map<nat, D.Log>, cur: nat): N.Space {
    N.Space(logs, FilesOf(table), cur)
  }

  /** Exactly the allocated inodes have a type, and exactly the directories have a log. */
  ghost predicate KindRight(table: map<nat, Dinode>, bits: set<nat>, logs: map<nat, D.Log>, nr: nat) {
    && (nr in table ==> (nr in bits <==> table[nr].itype != I_NONE))
    && (nr in logs <==> nr in table && table[nr].itype == I_DIR)
  }

  /** The inodes and files of the volume describe a tree of directories. */
  ghost predicate Described(data: seq<Block>, table: map<nat, Dinode>, bits: set<nat>, logs: map<nat, D.Log>, cur: nat, rank: map<nat,
                            nat>) {
    && DirectoriesHold(data, table, logs)
    && (forall nr: nat :: KindRight(table, bits, logs, nr))
    && N.IsTree(SpaceOf(table, logs, cur), rank)
  }

  /** Files whose blocks have the same contents hold the same log. */
  lemma SameLog(data: seq<Block>, d: Dinode, data': seq<Block>, log: D.Log)
    requires HoldsLog(data, d, log) && SameContent(data, d, data', d)
    ensures HoldsLog(data', d, log)
  {
    SameContentSameBytes(data, d, data', d, 0, d.size);
  }

  /** Directory nr holds its log after other inodes were changed. */
  lemma SameDirectory(data: seq<Block>, table: map<nat, Dinode>, data': seq<Block>, table': map<nat, Dinode>, logs: map<nat, D.Log>, k: nat,
                      nr: nat)
    requires DirectoryHolds(data, table, logs, nr) && OthersSame(data, table, data', table', k) && nr != k
    ensures DirectoryHolds(data', table', logs, nr)
  {
    if nr in table && table[nr].itype == I_DIR {
      SameLog(data, table[nr], data', logs[nr]);
    }
  }

  /** After the entry for inode t was removed from the current directory, and then the inode. */
  lemma RmDescribes(data0: seq<Block>, table0: map<nat, Dinode>, bits: set<nat>, logs: map<nat, D.Log>, cur: nat, rank: map<nat, nat>,
                    name: D.Name,
                    data1: seq<Block>, table1: map<nat, Dinode>, data2: seq<Block>, table2: map<nat, Dinode>, t: nat)
    requires Described(data0, table0, bits, logs, cur, rank) && N.Rm(SpaceOf(table0, logs, cur), name).1 == t
    requires OthersSame(data0, table0, data1, table1, cur) && table1[cur].itype == I_DIR && D.Remove(logs[cur], name).Some?
    requires HoldsLog(data1, table1[cur], D.Remove(logs[cur], name).value)
    requires OthersSame(data1, table1, data2, table2, t) && table2[t] == FREE_DINODE
    ensures var s' := N.Rm(SpaceOf(table0, logs, cur), name).0;
            Described(data2, table2, bits - {t}, s'.dirs, cur, rank) && SpaceOf(table2, s'.dirs, cur) == s'
  {
    hide HoldsLog, D.Remove, SameContent, SamePlaces, N.IsOccupied;
    var s := SpaceOf(table0, logs, cur);
    var s' := N.Rm(s, name).0;
    N.RemovedEntries(s, rank, name);
    N.RmKeepsTree(s, rank, name);
    hide N.IsTree;
    var log' := D.Remove(logs[cur], name).value;
    assert s'.dirs == logs[cur := log'] - {t};
    assert KindRight(table0, bits, logs, cur) && cur in logs;
    forall nr: nat ensures KindRight(table2, bits - {t}, s'.dirs, nr) {
      assert KindRight(table0, bits, logs, nr);
    }
    forall nr ensures nr in FilesOf(table2) <==> nr in FilesOf(table0) && nr != t {}
    assert FilesOf(table2) == FilesOf(table0) - {t};
    forall nr: nat ensures DirectoryHolds(data2, table2, s'.dirs, nr) {
      RmDirectory(data0, table0, logs, cur, name, data1, table1, data2, table2, t, s'.dirs, nr);
    }
  }

  lemma RmDirectory(data0: seq<Block>, table0: map<nat, Dinode>, logs: map<nat, D.Log>, cur: nat, name: D.Name,
                    data1: seq<Block>, table1: map<nat, Dinode>, data2: seq<Block>, table2: map<nat, Dinode>, t: nat, after: map<nat,
                    D.Log>, nr: nat)
    requires DirectoriesHold(data0, table0, logs) && OthersSame(data0, table0, data1, table1, cur)
    requires OthersSame(data1, table1, data2, table2, t)
    requires cur in logs && D.Remove(logs[cur], name).Some? && t != cur && table0[cur].itype == I_DIR && table2[t].itype == I_NONE
    requires HoldsLog(data1, table1[cur], D.Remove(logs[cur], name).value) && after == logs[cur := D.Remove(logs[cur], name).value] - {t}
    ensures DirectoryHolds(data2, table2, after, nr)
  {
    hide HoldsLog, D.Remove, SameContent, SamePlaces;
    assert DirectoryHolds(data0, table0, logs, nr);
    if nr == cur {
      RemovedNumbers(logs[cur], name);
      SameLog(data1, table1[cur], data2, D.Remove(logs[cur], name).value);
    } else if nr != t {
      SameDirectory(data0, table0, data1, table1, logs, cur, nr);
      SameDirectory(data1, table1, data2, table2, logs, t, nr);
    }
  }

  lemma RemovedNumbers(log: D.Log, name: D.Name)
    requires D.Remove(log, name).Some? && forall i | 0 <= i < |log| :: log[i].inodeNr < NR_INODES
    ensures forall i | 0 <= i < |D.Remove(log, name).value| :: D.Remove(log, name).value[i].inodeNr < NR_INODES
  {}

  // ---------------------------------------------------------------- the mounted file system

  /** Between commands only the current directory is in memory, it is clean, every file is sound, and the volume describes a tree. */
  ghost predicate Mounted(c: InodeCache, cur: Inode, logs: map<nat, D.Log>, rank: map<nat, nat>)
    reads c, c.sb, c.sb.inodeFreemap.v, c.sb.blockFreemap.v, c.hash.Values, cur
  {
    && c.Valid() && c.hash == map[cur.nr := cur] && c.outstanding == multiset{cur.nr} && !cur.dirty && c.stale == {}
    && AllSound(c.sb.Data(), c.sb.table)
    && Described(c.sb.Data(), c.sb.table, c.sb.inodeFreemap.Bits(), logs, cur.nr, rank)
  }

  /** What the invariant says about the current directory. */
  lemma CurrentDirectory(c: InodeCache, cur: Inode, logs: map<nat, D.Log>, rank: map<nat, nat>)
    requires Mounted(c, cur, logs, rank)
    ensures IsDirectory(cur, logs[cur.nr]) && cur.nr in logs && cur.din.itype == I_DIR && cur.nr < NR_INODES
    ensures c.sb.Valid() && c.sb.inodeFreemap.Valid() && DirectoriesHold(c.sb.Data(), c.sb.table, logs)
    ensures cur.din.size < WORD_LIMIT * WORD_LIMIT
    ensures cur.sb == c.sb && c.sb.table[cur.nr] == cur.din && cur.nr in c.sb.inodeFreemap.Bits() && D.UniqueNames(logs[cur.nr])
  {
    c.CachedReady(cur);
    assert c.CachedRight(cur.nr);
    assert KindRight(c.sb.table, c.sb.inodeFreemap.Bits(), logs, cur.nr);
    assert DirectoryHolds(c.sb.Data(), c.sb.table, logs, cur.nr);
    assert N.DirGood(SpaceOf(c.sb.table, logs, cur.nr), rank, cur.nr);
  }

  /** The cases of a removal, in the terms of the code. */
  lemma RmCases(data: seq<Block>, table: map<nat, Dinode>, bits: set<nat>, logs: map<nat, D.Log>, cur: nat, rank: map<nat, nat>,
                name: D.Name)
    requires Described(data, table, bits, logs, cur, rank)
    ensures cur in logs
    ensures var r := N.Rm(SpaceOf(table, logs, cur), name).1; var target := D.Lookup(logs[cur], name);
            && (if D.IsDots(name) then r == -EINVAL
                else if target.None? then r == -ENOENT
                else if DirectoryFiles.IsOccupied(table, logs, target.value) then r == -ENOTEMPTY
                else r == target.value)
            && (r < 0 ==> N.Rm(SpaceOf(table, logs, cur), name).0 == SpaceOf(table, logs, cur))
            && (r >= 0 ==> D.Remove(logs[cur], name).Some? && r != cur && r in table && r in bits && r < NR_INODES)
  {
    hide HoldsLog;
    var s := SpaceOf(table, logs, cur);
    assert N.DirGood(s, rank, cur) && DirectoryHolds(data, table, logs, cur) && KindRight(table, bits, logs, cur);
    N.RmKeepsTree(s, rank, name);
    var target := D.Lookup(logs[cur], name);
    if target.Some? {
      var t := target.value;
      assert KindRight(table, bits, logs, t);
      assert DirectoryFiles.IsOccupied(table, logs, t) <==> N.IsOccupied(s, t);
      if N.Rm(s, name).1 >= 0 {
        N.RemovedEntries(s, rank, name);
        assert N.ChildGood(s, cur, name, t);
      }
    }
  }

  /** Removes a file or an empty directory. What the volume describes afterwards is what Namespaces.Rm says. */
  method Rm(c: InodeCache, cur: Inode, name: D.Name, ghost logs: map<nat, D.Log>, ghost rank: map<nat, nat>) returns (ret: int,
            ghost after: map<nat, D.Log>)
    requires Mounted(c, cur, logs, rank)
    modifies c, c.hash.Values, c.sb`dev, c.sb`usedInodeCount, c.sb`usedBlockCount, c.sb`owner, c.sb`table, c.sb.inodeFreemap.v,
             c.sb.blockFreemap.v
    ensures var (s', r) := old(N.Rm(SpaceOf(c.sb.table, logs, cur.nr), name));
            ret == (if r < 0 then r else 0) && SpaceOf(c.sb.table, after, cur.nr) == s'
    ensures Mounted(c, cur, after, rank)
  {
    hide Volumes.Consistent, Linked, Counted, LooseBlocks, HoldsLog, Marked, TailMarked, DiskInode, OthersSame, Covered, Sound, AllSound,
         Described, D.Remove,
         N.Rm;
    CurrentDirectory(c, cur, logs, rank);
    ghost var data0, table0, bits := c.sb.Data(), c.sb.table, c.sb.inodeFreemap.Bits();
    ghost var s' := N.Rm(SpaceOf(table0, logs, cur.nr), name).0;
    RmCases(data0, table0, bits, logs, cur.nr, rank, name);
    after := s'.dirs;
    ret := RemoveDirent(c, cur, name, logs);
    if ret < 0 {
      SameDescription(data0, table0, bits, logs, cur.nr, rank, c.sb.Data(), c.sb.table);
      return;
    }
    ghost var t, data1, table1 := ret, c.sb.Data(), c.sb.table;
    OthersAt(data0, table0, data1, table1, cur.nr, t);
    ret := RemoveFile(c, cur, ret, D.Remove(logs[cur.nr], name).value);
    RmDescribes(data0, table0, bits, logs, cur.nr, rank, name, data1, table1, c.sb.Data(), c.sb.table, t);
  }

  lemma SameDescription(data: seq<Block>, table: map<nat, Dinode>, bits: set<nat>, logs: map<nat, D.Log>, cur: nat, rank: map<nat, nat>,
                        data': seq<Block>, table': map<nat, Dinode>)
    requires Described(data, table, bits, logs, cur, rank)
    ensures data' == data && table' == table ==> Described(data', table', bits, logs, cur, rank)
  {}

  lemma OthersAt(data: seq<Block>, table: map<nat, Dinode>, data': seq<Block>, table': map<nat, Dinode>, k: nat, t: nat)
    requires OthersSame(data, table, data', table', k) && t in table && t != k
    ensures t in table' && table'[t] == table[t]
  {}

  /** The part of a removal after the entry is gone: the inode and its blocks, and the current directory to disk. */
  method RemoveFile(c: InodeCache, cur: Inode, t: nat, ghost log: D.Log) returns (ret: int)
    requires c.Valid() && c.hash == map[cur.nr := cur] && c.outstanding == multiset{cur.nr} && t != cur.nr && c.stale == {} && cur.dirty
    requires AllSound(c.sb.Data(), c.sb.table) && t < NR_INODES && t in c.sb.table && t in c.sb.inodeFreemap.Bits()
    requires HoldsLog(c.sb.Data(), cur.din, log)
    modifies c, cur, c.sb`dev, c.sb`usedInodeCount, c.sb`usedBlockCount, c.sb`owner, c.sb`table, c.sb.inodeFreemap.v, c.sb.blockFreemap.v
    ensures c.Valid() && c.hash == old(c.hash) && c.outstanding == old(c.outstanding)
    ensures !cur.dirty && cur.din == old(cur.din) && c.stale == {} && ret == 0
    ensures AllSound(c.sb.Data(), c.sb.table) && c.sb.table == old(c.sb.table)[t := FREE_DINODE]
    ensures OthersSame(old(c.sb.Data()), old(c.sb.table), c.sb.Data(), c.sb.table, t)
    ensures c.sb.inodeFreemap.Bits() == old(c.sb.inodeFreemap.Bits()) - {t}
  {
    hide Volumes.Consistent, Linked, Counted, LooseBlocks, Marked, TailMarked, DiskInode, OthersSame, Covered, Sound, AllSound, HoldsLog;
    SoundOne(c.sb.Data(), c.sb.table, t);
    OffsetInFile(c.sb.Data(), cur.din, log, 0);
    var inode := c.GetInode(t);
    assert c.CachedRight(t) && c.CachedRight(cur.nr);
    MapPutBack(old(c.hash), t, inode);
    var ok := c.RemoveInode(inode);
    c.SyncInode(cur);
    ret := 0;
  }

  // ---------------------------------------------------------------- changing directory

  /** The cases of a change of directory, in the terms of the code. */
  lemma CdCases(data: seq<Block>, table: map<nat, Dinode>, bits: set<nat>, logs: map<nat, D.Log>, cur: nat, rank: map<nat, nat>,
                name: D.Name)
    requires Described(data, table, bits, logs, cur, rank) && cur in logs && forall nr: nat :: nr in table <==> nr < NR_INODES
    ensures D.Lookup(logs[cur], name).Some? ==> 0 <= D.Lookup(logs[cur], name).value < NR_INODES && D.Lookup(logs[cur], name).value in table
    ensures var (s', r) := N.Cd(SpaceOf(table, logs, cur), name); var target := D.Lookup(logs[cur], name);
            && (if target.None? then r == -ENOENT else if table[target.value].itype != I_DIR then r == -ENOTDIR else r == 0)
            && s' == SpaceOf(table, logs, if r == 0 then target.value else cur)
    ensures var (s', r) := N.Cd(SpaceOf(table, logs, cur), name); var target := D.Lookup(logs[cur], name);
            r == 0 ==> Described(data, table, bits, logs, target.value, rank)
  {
    hide HoldsLog;
    var s := SpaceOf(table, logs, cur);
    assert N.DirGood(s, rank, cur) && DirectoryHolds(data, table, logs, cur) && KindRight(table, bits, logs, cur);
    N.CdKeepsTree(s, rank, name);
    hide N.IsTree;
    var target := D.Lookup(logs[cur], name);
    if target.Some? {
      assert target.value == logs[cur][D.Find(logs[cur], name, 0)].inodeNr;
      assert KindRight(table, bits, logs, target.value);
    }
  }

  /** Changes the current directory as Namespaces.Cd says; the reference to the old one is given back. */
  method Cd(c: InodeCache, cur: Inode, name: D.Name, ghost logs: map<nat, D.Log>, ghost rank: map<nat, nat>) returns (ret: int, cur': Inode)
    requires Mounted(c, cur, logs, rank)
    modifies c, c.hash.Values`count, c.sb`table
    ensures Mounted(c, cur', logs, rank) && c.sb.table == old(c.sb.table) && c.sb.dev == old(c.sb.dev) && cur.nr in logs
    ensures (SpaceOf(c.sb.table, logs, cur'.nr), ret) == old(N.Cd(SpaceOf(c.sb.table, logs, cur.nr), name))
  {
    hide Volumes.Consistent, Linked, Counted, LooseBlocks, Marked, TailMarked, DiskInode, AllSound, HoldsLog, Described, DirectoriesHold,
         N.Cd;
    CurrentDirectory(c, cur, logs, rank);
    CdCases(c.sb.Data(), c.sb.table, c.sb.inodeFreemap.Bits(), logs, cur.nr, rank, name);
    cur' := cur;
    ret := LookupName(cur, name, logs[cur.nr]);
    if ret < 0 {
      return;
    }
    ret, cur' := Enter(c, cur, ret);
  }

  /** Exchanges the reference to the current directory for one to inode nr, if that is a directory. */
  method Enter(c: InodeCache, cur: Inode, nr: nat) returns (ret: int, cur': Inode)
    requires c.Valid() && c.hash == map[cur.nr := cur] && c.outstanding == multiset{cur.nr} && !cur.dirty && c.stale == {} && nr < NR_INODES
    modifies c, c.hash.Values`count, c.sb`table
    ensures c.Valid() && c.hash == map[cur'.nr := cur'] && c.outstanding == multiset{cur'.nr} && !cur'.dirty && c.stale == {}
    ensures c.sb.table == old(c.sb.table) && nr in c.sb.table && ret == (if c.sb.table[nr].itype == I_DIR then 0 else -ENOTDIR)
    ensures cur'.nr == if ret == 0 then nr else cur.nr
  {
    hide Volumes.Consistent, Linked, Counted, LooseBlocks, Marked, TailMarked, DiskInode;
    assert c.CachedRight(cur.nr) && c.CachedRight(nr);
    var inode := c.GetInode(nr);
    assert c.CachedRight(nr) && c.CachedRight(cur.nr);
    if inode.din.itype == I_DIR {
      GiveBack(c, inode, cur);
      ret, cur' := 0, inode;
    } else {
      GiveBack(c, cur, inode);
      ret, cur' := -ENOTDIR, cur;
    }
  }

  /** Of two references, which may be to the same inode, gives back the second. */
  method GiveBack(c: InodeCache, keep: Inode, other: Inode)
    requires c.Valid() && c.hash == map[keep.nr := keep, other.nr := other] && (keep.nr == other.nr ==> keep == other)
    requires c.outstanding == multiset{keep.nr, other.nr} && !keep.dirty && !other.dirty && c.stale == {}
    modifies c, other`count, c.sb`table
    ensures c.Valid() && c.hash == map[keep.nr := keep] && c.outstanding == multiset{keep.nr} && c.stale == {}
    ensures c.sb.table == old(c.sb.table)
  {
    hide Volumes.Consistent, Linked, Counted, LooseBlocks, Marked, TailMarked, DiskInode;
    assert c.hash - {other.nr} == if keep.nr == other.nr then map[] else map[keep.nr := keep];
    c.PutInode(other);
  }

  // ---------------------------------------------------------------- the path of a directory

  /** The entries pwd looks up, in the terms of the code. */
  lemma PwdStep(data: seq<Block>, table: map<nat, Dinode>, bits: set<nat>, logs: map<nat, D.Log>, cur: nat, rank: map<nat, nat>, d: nat)
    requires Described(data, table, bits, logs, cur, rank) && d in logs
    ensures d in rank && d in table && table[d].itype == I_DIR && D.Lookup(logs[d], D.DOTDOT).Some?
    ensures var p := D.Lookup(logs[d], D.DOTDOT).value;
            && 0 <= p < NR_INODES && (p == d <==> d == N.ROOT)
            && (d == N.ROOT ==> N.Pwd(SpaceOf(table, logs, cur), rank, d) == [])
            && (d != N.ROOT ==> p in logs && p in rank && rank[p] < rank[d] && N.FirstFor(logs[p], d, 0) < |logs[p]|
                                && N.Pwd(SpaceOf(table, logs, cur), rank, d) ==
                                   N.Pwd(SpaceOf(table, logs, cur), rank, p) + [logs[p][N.FirstFor(logs[p], d, 0)].name])
  {
    hide HoldsLog;
    var s := SpaceOf(table, logs, cur);
    assert N.DirGood(s, rank, d) && DirectoryHolds(data, table, logs, d) && KindRight(table, bits, logs, d);
    D.LookupIsMap(logs[d], D.DOTDOT);
    if d != N.ROOT {
      N.FoundInParent(s, rank, d);
    }
  }

  /** Nothing in memory waits to be written. */
  ghost predicate Calm(c: InodeCache)
    reads c, c.sb, c.sb.inodeFreemap.v, c.sb.blockFreemap.v, c.hash.Values
  {
    c.Valid() && c.stale == {} && forall k | k in c.hash :: !c.hash[k].dirty
  }

  /** A reference to inode nr, with the same in-memory inodes otherwise. */
  method Borrow(c: InodeCache, nr: nat) returns (inode: Inode)
    requires Calm(c) && nr < NR_INODES
    modifies c`hash, c`outstanding, c.hash.Values`count
    ensures Calm(c) && c.outstanding == old(c.outstanding) + multiset{nr} && c.hash == old(c.hash)[nr := inode] && inode.nr == nr
    ensures if nr in old(c.hash) then inode == old(c.hash)[nr] else fresh(inode) && old(c.outstanding)[nr] == 0
  {
    hide Volumes.Consistent, Linked, Counted, LooseBlocks, Marked, TailMarked, DiskInode;
    assert c.CachedRight(nr);
    inode := c.GetInode(nr);
    assert c.CachedRight(nr);
  }

  /** Gives a borrowed reference back. */
  method Return(c: InodeCache, inode: Inode)
    requires Calm(c) && inode.nr in c.hash && c.hash[inode.nr] == inode
    modifies c, inode`count, c.sb`table
    ensures Calm(c) && c.outstanding == old(c.outstanding) - multiset{inode.nr} && c.sb.table == old(c.sb.table)
    ensures c.hash == if old(c.outstanding)[inode.nr] == 1 then old(c.hash) - {inode.nr} else old(c.hash)
  {
    hide Volumes.Consistent, Linked, Counted, LooseBlocks, Marked, TailMarked, DiskInode;
    c.PutInode(inode);
  }

  /** The names pwd prints for a directory in memory, root first; every inode it brings into memory is gone again afterwards. */
  method Pwd(c: InodeCache, inode: Inode, ghost logs: map<nat, D.Log>, ghost cur: nat, ghost rank: map<nat,
             nat>) returns (path: seq<D.Name>)
    requires Calm(c) && inode.nr in c.hash && c.hash[inode.nr] == inode
    requires Described(c.sb.Data(), c.sb.table, c.sb.inodeFreemap.Bits(), logs, cur, rank) && inode.nr in logs
    modifies c, c.hash.Values`count, c.sb`table
    ensures Calm(c) && c.hash == old(c.hash) && c.outstanding == old(c.outstanding) && c.sb.table == old(c.sb.table)
    ensures path == old(N.Pwd(SpaceOf(c.sb.table, logs, cur), rank, inode.nr))
    decreases if inode.nr in rank then rank[inode.nr] else 0
  {
    hide Volumes.Consistent, Linked, Counted, LooseBlocks, Marked, TailMarked, DiskInode, HoldsLog, Described, N.Pwd, N.FirstFor, Calm,
         IsDirectory;
    IsOpen(c, inode, logs, cur, rank);
    PwdStep(c.sb.Data(), c.sb.table, c.sb.inodeFreemap.Bits(), logs, cur, rank, inode.nr);
    var p := LookupName(inode, D.DOTDOT, logs[inode.nr]);
    if p == inode.nr {
      return [];
    }
    ghost var hash0 := c.hash;
    CountedOnce(c, p);
    var parent := Borrow(c, p);
    IsOpen(c, parent, logs, cur, rank);
    var d := FindDirent(parent, inode.nr, logs[p]);
    IsFirst(logs[p], inode.nr, d);
    path := Pwd(c, parent, logs, cur, rank);
    MapPutBack(hash0, p, parent);
    Return(c, parent);
    path := path + [d.value.name];
  }

  lemma CountedOnce(c: InodeCache, nr: nat)
    requires Calm(c)
    ensures nr in c.hash <==> c.outstanding[nr] > 0
  {
    assert c.CachedRight(nr);
  }

  lemma IsOpen(c: InodeCache, inode: Inode, logs: map<nat, D.Log>, cur: nat, rank: map<nat, nat>)
    requires Calm(c) && inode.nr in c.hash && c.hash[inode.nr] == inode && inode.nr in logs
    requires Described(c.sb.Data(), c.sb.table, c.sb.inodeFreemap.Bits(), logs, cur, rank)
    ensures IsDirectory(inode, logs[inode.nr]) && c.sb.inodeFreemap.Valid() && |c.sb.dev| == NR_DEVICE_BLOCKS
  {
    hide Linked, Counted, LooseBlocks, Marked, TailMarked, DiskInode, HoldsLog;
    c.CachedReady(inode);
    assert c.CachedRight(inode.nr);
    assert KindRight(c.sb.table, c.sb.inodeFreemap.Bits(), logs, inode.nr) && DirectoryHolds(c.sb.Data(), c.sb.table, logs, inode.nr);
  }

  lemma IsFirst(log: D.Log, nr: nat, d: Option<D.Record>)
    requires N.FirstFor(log, nr, 0) < |log|
    requires d.None? ==> forall r | r in log :: r.inodeNr != nr
    requires d.Some? ==> exists i | 0 <= i < |log| :: d == Some(log[i]) && log[i].inodeNr == nr &&
                          forall j | 0 <= j < i :: log[j].inodeNr != nr
    ensures d == Some(log[N.FirstFor(log, nr, 0)])
  {
    var k := N.FirstFor(log, nr, 0);
    assert log[k] in log;
  }
}
