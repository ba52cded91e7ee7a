/** Directories stored in files: scanning, looking up, adding and removing entries, on top of reading and writing inodes. */
module DirectoryFiles {
  import opened Blocks
  import opened BlockTree
  import opened Bitmaps
  import opened Errors
  import opened Options
  import opened Volumes
  import opened Inodes
  import opened WriteCosts
  import opened ReadWrite
  import opened Reclaim
  import opened FileTheorems
  import opened SoundFiles
  import opened InodeCaches
  import D = Directories

  /** The file holds exactly the records of the log. */
  ghost predicate HoldsLog(data: seq<Block>, d: Dinode, log: D.Log) {
    d.size <= MAX_FILE_SIZE && D.ValidLog(log) && FileBytes(data, d) == D.Flatten(log)
  }

  /** The file is a directory at all. */
  ghost predicate HoldsSome(data: seq<Block>, d: Dinode) {
    exists log :: HoldsLog(data, d, log)
  }

  ghost predicate IsDirectory(inode: Inode, log: D.Log)
    reads inode`din, inode.sb, inode.sb.inodeFreemap.v, inode.sb.blockFreemap.v
  {
    inode.Ready() && HoldsLog(inode.sb.Data(), inode.din, log)
  }

  lemma RangeOfFile(data: seq<Block>, d: Dinode, off: nat, n: nat)
    requires off + n <= d.size <= MAX_FILE_SIZE
    ensures Range(data, d, off, n) == FileBytes(data, d)[off..off + n]
  {}

  /** An access that ends within the largest file looks at no block beyond it. */
  lemma LastBlockFits(start: nat, n: nat)
    requires start < MAX_FILE_SIZE && start + n <= MAX_FILE_SIZE
    ensures LastBlock(start, n) < MAX_BLOCK_NR
  {}

  /** Reads n bytes of the file, which are there. */
  method ReadBytes(inode: Inode, off: nat, n: nat) returns (bytes: seq<byte>)
    requires inode.Ready() && off + n <= inode.din.size <= MAX_FILE_SIZE && off < inode.din.size
    ensures bytes == FileBytes(inode.sb.Data(), inode.din)[off..off + n]
  {
    hide Consistent, Linked, Counted, Range, FileBytes, LastBlock;
    LastBlockFits(off, n);
    var ret;
    ret, bytes := ReadData(inode, off, n);
    RangeOfFile(inode.sb.Data(), inode.din, off, n);
  }

  /** The entry at `offset` and the offset of the next one; None exactly at the end of the directory. */
  method NextDirent(dir: Inode, offset: nat, ghost log: D.Log, ghost i: nat) returns (d: Option<D.Record>, next: nat)
    requires IsDirectory(dir, log) && i <= |log| && offset == D.Offset(log, i)
    ensures if i == |log| then d == None && offset == dir.din.size else d == Some(log[i]) && next == D.Offset(log, i + 1)
  {
    hide Consistent, Linked, Counted, FileBytes, D.Flatten;
    D.ScanLog(log, i);
    next := offset;
    if offset >= dir.din.size {
      return None, next;
    }
    ghost var bytes := FileBytes(dir.sb.Data(), dir.din);
    var header := ReadBytes(dir, offset, D.HEADER_SIZE);
    D.SubSlice(bytes, offset, offset + D.HEADER_SIZE, 0, 4);
    D.SubSlice(bytes, offset, offset + D.HEADER_SIZE, 4, 8);
    var len, inodeNr := D.FromWord(D.WordOf4(header[0..4])), D.FromWord(D.WordOf4(header[4..8]));
    assert len > 0;
    next := offset + D.HEADER_SIZE;
    var name := ReadBytes(dir, next, len);
    D.SubSlice(bytes, next, next + len, 0, len - 1);
    next := next + len;
    d := Some(D.Record(inodeNr, name[0..len - 1]));
  }

  /** The inode number of a name, or ENOENT. */
  method LookupName(dir: Inode, name: D.Name, ghost log: D.Log) returns (ret: int)
    requires IsDirectory(dir, log)
    ensures ret == if D.Lookup(log, name).Some? then D.Lookup(log, name).value else -ENOENT
    ensures ret >= 0 <==> D.Lookup(log, name).Some?
  {
    hide Consistent, Linked, Counted, HoldsLog;
    var offset := 0;
    ghost var i := 0;
    while true
      invariant i <= |log| && offset == D.Offset(log, i) && D.Find(log, name, 0) == D.Find(log, name, i)
      decreases |log| - i
    {
      var d, next := NextDirent(dir, offset, log, i);
      if d.None? {
        return -ENOENT;
      }
      if D.Is(d.value, name) {
        return d.value.inodeNr;
      }
      offset, i := next, i + 1;
    }
  }

  /** The first entry for an inode number; it is how the name of a directory is found in its parent. */
  method FindDirent(dir: Inode, inodeNr: nat, ghost log: D.Log) returns (d: Option<D.Record>)
    requires IsDirectory(dir, log)
    ensures d.None? ==> forall r | r in log :: r.inodeNr != inodeNr
    ensures d.Some? ==> exists i | 0 <= i < |log| :: d == Some(log[i]) && log[i].inodeNr == inodeNr &&
                         forall j | 0 <= j < i :: log[j].inodeNr != inodeNr
  {
    hide Consistent, Linked, Counted, HoldsLog;
    var offset := 0;
    ghost var i := 0;
    while true
      invariant 0 <= i <= |log| && offset == D.Offset(log, i) && forall j | 0 <= j < i :: log[j].inodeNr != inodeNr
      decreases |log| - i
    {
      var next;
      d, next := NextDirent(dir, offset, log, i);
      if d.None? || d.value.inodeNr == inodeNr {
        return;
      }
      offset, i := next, i + 1;
    }
  }

  // ---------------------------------------------------------------- writing

  /** The file after a write that starts within it, as far as its new size goes. */
  lemma FileAfterWrite(data0: seq<Block>, d0: Dinode, data: seq<Block>, d: Dinode, start: nat, bytes: seq<byte>, first: nat, end: nat,
                       limit: nat)
    requires Wrote(data0, d0, data, d, start, bytes, first, end, limit)
    requires start <= d0.size <= d.size <= Max(d0.size, start + |bytes|) && d.size <= MAX_FILE_SIZE
    ensures FileBytes(data, d) == Overlay(FileBytes(data0, d0), start, bytes)[..d.size]
  {
    var f, o := FileBytes(data, d), Overlay(FileBytes(data0, d0), start, bytes)[..d.size];
    forall off: nat | off < d.size ensures f[off] == o[off] {
      ByteAfterWrite(data0, d0, data, d, start, bytes, first, end, limit, off);
    }
  }

  lemma OverlayInside(f: seq<byte>, off: nat, e: seq<byte>)
    requires off + |e| <= |f|
    ensures Overlay(f, off, e) == f[..off] + e + f[off + |e|..]
  {}

  lemma OverlayAtEnd(f: seq<byte>, e: seq<byte>)
    ensures Overlay(f, |f|, e) == f + e
  {}

  /** Laying a record over the directory at the place of a record of its size, or at the end, writes that record. */
  lemma OverlayRecord(log: D.Log, k: nat, r: D.Record)
    requires D.ValidLog(log) && k <= |log| && D.ValidRecord(r) && (k < |log| ==> D.Size(r) == D.Size(log[k]))
    ensures D.ValidLog(D.Written(log, k, r))
    ensures Overlay(D.Flatten(log), D.Offset(log, k), D.Encode(r)) == D.Flatten(D.Written(log, k, r))
  {
    hide D.Flatten, D.Encode, D.Size, D.ValidLog, D.ValidRecord, D.Offset, Overlay;
    if k < |log| {
      D.RewriteRecord(log, k, r);
      OverlayInside(D.Flatten(log), D.Offset(log, k), D.Encode(r));
    } else {
      D.FlattenLast(log, r);
      OverlayAtEnd(D.Flatten(log), D.Encode(r));
    }
  }

  /** After a complete write of a record, the file holds the log with it. */
  lemma RecordWritten(data0: seq<Block>, d0: Dinode, data: seq<Block>, d: Dinode, log: D.Log, k: nat, r: D.Record, end: nat)
    requires HoldsLog(data0, d0, log) && k <= |log| && D.ValidRecord(r) && (k < |log| ==> D.Size(r) == D.Size(log[k]))
    requires var offset := D.Offset(log, k);
             && Wrote(data0, d0, data, d, offset, D.Encode(r), offset / BLOCK_SIZE, end, end)
             && d.size == Max(d0.size, offset + D.Size(r)) <= MAX_FILE_SIZE
    ensures HoldsLog(data, d, D.Written(log, k, r))
  {
    hide D.Flatten, D.Encode, D.ValidLog, D.ValidRecord, Wrote, FileBytes, Overlay, D.Written;
    var offset, bytes := D.Offset(log, k), D.Encode(r);
    D.OffsetMonotone(log, k, |log|);
    OverlayRecord(log, k, r);
    FileAfterWrite(data0, d0, data, d, offset, bytes, offset / BLOCK_SIZE, end, end);
    var whole := Overlay(FileBytes(data0, d0), offset, bytes);
    assert whole[..d.size] == whole;
  }

  /** What a failed append leaves: the old directory if the size did not change, else one with a torn record at its end. */
  lemma FailedAppend(data0: seq<Block>, d0: Dinode, data: seq<Block>, d: Dinode, log: D.Log, r: D.Record, written: nat, first: nat,
                     end: nat, limit: nat)
    requires HoldsLog(data0, d0, log) && D.ValidRecord(r) && written < D.Size(r)
    requires Wrote(data0, d0, data, d, d0.size, D.Encode(r)[..written], first, end, limit)
    requires (d.size == d0.size || d.size == d0.size + written) && d.size <= MAX_FILE_SIZE
    ensures d.size == d0.size ==> HoldsLog(data, d, log)
    ensures HoldsSome(data, d) <==> d.size == d0.size
  {
    hide D.Flatten, D.Encode, D.Size, D.ValidLog, D.ValidRecord, Wrote;
    var part := D.Encode(r)[..written];
    FileAfterWrite(data0, d0, data, d, d0.size, part, first, end, limit);
    var was := FileBytes(data0, d0);
    OverlayAtEnd(was, part);
    if d.size == d0.size {
      assert (was + part)[..d.size] == was;
    } else {
      assert (was + part)[..d.size] == was + part;
      D.TornRecord(log, r, written);
    }
  }

  /** What a failed append of a record leaves: the old directory, unless the append tears. */
  lemma AppendFailed(data0: seq<Block>, d0: Dinode, data: seq<Block>, d: Dinode, log: D.Log, r: D.Record, free: nat, written: nat, end: nat,
                     limit: nat)
    requires HoldsLog(data0, d0, log) && D.ValidRecord(r) && WriteReturns(data0, d0, d0.size, D.Size(r), free) < 0
    requires written == WriteLength(data0, d0, d0.size, D.Size(r), free) && d.size == NewSize(data0, d0, d0.size, D.Size(r), free)
    requires (written > 0 ==> d0.size + written <= MAX_FILE_SIZE)
    requires Wrote(data0, d0, data, d, d0.size, D.Encode(r)[..written], d0.size / BLOCK_SIZE, end, limit)
    ensures HoldsSome(data, d) <==> !Tears(data0, d0, D.Size(r), free)
    ensures !Tears(data0, d0, D.Size(r), free) ==> HoldsLog(data, d, log)
  {
    hide D.Flatten, D.Encode, D.ValidLog, D.ValidRecord, Wrote, FileBytes, WriteReturns, WriteLength, NewSize, Tears;
    TearsIff(data0, d0, D.Size(r), free);
    FailedAppend(data0, d0, data, d, log, r, written, d0.size / BLOCK_SIZE, end, limit);
  }

  /** How writing a record ends, as far as the log in the file is concerned. */
  lemma RecordEnds(data0: seq<Block>, d0: Dinode, dirty0: bool, data: seq<Block>, d: Dinode, dirty: bool, after: int, log: D.Log, k: nat,
                   r: D.Record,
                   free: nat, ret: int, written: nat, limit: nat)
    requires HoldsLog(data0, d0, log) && k <= |log| && D.ValidRecord(r)
    requires (k < |log| ==> D.Size(r) == D.Size(log[k])) && written <= D.Size(r)
    requires Outcome(data0, d0, dirty0, free, D.Offset(log, k), D.Size(r), ret, written, d, dirty, after)
    requires ret >= 0 ==> written == D.Size(r) && d.size == Max(d0.size, D.Offset(log, k) + D.Size(r)) <= MAX_FILE_SIZE
    requires written > 0 ==> D.Offset(log, k) + written <= MAX_FILE_SIZE
    requires var end := WriteEnd(data0, d0, D.Offset(log, k), D.Size(r), free);
             && Wrote(data0, d0, data, d, D.Offset(log, k), D.Encode(r)[..written], D.Offset(log, k) / BLOCK_SIZE, end, limit)
             && (ret >= 0 ==> limit == end)
    ensures ret >= 0 ==> HoldsLog(data, d, D.Written(log, k, r))
    ensures (ret >= 0 || ret == -EFBIG || ret == -ENOSPC) && (dirty0 ==> dirty)
    ensures LosesSize(data0, d0, dirty0, D.Offset(log, k), D.Size(r), free) ==> !dirty
    ensures ret < 0 && k == |log| ==>
              var torn := Tears(data0, d0, D.Size(r), free); (HoldsSome(data, d) <==> !torn) && (!torn ==> HoldsLog(data, d, log))
  {
    hide D.Encode, D.Flatten, D.ValidLog, D.Written, FileBytes, Wrote, WriteReturns, WriteLength, NewSize, DirtyAfter, DoubleAfter,
         FreeAfter, WriteEnd, Tears, LosesSize;
    OutcomeSays(data0, d0, dirty0, free, D.Offset(log, k), D.Size(r), ret, written, d, dirty, after);
    var end := WriteEnd(data0, d0, D.Offset(log, k), D.Size(r), free);
    if ret >= 0 {
      assert D.Encode(r)[..written] == D.Encode(r);
      RecordWritten(data0, d0, data, d, log, k, r, end);
    } else if k == |log| {
      AppendFailed(data0, d0, data, d, log, r, free, written, end, limit);
    }
  }

  /** A record in a sound directory can be overwritten. */
  lemma SoundDirectory(data: seq<Block>, table: map<nat, Dinode>, nr: nat, offset: nat, n: nat, free: nat)
    requires AllSound(data, table) && nr in table && table[nr].itype == I_DIR && n > 0 && offset + n <= table[nr].size
    ensures WriteReturns(data, table[nr], offset, n, free) >= 0
  {
    SoundOne(data, table, nr);
    OverwriteSucceeds(data, table[nr], offset, n, free);
  }

  /** The inodes whose size may be lost, after a write that may have lost that of inode nr. */
  function StaleAfter(stale: set<nat>, nr: nat, dirty: bool, lost: bool): set<nat> {
    if dirty then stale - {nr} else if lost then stale + {nr} else stale
  }

  /**
   * What writing record r as the k-th comes to, told by the state before: whether it succeeds, whether the directory is
   * dirty and how many blocks are free then, whether a failed append leaves a directory, and whether all files stay sound.
   */
  ghost predicate AddEnds(data0: seq<Block>, table0: map<nat, Dinode>, d0: Dinode, dirty0: bool, free0: nat, log: D.Log, k: nat,
                          r: D.Record, ret: int,
                          data: seq<Block>, table: map<nat, Dinode>, d: Dinode, dirty: bool, free: int)
    requires k <= |log| && D.ValidRecord(r)
  {
    && ret == WriteReturns(data0, d0, D.Offset(log, k), D.Size(r), free0)
    && (dirty <==> DirtyAfter(data0, d0, dirty0, D.Offset(log, k), D.Size(r), free0))
    && free == FreeAfter(data0, d0, D.Offset(log, k), D.Size(r), free0)
    && (ret < 0 && k == |log| ==> (!Tears(data0, d0, D.Size(r), free0) ==> HoldsLog(data, d, log))
                                  && (HoldsSome(data, d) <==> !Tears(data0, d0, D.Size(r), free0)))
    && (AllSound(data0, table0) ==>
          && (AllSound(data, table) <==> StaysSound(data0, d0, D.Offset(log, k), D.Encode(r), free0))
          && (ret >= 0 ==> AllSound(data, table))
          && (k < |log| && d.itype == I_DIR ==> ret >= 0))
  }

  /**
   * Writes one record over a removed one of its size, over the one it replaces, or at the end of a cached directory.
   * Whether that succeeds, whether a failed append leaves a directory, and whether all files stay sound is told by the
   * state before; in a sound directory a record that is there can always be overwritten.
   */
  method WriteRecord(c: InodeCache, dir: Inode, r: D.Record, offset: nat, ghost log: D.Log, ghost k: nat) returns (ret: int)
    requires c.Valid() && dir.nr in c.hash && c.hash[dir.nr] == dir && dir.nr in c.sb.inodeFreemap.Bits()
    requires HoldsLog(c.sb.Data(), dir.din, log) && k <= |log| && offset == D.Offset(log, k)
    requires D.ValidRecord(r) && (k < |log| ==> D.Size(r) == D.Size(log[k]))
    modifies dir, c.sb`dev, c.sb`usedBlockCount, c.sb`owner, c.sb`table, c.sb.blockFreemap.v, c`stale
    ensures c.Valid() && OthersSame(old(c.sb.Data()), old(c.sb.table), c.sb.Data(), c.sb.table, dir.nr)
    ensures dir.din.itype == old(dir.din.itype) && c.sb.table[dir.nr] == dir.din
    ensures AddEnds(old(c.sb.Data()), old(c.sb.table), old(dir.din), old(dir.dirty), old(c.sb.FreeBlocks()), log, k, r, ret,
                    c.sb.Data(), c.sb.table, dir.din, dir.dirty, c.sb.FreeBlocks())
    ensures c.stale == StaleAfter(old(c.stale), dir.nr, dir.dirty,
                                  LosesSize(old(c.sb.Data()), old(dir.din), old(dir.dirty), offset, D.Size(r), old(c.sb.FreeBlocks())))
    ensures ret >= 0 || ret == -EFBIG || ret == -ENOSPC
    ensures ret >= 0 ==> dir.dirty && HoldsLog(c.sb.Data(), dir.din, D.Written(log, k, r))
  {
    hide Volumes.Consistent, Linked, Counted, LooseBlocks, Marked, TailMarked, DiskInode, OthersSame, Covered, Sound, AllSound, StaysSound,
         Wrote, D.Encode, FileBytes, D.Flatten, D.ValidLog, GapIsZero, Overlay, WriteReturns, WriteLength, NewSize, LosesSize, DirtyAfter,
         DoubleAfter,
         FreeAfter, WriteEnd, Tears, SameContent, SamePlaces;
    ghost var data0, table0, d0, dirty0, free0 := c.sb.Data(), c.sb.table, dir.din, dir.dirty, c.sb.FreeBlocks();
    assert c.CachedRight(dir.nr);
    var bytes := D.Encode(r);
    D.OffsetMonotone(log, k, |log|);
    if k < |log| {
      D.OffsetMonotone(log, k + 1, |log|);
      if AllSound(data0, table0) && d0.itype == I_DIR {
        SoundDirectory(data0, table0, dir.nr, offset, D.Size(r), free0);
      }
    }
    ghost var written: nat;
    ret, written := c.WriteInode(dir, bytes, offset);
    c.CachedReady(dir);
    ghost var end := WriteEnd(data0, d0, offset, |bytes|, free0);
    ghost var limit := end + if ret < 0 then 1 else 0;
    SameType(data0, d0, c.sb.Data(), dir.din, offset, bytes[..written], offset / BLOCK_SIZE, end, limit);
    RecordEnds(data0, d0, dirty0, c.sb.Data(), dir.din, dir.dirty, c.sb.FreeBlocks(), log, k, r, free0, ret, written, limit);
    if AllSound(data0, table0) && ret >= 0 {
      SuccessIsSound(data0, d0, offset, bytes, free0);
    }
  }

  /**
   * Adds an entry: over the first removed one of the same length, unless the name turns up before, or else at the end.
   * See Directories.AddIsUpdate for what that means for the names of the directory.
   */
  method AddDirent(c: InodeCache, dir: Inode, name: D.Name, inodeNr: nat, ghost log: D.Log) returns (ret: int)
    requires c.Valid() && dir.nr in c.hash && c.hash[dir.nr] == dir && dir.nr in c.sb.inodeFreemap.Bits()
    requires HoldsLog(c.sb.Data(), dir.din, log) && D.ValidName(name) && inodeNr < D.HALF_RANGE
    modifies dir, c.sb`dev, c.sb`usedBlockCount, c.sb`owner, c.sb`table, c.sb.blockFreemap.v, c`stale
    ensures c.Valid() && OthersSame(old(c.sb.Data()), old(c.sb.table), c.sb.Data(), c.sb.table, dir.nr)
    ensures dir.din.itype == old(dir.din.itype) && c.sb.table[dir.nr] == dir.din
    ensures D.Add(log, name, inodeNr).None? <==> ret == -EEXIST
    ensures ret == -EEXIST ==> c.sb.dev == old(c.sb.dev) && c.stale == old(c.stale)
    ensures ret == -EEXIST ==> dir.din == old(dir.din) && dir.dirty == old(dir.dirty)
    ensures ret >= 0 ==> dir.dirty && c.stale == old(c.stale) - {dir.nr} && HoldsLog(c.sb.Data(), dir.din, D.Add(log, name, inodeNr).value)
    ensures ret >= 0 || ret == -EEXIST || ret == -EFBIG || ret == -ENOSPC
    ensures ret != -EEXIST ==>
              && AddEnds(old(c.sb.Data()), old(c.sb.table), old(dir.din), old(dir.dirty), old(c.sb.FreeBlocks()), log,
                         D.AddStop(log, name, 0),
                         D.Record(inodeNr, name), ret, c.sb.Data(), c.sb.table, dir.din, dir.dirty, c.sb.FreeBlocks())
              && c.stale == StaleAfter(old(c.stale), dir.nr, dir.dirty,
                                       LosesSize(old(c.sb.Data()), old(dir.din), old(dir.dirty), D.Offset(log, D.AddStop(log, name, 0)),
                                                 D.HEADER_SIZE + |name| + 1, old(c.sb.FreeBlocks())))
  {
    hide Volumes.Consistent, Linked, Counted, LooseBlocks, HoldsLog, OthersSame, Sound, AllSound, StaysSound, Marked, TailMarked, DiskInode,
         WriteReturns, Tears, LosesSize, D.Encode, AddEnds;
    c.CachedReady(dir);
    NothingElse(dir);
    var pOffset, offset := 0, 0;
    var found := false;
    ghost var i := 0;
    while !found
      invariant i <= |log|
      invariant if found then i < |log| && D.Reusable(log[i], name) && D.AddStop(log, name, 0) == i && pOffset == D.Offset(log, i)
                else offset == D.Offset(log, i) && D.AddStop(log, name, 0) == D.AddStop(log, name, i)
      decreases |log| - i, !found
      modifies {}
    {
      pOffset := offset;
      var d, next := NextDirent(dir, offset, log, i);
      if d.None? {
        break;
      }
      offset := next;
      if D.Is(d.value, name) {
        return -EEXIST;
      }
      if D.Reusable(d.value, name) {
        found := true;
      } else {
        i := i + 1;
      }
    }
    assert found || pOffset == dir.din.size;
    OffsetInFile(c.sb.Data(), dir.din, log, i);
    ret := WriteRecord(c, dir, D.Record(inodeNr, name), pOffset, log, i);
  }

  lemma OffsetInFile(data: seq<Block>, d: Dinode, log: D.Log, i: nat)
    requires HoldsLog(data, d, log) && i <= |log|
    ensures D.Offset(log, i) <= d.size <= MAX_FILE_SIZE
  {
    D.OffsetMonotone(log, i, |log|);
  }

  lemma NothingElse(dir: Inode)
    requires dir.Ready()
    ensures OthersSame(dir.sb.Data(), dir.sb.table, dir.sb.Data(), dir.sb.table, dir.nr)
  {}

  /** Whether an inode may be removed: a directory only if nothing is in it but itself and its parent. */
  method RemoveAllowed(dir: Inode, ghost log: D.Log) returns (ret: int)
    requires dir.din.itype == I_DIR ==> IsDirectory(dir, log)
    ensures ret == 0 || ret == -ENOTEMPTY
    ensures ret == 0 <==> (dir.din.itype == I_DIR ==> forall i | 0 <= i < |log| && D.IsLive(log[i]) :: D.IsDots(log[i].name))
  {
    hide Consistent, Linked, Counted, HoldsLog;
    if dir.din.itype != I_DIR {
      return 0;
    }
    var offset := 0;
    ghost var k: nat := 0;
    while true
      invariant k <= |log| && offset == D.Offset(log, k) && forall i | 0 <= i < k && D.IsLive(log[i]) :: D.IsDots(log[i].name)
      decreases |log| - k
    {
      var d, next := NextDirent(dir, offset, log, k);
      if d.None? {
        return 0;
      }
      if D.IsLive(d.value) && !D.IsDots(d.value.name) {
        return -ENOTEMPTY;
      }
      offset, k := next, k + 1;
    }
  }

  /** Every directory's file holds its log, and the entries refer to inodes. */
  ghost predicate DirectoriesHold(data: seq<Block>, table: map<nat, Dinode>, logs: map<nat, D.Log>) {
    forall nr: nat :: DirectoryHolds(data, table, logs, nr)
  }

  ghost predicate DirectoryHolds(data: seq<Block>, table: map<nat, Dinode>, logs: map<nat, D.Log>, nr: nat) {
    nr in table && table[nr].itype == I_DIR ==>
      nr in logs && HoldsLog(data, table[nr], logs[nr]) && forall i | 0 <= i < |logs[nr]| :: logs[nr][i].inodeNr < NR_INODES
  }

  /** A directory with entries besides itself and its parent. */
  ghost predicate IsOccupied(table: map<nat, Dinode>, logs: map<nat, D.Log>, nr: int) {
    && nr in table && table[nr].itype == I_DIR && nr in logs
    && exists i | 0 <= i < |logs[nr]| :: D.IsLive(logs[nr][i]) && !D.IsDots(logs[nr][i].name)
  }

  method CheckRemovable(inode: Inode, ghost logs: map<nat, D.Log>) returns (ret: int)
    requires inode.Ready() && DirectoryHolds(inode.sb.Data(), inode.sb.table, logs, inode.nr)
    ensures ret == if IsOccupied(inode.sb.table, logs, inode.nr) then -ENOTEMPTY else 0
  {
    hide Consistent, Linked, Counted, HoldsLog;
    ret := RemoveAllowed(inode, if inode.din.itype == I_DIR then logs[inode.nr] else []);
  }

  lemma MapPutBack(m: map<nat, Inode>, k: nat, v: Inode)
    ensures k !in m ==> m[k := v] - {k} == m
    ensures k in m && m[k] == v ==> m[k := v] == m
  {}

  /** A reference to a clean inode. */
  method Child(c: InodeCache, nr: nat) returns (inode: Inode)
    requires c.Valid() && nr < NR_INODES && (nr in c.hash ==> !c.hash[nr].dirty)
    modifies c`hash, c`outstanding, c.hash.Values`count
    ensures c.Valid() && inode.Ready() && inode.sb == c.sb && inode.nr == nr && !inode.dirty
    ensures c.hash == old(c.hash)[nr := inode] && c.outstanding == old(c.outstanding) + multiset{nr}
    ensures if nr in old(c.hash) then inode == old(c.hash)[nr] else fresh(inode) && old(c.outstanding)[nr] == 0 && nr !in c.stale
    ensures c.outstanding[nr] > 1 <==> nr in old(c.hash)
  {
    hide Volumes.Consistent, Linked, Counted, LooseBlocks, Marked, TailMarked, DiskInode;
    assert c.CachedRight(nr) && c.StoredRight(nr);
    inode := c.GetInode(nr);
    assert c.CachedRight(nr);
    c.CachedReady(inode);
  }

  /** Looks at the inode an entry refers to and says whether it may be removed. */
  method MayRemove(c: InodeCache, inodeNr: nat, ghost logs: map<nat, D.Log>) returns (ret: int)
    requires c.Valid() && inodeNr < NR_INODES && DirectoriesHold(c.sb.Data(), c.sb.table, logs)
    requires inodeNr in c.hash ==> !c.hash[inodeNr].dirty
    modifies c, c.hash.Values`count, c.sb`table
    ensures c.Valid() && c.outstanding == old(c.outstanding) && c.hash == old(c.hash)
    ensures c.stale == old(c.stale) && c.sb.table == old(c.sb.table)
    ensures ret == if IsOccupied(c.sb.table, logs, inodeNr) then -ENOTEMPTY else 0
  {
    hide Volumes.Consistent, Linked, Counted, LooseBlocks, HoldsLog, DirectoryHolds, IsOccupied, Marked, TailMarked, DiskInode;
    assert DirectoryHolds(c.sb.Data(), c.sb.table, logs, inodeNr);
    hide DirectoriesHold;
    var child := Child(c, inodeNr);
    ret := CheckRemovable(child, logs);
    MapPutBack(old(c.hash), inodeNr, child);
    PutBack(c, child);
  }

  /** Gives back a reference to a clean inode whose size is not lost, because it was just read or stays in memory. */
  method PutBack(c: InodeCache, inode: Inode)
    requires c.Valid() && inode.nr in c.hash && c.hash[inode.nr] == inode && !inode.dirty
    requires c.outstanding[inode.nr] > 1 || inode.nr !in c.stale
    modifies c, inode`count, c.sb`table
    ensures c.Valid() && c.outstanding == old(c.outstanding) - multiset{inode.nr}
    ensures c.stale == old(c.stale) && c.sb.table == old(c.sb.table)
    ensures c.hash == if old(c.outstanding)[inode.nr] == 1 then old(c.hash) - {inode.nr} else old(c.hash)
  {
    hide Volumes.Consistent, Linked, Counted, LooseBlocks, Marked, TailMarked, DiskInode;
    c.PutInode(inode);
  }

  /**
   * Removes a name from a directory of the volume: not `.` or `..`, and not a directory that is not empty. The entry
   * becomes a removed one in place. See Directories.RemoveIsDelete for what that means for the names of the directory.
   */
  method RemoveDirent(c: InodeCache, dir: Inode, name: D.Name, ghost logs: map<nat, D.Log>) returns (ret: int)
    requires c.Valid() && dir.nr in c.hash && c.hash[dir.nr] == dir && dir.nr in c.sb.inodeFreemap.Bits() && dir.din.itype == I_DIR
    requires DirectoriesHold(c.sb.Data(), c.sb.table, logs) && forall k | k in c.hash :: !c.hash[k].dirty
    modifies c, c.hash.Values, c.sb`dev, c.sb`usedBlockCount, c.sb`owner, c.sb`table, c.sb.blockFreemap.v
    ensures c.Valid() && c.hash == old(c.hash) && c.outstanding == old(c.outstanding) && dir.nr in logs
    ensures forall k | k in c.hash && k != dir.nr :: !c.hash[k].dirty
    ensures OthersSame(old(c.sb.Data()), old(c.sb.table), c.sb.Data(), c.sb.table, dir.nr)
    ensures var log := logs[dir.nr]; var target := D.Lookup(log, name);
            if D.IsDots(name) then ret == -EINVAL
            else if target.None? then ret == -ENOENT
            else if IsOccupied(old(c.sb.table), logs, target.value) then ret == -ENOTEMPTY
            else ret == target.value || (!old(AllSound(c.sb.Data(), c.sb.table)) && (ret == -EFBIG || ret == -ENOSPC))
    ensures ret >= 0 ==>
              && dir.dirty && c.stale == old(c.stale) - {dir.nr}
              && D.Remove(logs[dir.nr], name).Some? && HoldsLog(c.sb.Data(), dir.din, D.Remove(logs[dir.nr], name).value)
    ensures ret == -EINVAL || ret == -ENOENT || ret == -ENOTEMPTY ==>
              c.sb.dev == old(c.sb.dev) && c.sb.table == old(c.sb.table) && c.stale == old(c.stale) && !dir.dirty
    ensures ret >= 0 && old(AllSound(c.sb.Data(), c.sb.table)) ==> AllSound(c.sb.Data(), c.sb.table)
    ensures c.sb.table[dir.nr] == dir.din && dir.din.itype == I_DIR
    ensures ret >= 0 || ret in {-EINVAL, -ENOENT, -ENOTEMPTY, -EFBIG, -ENOSPC}
  {
    hide Volumes.Consistent, Linked, Counted, LooseBlocks, HoldsLog, Marked, TailMarked, DiskInode, OthersSame, Sound, AllSound,
         StaysSound, WriteReturns, LosesSize, Tears, D.Encode, AddEnds, HoldsSome;
    assert c.CachedRight(dir.nr) && DirectoryHolds(c.sb.Data(), c.sb.table, logs, dir.nr);
    ghost var log := logs[dir.nr];
    c.CachedReady(dir);
    NothingElse(dir);
    if D.IsDots(name) {
      return -EINVAL;
    }
    var d, pOffset, i := LocateDirent(dir, name, log);
    if d.None? {
      return -ENOENT;
    }
    var inodeNr := d.value.inodeNr;
    ret := MayRemove(c, inodeNr, logs);
    if ret < 0 {
      return;
    }
    EntryValid(c.sb.Data(), dir.din, log, i);
    var erased := d.value.(inodeNr := D.INVALID_INODE_NR);
    ghost var data0, table0, d0, dirty0, free0 := c.sb.Data(), c.sb.table, dir.din, dir.dirty, c.sb.FreeBlocks();
    ret := WriteRecord(c, dir, erased, pOffset, log, i);
    RewriteEnds(data0, table0, d0, dirty0, free0, log, i, erased, ret, c.sb.Data(), c.sb.table, dir.din, dir.dirty, c.sb.FreeBlocks());
    c.CachedApart(dir.nr);
    if ret >= 0 {
      ret := inodeNr;
    }
  }

  /** Overwriting a record where all files are sound. */
  lemma RewriteEnds(data0: seq<Block>, table0: map<nat, Dinode>, d0: Dinode, dirty0: bool, free0: nat, log: D.Log, k: nat, r: D.Record,
                    ret: int, data: seq<Block>, table: map<nat, Dinode>, d: Dinode, dirty: bool, free: int)
    requires k < |log| && D.ValidRecord(r) && AddEnds(data0, table0, d0, dirty0, free0, log, k, r, ret, data, table, d, dirty, free)
    ensures AllSound(data0, table0) && d.itype == I_DIR ==> ret >= 0 && AllSound(data, table)
  {}

  lemma EntryValid(data: seq<Block>, d: Dinode, log: D.Log, i: nat)
    requires HoldsLog(data, d, log) && i < |log|
    ensures D.ValidRecord(log[i])
  {}

  /** The scanning loop of a removal. */
  method LocateDirent(dir: Inode, name: D.Name, ghost log: D.Log) returns (d: Option<D.Record>, offset: nat, ghost i: nat)
    requires IsDirectory(dir, log)
    ensures d.None? <==> D.Lookup(log, name).None?
    ensures d.Some? ==> i < |log| && i == D.Find(log, name, 0) && d == Some(log[i]) && offset == D.Offset(log, i) && D.IsLive(log[i])
  {
    hide Consistent, Linked, Counted, HoldsLog;
    offset, i := 0, 0;
    while true
      invariant i <= |log| && offset == D.Offset(log, i) && D.Find(log, name, 0) == D.Find(log, name, i)
      decreases |log| - i
    {
      var next;
      d, next := NextDirent(dir, offset, log, i);
      if d.None? || D.Is(d.value, name) {
        return;
      }
      offset, i := next, i + 1;
    }
  }
}
