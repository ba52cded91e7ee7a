/** A fresh file system, and short runs on it that show where the code falls short of what its callers expect. */
module Scenarios {
  import opened Blocks
  import opened BlockTree
  import opened Errors
  import opened Bitmaps
  import opened Volumes
  import opened Inodes
  import opened WriteCosts
  import opened ReadWrite
  import opened Reclaim
  import opened FileTheorems
  import opened SoundFiles
  import opened InodeCaches

  /** The table of n inodes that are all free. */
  ghost function FreeInodes(n: nat): (table: map<nat, Dinode>)
    ensures forall nr: nat :: nr in table <==> nr < n
    ensures forall nr | nr in table :: table[nr] == FREE_DINODE
  {
    if n == 0 then map[] else FreeInodes(n - 1)[n - 1 := FREE_DINODE]
  }

  lemma NothingLinked(data: seq<Block>, table: map<nat, Dinode>)
    requires forall b | 0 <= b < |data| :: data[b] == ZERO
    requires forall nr | nr in table :: table[nr] == FREE_DINODE
    ensures Linked(data, table, map[]) && Counted(table, map[]) && LooseBlocks(map[]) == {} && AllSound(data, table)
  {
    forall b: nat ensures OwnedBySlot(data, table, map[], b) && ZeroIfUnlinked(data, map[], b) {}
    forall k: nat, s: Slot ensures SlotOwns(data, table, map[], k, s) {}
    forall k: nat ensures CountIs(table, map[], k) && SoundAt(data, table, k) {
      assert OwnedBy(map[], k) == {};
      FreeSound(data, FREE_DINODE);
    }
  }

  /** A freshly made file system, without blocks or inodes in use, meets every invariant. */
  method NewFileSystem(max: nat) returns (c: InodeCache)
    requires max < WORD_LIMIT * WORD_LIMIT
    ensures fresh(c) && fresh(c.sb) && fresh(c.sb.inodeFreemap.v) && fresh(c.sb.blockFreemap.v)
    ensures c.Valid() && c.stale == {} && AllSound(c.sb.Data(), c.sb.table) && c.hash == map[] && c.sb.maxFsBlocks == max
    ensures c.sb.table == FreeInodes(NR_INODES) && c.sb.inodeFreemap.Bits() == {} && c.sb.owner == map[] && c.sb.usedBlockCount == 0
  {
    hide Linked, Counted, LooseBlocks, AllSound, DiskInode;
    var sb := Format(max, FreeInodes(NR_INODES));
    NothingLinked(sb.Data(), sb.table);
    forall nr: nat | nr < NR_INODES ensures DiskInode(sb.InodeBlocks(), nr) == FREE_DINODE {
      ZeroSlot(sb.InodeBlocks(), nr);
    }
    c := new InodeCache(sb);
  }

  /** The inode of a file that was just created. */
  const NEW_FILE: Dinode := FREE_DINODE.(itype := I_FILE)

  lemma NewFileHoles(data: seq<Block>, n: nat)
    requires n < MAX_BLOCK_NR
    ensures IsHole(data, NEW_FILE, n)
  {}

  /** A fresh file system with one empty file. */
  method NewFile(max: nat) returns (c: InodeCache, inode: Inode)
    requires max < NR_DATA_BLOCKS
    ensures fresh(c) && fresh(inode) && fresh(c.sb) && fresh(c.sb.inodeFreemap.v) && fresh(c.sb.blockFreemap.v)
    ensures c.Valid() && c.stale == {} && c.hash == map[inode.nr := inode] && c.sb.inodeFreemap.Bits() == {inode.nr} && inode.sb == c.sb
    ensures inode.nr == 0 && inode.din == NEW_FILE && inode.dirty
    ensures c.sb.FreeBlocks() == c.sb.maxFsBlocks == max && AllSound(c.sb.Data(), c.sb.table)
  {
    hide Linked, Counted, LooseBlocks, AllSound, DiskInode, Marked, TailMarked;
    c := NewFileSystem(max);
    assert 0 !in c.sb.inodeFreemap.Bits();
    var ret, created := c.CreateInode(I_FILE);
    inode := created;
    assert c.CachedRight(inode.nr);
  }

  /** With one free block, three blocks cannot be written at the start of a new file: the write stops at block 1. */
  lemma StopsAtSecond(data: seq<Block>)
    ensures WriteEnd(data, NEW_FILE, 0, 3 * BLOCK_SIZE, 1) == 1
    ensures WriteReturns(data, NEW_FILE, 0, 3 * BLOCK_SIZE, 1) == -ENOSPC && WriteLength(data, NEW_FILE, 0, 3 * BLOCK_SIZE, 1) == BLOCK_SIZE
    ensures NewSize(data, NEW_FILE, 0, 3 * BLOCK_SIZE, 1) == 0 && !StaysCovered(data, NEW_FILE, 0, 3 * BLOCK_SIZE, 1)
  {
    NewFileHoles(data, 0);
    NewFileHoles(data, 1);
    assert Cost(data, NEW_FILE, 0, 0) == 0 && Cost(data, NEW_FILE, 0, 1) == 1 && Cost(data, NEW_FILE, 0, 2) == 2;
    assert LastBlock(0, 3 * BLOCK_SIZE) == 2;
    assert Stop(data, NEW_FILE, 0, 0, 2, 1) == Stop(data, NEW_FILE, 0, 1, 2, 1) == 1;
  }

  /** What such a write leaves: a mapped block of ones beyond the end of the file. */
  lemma OneBlockWritten(data0: seq<Block>, data: seq<Block>, d: Dinode, ones: seq<byte>, limit: nat)
    requires |ones| >= BLOCK_SIZE && forall i | 0 <= i < |ones| :: ones[i] == 1
    requires Wrote(data0, NEW_FILE, data, d, 0, ones[..BLOCK_SIZE], 0, 1, limit) && d.size == 0
    ensures !IsHole(data, d, 0) && !Covered(data, d) && Range(data, d, 0, BLOCK_SIZE) == seq(BLOCK_SIZE, _ => 1)
  {
    assert HoleFilled(data0, NEW_FILE, data, d, 0, 1, 0);
    WrittenReadsBack(data0, NEW_FILE, data, d, 0, ones[..BLOCK_SIZE], 0, 1, limit);
  }

  /**
   * On a volume with room for one block, a write of three blocks fails in its loop and leaves a mapped block that the
   * size of the file does not cover: removing this file would fail the assertion that no block is left.
   */
  method OutOfSpace() returns (c: InodeCache, inode: Inode, ret: int)
    ensures fresh(c) && fresh(inode) && fresh(c.sb) && fresh(c.sb.inodeFreemap.v) && fresh(c.sb.blockFreemap.v)
    ensures c.Valid() && c.hash == map[inode.nr := inode] && inode.nr in c.sb.inodeFreemap.Bits() && inode.sb == c.sb
    ensures ret == -ENOSPC && inode.din.size == 0 && !Covered(c.sb.Data(), inode.din)
    ensures !IsHole(c.sb.Data(), inode.din, 0) && Range(c.sb.Data(), inode.din, 0, BLOCK_SIZE) == seq(BLOCK_SIZE, _ => 1)
  {
    hide Linked, Counted, LooseBlocks, AllSound, Covered, DiskInode, Marked, TailMarked, Wrote, OthersSame, IsHole, Range,
         WriteEnd, WriteReturns, WriteLength, NewSize, StaysCovered, DirtyAfter, DoubleAfter, LosesSize, Volumes.Consistent;
    c, inode := NewFile(1);
    ghost var data0 := c.sb.Data();
    var ones: seq<byte> := seq(3 * BLOCK_SIZE, _ => 1);
    ghost var written: nat;
    ret, written := c.WriteInode(inode, ones, 0);
    StopsAtSecond(data0);
    OneBlockWritten(data0, c.sb.Data(), inode.din, ones, 2);
  }

  /** A file of no bytes whose first block holds ones, after a byte is written at offset 100. */
  lemma GapShows(data0: seq<Block>, d0: Dinode, data: seq<Block>, d: Dinode, end: nat, limit: nat)
    requires Wrote(data0, d0, data, d, 100, [2], 0, end, limit) && Range(data0, d0, 0, BLOCK_SIZE) == seq(BLOCK_SIZE, _ => 1)
    ensures Range(data, d, 0, 101)[0] == 1
  {
    ByteAfterWrite(data0, d0, data, d, 100, [2], 0, end, limit, 0);
    assert Range(data0, d0, 0, BLOCK_SIZE)[0] == ByteAt(data0, d0, 0);
  }

  /** A write within block 0 succeeds if that block is mapped. */
  lemma FirstBlockThere(data: seq<Block>, d: Dinode, free: nat)
    requires !IsHole(data, d, 0) && d.size == 0
    ensures WriteReturns(data, d, 100, 1, free) == 1 && NewSize(data, d, 100, 1, free) == 101
  {
    NoCost(data, d, 0, 1);
    WriteSucceedsIff(data, d, 100, 1, free);
  }

  /**
   * After that, a successful write of one byte further on turns the bytes before it into file contents: the file is
   * not what overlaying the byte on the empty file gives, because the gap is not zero.
   */
  method StaleBytes() returns (ret: int, before: seq<byte>, after: seq<byte>)
    ensures ret == 1 && before == [] && |after| == 101
    ensures after[0] == 1 && after != Overlay(before, 100, [2])
  {
    hide Linked, Counted, LooseBlocks, AllSound, Covered, DiskInode, Marked, TailMarked, Wrote, OthersSame, IsHole, Range,
         Volumes.Consistent,
         WriteEnd, WriteReturns, WriteLength, NewSize, DirtyAfter, DoubleAfter, LosesSize;
    var c, inode;
    c, inode, ret := OutOfSpace();
    c.CachedReady(inode);
    ghost var data0, d0, free0 := c.sb.Data(), inode.din, c.sb.FreeBlocks();
    var n: int;
    n, before := ReadData(inode, 0, 0);
    ghost var written: nat;
    ret, written := c.WriteInode(inode, [2], 100);
    FirstBlockThere(data0, d0, free0);
    assert [2 as byte][..written] == [2];
    ghost var end := WriteEnd(data0, d0, 100, 1, free0);
    GapShows(data0, d0, c.sb.Data(), inode.din, end, end);
    c.CachedReady(inode);
    n, after := ReadData(inode, 0, 101);
  }

  /**
   * A write beyond the largest file fails but raises the size of the inode in memory without marking it dirty, so the
   * device keeps the old size and the cache is no longer coherent.
   */
  method SizeNotStored() returns (ret: int, inMemory: nat, ghost stored: nat, ghost coherent: bool)
    ensures ret == -EFBIG && inMemory == MAX_FILE_SIZE && stored == 0 && !coherent
  {
    hide Linked, Counted, LooseBlocks, AllSound, Covered, DiskInode, Marked, TailMarked, Wrote, OthersSame, Volumes.Consistent,
         WriteEnd, WriteReturns, WriteLength, NewSize, DirtyAfter, DoubleAfter, LosesSize;
    var c, inode := NewFile(1);
    c.CachedReady(inode);
    c.SyncInode(inode);
    c.NotStale();
    BeyondLargest(c.sb.Data(), c.sb.FreeBlocks());
    ghost var written: nat;
    ret, written := c.WriteInode(inode, [1], MAX_FILE_SIZE);
    inMemory := inode.din.size;
    stored := DiskInode(c.sb.InodeBlocks(), inode.nr).size;
    coherent := c.Coherent();
  }

  lemma BeyondLargest(data: seq<Block>, free: nat)
    ensures WriteReturns(data, NEW_FILE, MAX_FILE_SIZE, 1, free) == -EFBIG
    ensures NewSize(data, NEW_FILE, MAX_FILE_SIZE, 1, free) == MAX_FILE_SIZE && LosesSize(data, NEW_FILE, false, MAX_FILE_SIZE, 1, free)
  {
    assert MAX_FILE_SIZE / BLOCK_SIZE == MAX_BLOCK_NR == LastBlock(MAX_FILE_SIZE, 1);
  }

  // ---------------------------------------------------------------- the double indirect block

  /** Writing a byte in the first block that needs the double indirect block takes three blocks in a new file. */
  lemma ThreeBlocks(data: seq<Block>, start: nat, free: nat)
    requires start / BLOCK_SIZE == FIRST_DOUBLE && free < 3
    ensures WriteEnd(data, NEW_FILE, start, 1, free) == LastBlock(start, 1) == FIRST_DOUBLE
    ensures WriteReturns(data, NEW_FILE, start, 1, free) == -ENOSPC && WriteLength(data, NEW_FILE, start, 1, free) == 0
    ensures NewSize(data, NEW_FILE, start, 1, free) == start
    ensures DoubleAfter(data, NEW_FILE, start, 1, free) <==> free == 1
    ensures LeftBehind(data, NEW_FILE, start, 1, free) <==> free == 1
  {
    NewFileHoles(data, FIRST_DOUBLE);
    assert LastBlock(start, 1) == FIRST_DOUBLE;
    assert Cost(data, NEW_FILE, FIRST_DOUBLE, FIRST_DOUBLE) == 0 && Cost(data, NEW_FILE, FIRST_DOUBLE, FIRST_DOUBLE + 1) == 3;
  }

  /**
   * With one free block, such a write takes it for the double indirect block and keeps it: the volume is full, and of
   * the file there is nothing but an empty index block that its size does not need, so removing it fails the assertion.
   */
  method IndexLeftBehind() returns (ret: int, size: nat, ghost free: nat, ghost dindirect: nat, ghost covered: bool)
    ensures ret == -ENOSPC && size == FIRST_DOUBLE * BLOCK_SIZE && free == 0 && dindirect != 0 && !covered
  {
    hide Linked, Counted, LooseBlocks, AllSound, DiskInode, Marked, TailMarked, Wrote, OthersSame, Volumes.Consistent,
         WriteEnd, WriteReturns, WriteLength, NewSize, DirtyAfter, DoubleAfter, LosesSize;
    var c, inode := NewFile(1);
    c.CachedReady(inode);
    ThreeBlocks(c.sb.Data(), FIRST_DOUBLE * BLOCK_SIZE, 1);
    ghost var written: nat;
    ret, written := c.WriteInode(inode, [1], FIRST_DOUBLE * BLOCK_SIZE);
    c.CachedReady(inode);
    UsedUp(inode);
    size, free, dindirect, covered := inode.din.size, c.sb.FreeBlocks(), inode.din.dindirect, Covered(c.sb.Data(), inode.din);
  }

  /** A linked block is a used one. */
  lemma UsedUp(inode: Inode)
    requires inode.Ready() && inode.din.dindirect != 0 && inode.sb.maxFsBlocks == 1
    ensures inode.sb.FreeBlocks() == 0
  {
    var sb := inode.sb;
    assert SlotOwns(sb.Data(), sb.table, sb.owner, inode.nr, DoubleIndirect);
    SubsetCard({inode.din.dindirect}, sb.owner.Keys);
  }

  lemma OneBit(w: bv8)
    requires Has(w, 0) && forall o: nat | 0 < o < BITS_PER_WORD :: !Has(w, o)
    ensures w == 1
  {
    HasMask(w, 1); HasMask(w, 2); HasMask(w, 3); HasMask(w, 4); HasMask(w, 5); HasMask(w, 6); HasMask(w, 7);
    MaskValue(1); MaskValue(2); MaskValue(3); MaskValue(4); MaskValue(5); MaskValue(6); MaskValue(7);
  }

  lemma NoBit(w: bv8)
    requires forall o: nat | o < BITS_PER_WORD :: !Has(w, o)
    ensures w == 0
  {
    HasMask(w, 0); HasMask(w, 1); HasMask(w, 2); HasMask(w, 3); HasMask(w, 4); HasMask(w, 5); HasMask(w, 6); HasMask(w, 7);
    MaskValue(0); MaskValue(1); MaskValue(2); MaskValue(3); MaskValue(4); MaskValue(5); MaskValue(6); MaskValue(7);
  }

  /** With only inode 0 allocated, the first word of the inode freemap is 1. */
  lemma OnlyRoot(words: seq<bv8>, e: nat)
    requires |words| == BLOCK_SIZE && Marked(words, NR_INODE_BITS) == {0} && e > FIRST_DOUBLE
    ensures WildBlock(FreemapBlock(words, 0), e) == INODE_FREEMAP_START
  {
    forall i: nat | i < 32 ensures Has(words[i / BITS_PER_WORD], i % BITS_PER_WORD) <==> i == 0 {
      assert i in Marked(words, NR_INODE_BITS) <==> BitSet(words, i);
    }
    forall w: nat, o: nat | w < 4 && o < BITS_PER_WORD ensures Has(words[w], o) <==> w == 0 && o == 0 {
      var i := w * BITS_PER_WORD + o;
      assert i / BITS_PER_WORD == w && i % BITS_PER_WORD == o;
    }
    OneBit(words[0]);
    NoBit(words[1]); NoBit(words[2]); NoBit(words[3]);
    var b := FreemapBlock(words, 0);
    assert words[0..BLOCK_SIZE][0] == 1 && words[0..BLOCK_SIZE][1] == words[0..BLOCK_SIZE][2] == words[0..BLOCK_SIZE][3] == 0;
    assert Word(b, 0) == 1;
  }

  lemma InodeWords(sb: Volume)
    requires sb.Valid()
    ensures sb.inodeFreemap.Valid() && |sb.inodeFreemap.v[..]| == BLOCK_SIZE
    ensures sb.inodeFreemap.Bits() == Marked(sb.inodeFreemap.v[..], NR_INODE_BITS)
  {}

  /**
   * With two free blocks, a write just beyond that offset takes both index blocks and gives them back, but raises the
   * size, and the inode is dirty, so the size is stored. Removing this file then takes the super block for the double
   * indirect block and the inode freemap for an indirect block, and zeroes the inode freemap on the device before an
   * assertion fails.
   */
  method FreemapWiped() returns (ret: int, size: nat, ghost dirty: bool, end: Freeing, c: InodeCache)
    ensures ret == -ENOSPC && size == FIRST_DOUBLE * BLOCK_SIZE + 1 && dirty
    ensures end == Astray(INODE_FREEMAP_START) && |c.sb.dev| == NR_DEVICE_BLOCKS && c.sb.dev[INODE_FREEMAP_START] == ZERO
    ensures c.sb.inodeFreemap.Valid() && 0 in c.sb.inodeFreemap.Bits()
  {
    hide Linked, Counted, LooseBlocks, AllSound, DiskInode, Wrote, OthersSame, Volumes.Consistent,
         WriteEnd, WriteReturns, WriteLength, NewSize, DoubleAfter, LosesSize, WildBlock, FreemapBlock, Marked, TailMarked;
    var inode;
    c, inode := NewFile(2);
    c.CachedReady(inode);
    ThreeBlocks(c.sb.Data(), FIRST_DOUBLE * BLOCK_SIZE + 1, 2);
    ghost var written: nat;
    ret, written := c.WriteInode(inode, [1], FIRST_DOUBLE * BLOCK_SIZE + 1);
    c.CachedReady(inode);
    size, dirty := inode.din.size, inode.dirty;
    InodeWords(c.sb);
    OnlyRoot(c.sb.inodeFreemap.v[..], FIRST_DOUBLE + 1);
    end := FreeBlocks(inode);
  }
}
