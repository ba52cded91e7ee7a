/** What reads, writes and allocation mean for files as byte arrays and for the volume as a whole. */
module FileTheorems {
  import opened Blocks
  import opened BlockTree
  import opened Bitmaps
  import opened Volumes
  import opened Inodes
  import opened WriteCosts
  import opened ReadWrite

  // ---------------------------------------------------------------- write refinement

  /** The bytes from the end of the file up to `start`, which a write at `start` would turn into file contents. */
  ghost predicate GapIsZero(data: seq<Block>, d: Dinode, start: nat) {
    forall off: nat | d.size <= off < start && off < MAX_FILE_SIZE :: ByteAt(data, d, off) == 0
  }

  /** No stale bytes lie beyond the end of the file. */
  ghost predicate TailIsZero(data: seq<Block>, d: Dinode) {
    forall off: nat | d.size <= off < MAX_FILE_SIZE :: ByteAt(data, d, off) == 0
  }

  lemma ByteAfterWrite(data0: seq<Block>, d0: Dinode, data: seq<Block>, d: Dinode, start: nat, bytes: seq<byte>, first: nat, end: nat,
                       limit: nat, off: nat)
    requires Wrote(data0, d0, data, d, start, bytes, first, end, limit) && off < MAX_FILE_SIZE
    ensures ByteAt(data, d, off) == if start <= off < start + |bytes| then bytes[off - start] else ByteAt(data0, d0, off)
  {
    var m := off / BLOCK_SIZE;
    assert m < MAX_BLOCK_NR && m * BLOCK_SIZE + off % BLOCK_SIZE == off;
    assert BlockOverlaid(data0, d0, data, d, start, bytes, m);
  }

  /**
   * A write that raises the size to max(old size, start + written) overlays the file's byte array with the written bytes,
   * with zeros in any gap, exactly if the gap was zero before.
   */
  lemma WriteOverlaysFile(data0: seq<Block>, d0: Dinode, data: seq<Block>, d: Dinode, start: nat, bytes: seq<byte>, first: nat, end: nat,
                          limit: nat)
    requires Wrote(data0, d0, data, d, start, bytes, first, end, limit)
    requires d.size == Max(d0.size, start + |bytes|) <= MAX_FILE_SIZE
    ensures FileBytes(data, d) == Overlay(FileBytes(data0, d0), start, bytes) <==> GapIsZero(data0, d0, start)
  {
    var f, o := FileBytes(data, d), Overlay(FileBytes(data0, d0), start, bytes);
    forall off: nat | off < d.size
      ensures f[off] == (if start <= off < start + |bytes| then bytes[off - start] else ByteAt(data0, d0, off))
    {
      ByteAfterWrite(data0, d0, data, d, start, bytes, first, end, limit, off);
    }
    if GapIsZero(data0, d0, start) {
      assert forall off: nat | off < d.size :: f[off] == o[off];
    } else {
      var off: nat :| d0.size <= off < start && off < MAX_FILE_SIZE && ByteAt(data0, d0, off) != 0;
      assert f[off] != o[off];
    }
  }

  /** Such a write keeps the tail of the file zero. */
  lemma WriteKeepsTailZero(data0: seq<Block>, d0: Dinode, data: seq<Block>, d: Dinode, start: nat, bytes: seq<byte>, first: nat, end: nat,
                           limit: nat)
    requires Wrote(data0, d0, data, d, start, bytes, first, end, limit)
    requires d.size == Max(d0.size, start + |bytes|) && TailIsZero(data0, d0)
    ensures TailIsZero(data, d) && GapIsZero(data0, d0, start)
  {
    forall off: nat | d.size <= off < MAX_FILE_SIZE ensures ByteAt(data, d, off) == 0 {
      ByteAfterWrite(data0, d0, data, d, start, bytes, first, end, limit, off);
    }
  }

  /** Whether a write of `buf` leaves only zeros beyond the end of the file if there were only zeros before. */
  predicate StaysZero(data: seq<Block>, d: Dinode, start: nat, buf: seq<byte>, free: nat) {
    forall i | 0 <= i < WriteLength(data, d, start, |buf|, free) && start + i >= NewSize(data, d, start, |buf|, free) :: buf[i] == 0
  }

  /**
   * Whatever its outcome, a write keeps the tail of the file zero exactly if the bytes it places beyond the new size are
   * zero. Only a write that runs out of space before its last block places bytes there.
   */
  lemma TailAfterWrite(data0: seq<Block>, d0: Dinode, data: seq<Block>, d: Dinode, start: nat, buf: seq<byte>, free: nat, end: nat,
                       limit: nat)
    requires TailIsZero(data0, d0) && d.size == NewSize(data0, d0, start, |buf|, free)
    requires var n := WriteLength(data0, d0, start, |buf|, free);
             (n > 0 ==> start + n <= MAX_FILE_SIZE) && Wrote(data0, d0, data, d, start, buf[..n], start / BLOCK_SIZE, end, limit)
    ensures TailIsZero(data, d) <==> StaysZero(data0, d0, start, buf, free)
    ensures WriteEnd(data0, d0, start, |buf|, free) >= Min(LastBlock(start, |buf|), MAX_BLOCK_NR) ==> StaysZero(data0, d0, start, buf, free)
  {
    hide Stop, Wrote;
    var n := WriteLength(data0, d0, start, |buf|, free);
    var bytes := buf[..n];
    assert d0.size <= d.size;
    forall off: nat | off < MAX_FILE_SIZE
      ensures ByteAt(data, d, off) == if start <= off < start + |bytes| then bytes[off - start] else ByteAt(data0, d0, off)
    {
      ByteAfterWrite(data0, d0, data, d, start, bytes, start / BLOCK_SIZE, end, limit, off);
    }
    if TailIsZero(data, d) {
      forall i | 0 <= i < n && start + i >= d.size ensures buf[i] == 0 {
        assert ByteAt(data, d, start + i) == 0;
      }
    }
  }

  /** What was written reads back. */
  lemma WrittenReadsBack(data0: seq<Block>, d0: Dinode, data: seq<Block>, d: Dinode, start: nat, bytes: seq<byte>, first: nat, end: nat,
                         limit: nat)
    requires Wrote(data0, d0, data, d, start, bytes, first, end, limit) && start + |bytes| <= MAX_FILE_SIZE
    ensures Range(data, d, start, |bytes|) == bytes
  {
    forall i | 0 <= i < |bytes| ensures ByteAt(data, d, start + i) == bytes[i] {
      ByteAfterWrite(data0, d0, data, d, start, bytes, first, end, limit, start + i);
    }
  }

  /** Files whose blocks have the same contents are the same byte arrays. */
  lemma SameContentSameBytes(data: seq<Block>, d: Dinode, data': seq<Block>, d': Dinode, off: nat, n: nat)
    requires SameContent(data, d, data', d') && off + n <= MAX_FILE_SIZE
    ensures Range(data', d', off, n) == Range(data, d, off, n)
  {
    var r, r' := Range(data, d, off, n), Range(data', d', off, n);
    forall i | 0 <= i < n ensures r'[i] == r[i] {
      var m := (off + i) / BLOCK_SIZE;
      assert m < MAX_BLOCK_NR && BlockOf(data', d', m) == BlockOf(data, d, m);
    }
  }

  // ---------------------------------------------------------------- block conservation

  /** The sum of the block counts of the inodes in ks. */
  ghost function BlockCounts(table: map<nat, Dinode>, ks: set<nat>): int
    requires ks <= table.Keys
  {
    if ks == {} then 0 else var k :| k in ks; table[k].blockCount + BlockCounts(table, ks - {k})
  }

  ghost function OwnedByAny(owner: map<nat, Ref>, ks: set<nat>): set<nat> {
    set b | b in owner && owner[b].ino in ks
  }

  lemma {:induction false} CountsAddUp(table: map<nat, Dinode>, owner: map<nat, Ref>, ks: set<nat>)
    requires ks <= table.Keys && Counted(table, owner)
    ensures BlockCounts(table, ks) == |OwnedByAny(owner, ks)|
  {
    if ks == {} {
      assert OwnedByAny(owner, ks) == {};
    } else {
      var k :| k in ks && BlockCounts(table, ks) == table[k].blockCount + BlockCounts(table, ks - {k});
      CountsAddUp(table, owner, ks - {k});
      assert CountIs(table, owner, k);
      assert OwnedByAny(owner, ks) == OwnedByAny(owner, ks - {k}) + OwnedBy(owner, k);
      assert OwnedByAny(owner, ks - {k}) !! OwnedBy(owner, k);
    }
  }

  /** Block b is in the tree of some inode. */
  ghost predicate InSomeTree(data: seq<Block>, table: map<nat, Dinode>, b: nat) {
    exists k, s :: k in table && InTree(s) && Ptr(data, table[k], s) == b
  }

  lemma NeverShared(data: seq<Block>, table: map<nat, Dinode>, owner: map<nat, Ref>)
    requires Linked(data, table, owner)
    ensures forall k, s, k', s' | k in table && k' in table && InTree(s) && InTree(s') &&
                                  Ptr(data, table[k], s) == Ptr(data, table[k'], s') != 0 ::
              k == k' && s == s'
  {
    forall k, s, k', s' | k in table && k' in table && InTree(s) && InTree(s') && Ptr(data, table[k], s) == Ptr(data, table[k'], s') != 0
      ensures k == k' && s == s'
    {
      NoSharing(data, table, owner, k, s, k', s');
    }
  }

  /** Block i of the data region is marked exactly if it is in a tree, and zero if it is not marked. */
  lemma MarkedIffInTree(sb: Volume, i: nat)
    requires sb.Valid() && Linked(sb.Data(), sb.table, sb.owner) && LooseBlocks(sb.owner) == {} && i < NR_DATA_BLOCKS
    ensures i in sb.blockFreemap.Bits() <==> InSomeTree(sb.Data(), sb.table, DATA_BLOCKS_START + i)
    ensures i !in sb.blockFreemap.Bits() ==> sb.dev[DATA_BLOCKS_START + i] == ZERO
  {
    var data, b := sb.Data(), DATA_BLOCKS_START + i;
    assert OwnsBit(sb.owner, sb.blockFreemap.Bits(), b) && OwnedBySlot(data, sb.table, sb.owner, b) && ZeroIfUnlinked(data, sb.owner, b);
    assert b !in LooseBlocks(sb.owner);
    if InSomeTree(data, sb.table, b) {
      var k, s :| k in sb.table && InTree(s) && Ptr(data, sb.table[k], s) == b;
      assert SlotOwns(data, sb.table, sb.owner, k, s);
    }
  }

  /**
   * Block conservation, in every state of a volume between operations: the marked blocks of the freemap are exactly the
   * blocks of the inodes' trees, a block is in one place of one tree only, the counters are right and within the limit,
   * and every free data block is zero.
   */
  lemma Conservation(sb: Volume)
    requires sb.Valid() && Linked(sb.Data(), sb.table, sb.owner) && Counted(sb.table, sb.owner) && LooseBlocks(sb.owner) == {}
    ensures var data := sb.Data();
            && (forall i: nat | i < NR_DATA_BLOCKS :: i in sb.blockFreemap.Bits() <==> InSomeTree(data, sb.table, DATA_BLOCKS_START + i))
            && (forall k, s, k', s' | k in sb.table && k' in sb.table && InTree(s) && InTree(s')
                  && Ptr(data, sb.table[k], s) == Ptr(data, sb.table[k'], s') != 0 :: k == k' && s == s')
            && sb.usedBlockCount == |sb.blockFreemap.Bits()| == BlockCounts(sb.table, sb.table.Keys)
            && sb.usedBlockCount <= sb.maxFsBlocks
            && (forall i: nat | i < NR_DATA_BLOCKS && i !in sb.blockFreemap.Bits() :: sb.dev[DATA_BLOCKS_START + i] == ZERO)
  {
    hide Linked, Counted, LooseBlocks, Marked, InSomeTree, BlockCounts;
    var data := sb.Data();
    forall i: nat | i < NR_DATA_BLOCKS
      ensures i in sb.blockFreemap.Bits() <==> InSomeTree(data, sb.table, DATA_BLOCKS_START + i)
      ensures i !in sb.blockFreemap.Bits() ==> sb.dev[DATA_BLOCKS_START + i] == ZERO
    {
      MarkedIffInTree(sb, i);
    }
    NeverShared(data, sb.table, sb.owner);
    AllOwnersCounted(data, sb.table, sb.owner);
  }

  lemma AllOwnersCounted(data: seq<Block>, table: map<nat, Dinode>, owner: map<nat, Ref>)
    requires Linked(data, table, owner) && Counted(table, owner)
    ensures |owner| == BlockCounts(table, table.Keys)
  {
    CountsAddUp(table, owner, table.Keys);
    forall b: nat ensures b in owner ==> owner[b].ino in table {
      assert OwnedBySlot(data, table, owner, b);
    }
    assert OwnedByAny(owner, table.Keys) == owner.Keys;
  }
}
