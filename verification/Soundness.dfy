/** What every command keeps of every file, and exactly when a write keeps it. */
module SoundFiles {
  import opened Blocks
  import opened BlockTree
  import opened Errors
  import opened WriteCosts
  import opened ReadWrite
  import opened Reclaim
  import opened FileTheorems

  /** Every block below the size is mapped. */
  ghost predicate Dense(data: seq<Block>, d: Dinode) {
    forall n: nat | n < MAX_BLOCK_NR && n * BLOCK_SIZE < d.size :: !IsHole(data, d, n)
  }

  /** The size is possible and covers the file's blocks, only zeros lie beyond it, and a directory has no holes. */
  ghost predicate Sound(data: seq<Block>, d: Dinode) {
    d.size <= MAX_FILE_SIZE && Covered(data, d) && TailIsZero(data, d) && (d.itype == I_DIR ==> Dense(data, d))
  }

  ghost predicate SoundAt(data: seq<Block>, table: map<nat, Dinode>, k: nat) {
    k in table ==> Sound(data, table[k])
  }

  ghost predicate AllSound(data: seq<Block>, table: map<nat, Dinode>) {
    forall k: nat :: SoundAt(data, table, k)
  }

  lemma SoundOne(data: seq<Block>, table: map<nat, Dinode>, k: nat)
    requires AllSound(data, table) && k in table
    ensures Sound(data, table[k]) && Covered(data, table[k]) && TailIsZero(data, table[k]) && table[k].size <= MAX_FILE_SIZE
  {
    assert SoundAt(data, table, k);
  }

  /** A file whose blocks are where they were, with the same contents, is as sound as it was. */
  lemma SamePlacesSound(data: seq<Block>, data': seq<Block>, d: Dinode)
    requires Sound(data, d) && SameContent(data, d, data', d) && SamePlaces(data, data', d)
    ensures Sound(data', d)
  {
    forall n: nat | n < MAX_BLOCK_NR ensures IsHole(data', d, n) <==> IsHole(data, d, n) {}
    forall off: nat | d.size <= off < MAX_FILE_SIZE ensures ByteAt(data', d, off) == 0 {
      assert off / BLOCK_SIZE < MAX_BLOCK_NR && ByteAt(data, d, off) == 0;
    }
  }

  /** An operation on inode k keeps all files sound if it keeps that one sound. */
  lemma StillSound(data: seq<Block>, table: map<nat, Dinode>, data': seq<Block>, table': map<nat, Dinode>, k: nat)
    requires AllSound(data, table) && OthersSame(data, table, data', table', k) && Sound(data', table'[k])
    ensures AllSound(data', table')
  {
    hide Sound, SameContent, SamePlaces;
    forall k': nat ensures SoundAt(data', table', k') {
      assert SoundAt(data, table, k');
      if k' in table && k' != k {
        SamePlacesSound(data, data', table[k']);
      }
    }
  }

  /** An inode without blocks and of size 0 is sound, whatever its type. */
  lemma FreeSound(data: seq<Block>, d: Dinode)
    requires d == FREE_DINODE.(itype := d.itype)
    ensures Sound(data, d)
  {
    FreeCovered(data, d);
    forall off: nat | off < MAX_FILE_SIZE ensures ByteAt(data, d, off) == 0 {
      assert IsHole(data, d, off / BLOCK_SIZE);
    }
  }

  /** Where nothing is dense but what is needed: a write that starts within a file without holes makes none. */
  lemma DenseAfterWrite(data0: seq<Block>, d0: Dinode, data: seq<Block>, d: Dinode, start: nat, bytes: seq<byte>, n: nat, free: nat,
                        limit: nat)
    requires Dense(data0, d0) && start <= d0.size && d.size == NewSize(data0, d0, start, n, free)
    requires Wrote(data0, d0, data, d, start, bytes, start / BLOCK_SIZE, WriteEnd(data0, d0, start, n, free), limit)
    ensures Dense(data, d)
  {
    hide Stop;
    var first, end := start / BLOCK_SIZE, WriteEnd(data0, d0, start, n, free);
    forall m: nat | m < MAX_BLOCK_NR && m * BLOCK_SIZE < d.size ensures !IsHole(data, d, m) {
      assert HoleFilled(data0, d0, data, d, first, end, m);
    }
  }

  /** Overwriting what is there in a file without holes takes no block and cannot fail. */
  lemma OverwriteSucceeds(data: seq<Block>, d: Dinode, start: nat, n: nat, free: nat)
    requires Dense(data, d) && n > 0 && start + n <= d.size <= MAX_FILE_SIZE
    ensures WriteReturns(data, d, start, n, free) == n
  {
    var first, last := start / BLOCK_SIZE, LastBlock(start, n);
    forall m: nat | first <= m < last + 1 ensures m < MAX_BLOCK_NR && !IsHole(data, d, m) {
      assert m * BLOCK_SIZE < d.size;
    }
    NoCost(data, d, first, last + 1);
    WriteSucceedsIff(data, d, start, n, free);
  }

  /** Whether a write of `buf` at `start` with `free` free blocks keeps a sound file sound. */
  predicate StaysSound(data: seq<Block>, d: Dinode, start: nat, buf: seq<byte>, free: nat) {
    && NewSize(data, d, start, |buf|, free) <= MAX_FILE_SIZE
    && StaysCovered(data, d, start, |buf|, free) && StaysZero(data, d, start, buf, free)
  }

  /**
   * Whatever its outcome, a write to a sound file, which in a directory starts within the file, leaves it sound exactly
   * if the state before says so. The requirements are the postcondition of WriteData.
   */
  lemma SoundAfterWrite(data0: seq<Block>, d0: Dinode, data: seq<Block>, d: Dinode, start: nat, buf: seq<byte>, free: nat, limit: nat)
    requires Sound(data0, d0) && (d0.itype == I_DIR ==> start <= d0.size)
    requires var n := WriteLength(data0, d0, start, |buf|, free);
             && (n > 0 ==> start + n <= MAX_FILE_SIZE)
             && Wrote(data0, d0, data, d, start, buf[..n], start / BLOCK_SIZE, WriteEnd(data0, d0, start, |buf|, free), limit)
    requires d.size == NewSize(data0, d0, start, |buf|, free) && (d.dindirect != 0 <==> DoubleAfter(data0, d0, start, |buf|, free))
    ensures Sound(data, d) <==> StaysSound(data0, d0, start, buf, free)
  {
    hide Stop, Covered, TailIsZero, Dense, StaysZero, DoubleAfter, NewSize, WriteLength, Wrote, Cost;
    var end, n := WriteEnd(data0, d0, start, |buf|, free), WriteLength(data0, d0, start, |buf|, free);
    CoveredAfterWrite(data0, d0, data, d, buf[..n], start, |buf|, free, limit);
    TailAfterWrite(data0, d0, data, d, start, buf, free, end, limit);
    SameType(data0, d0, data, d, start, buf[..n], start / BLOCK_SIZE, end, limit);
    if d0.itype == I_DIR {
      DenseAfterWrite(data0, d0, data, d, start, buf[..n], |buf|, free, limit);
    }
  }

  /**
   * Whether a sound file that was clean is sound once its inode is stored and forgotten after the write. If the write
   * loses the size, the old size comes back, and the bytes placed beyond it must be zero.
   */
  predicate StaysSoundOnDisk(data: seq<Block>, d: Dinode, start: nat, buf: seq<byte>, free: nat) {
    if LosesSize(data, d, false, start, |buf|, free)
    then forall i | 0 <= i < WriteLength(data, d, start, |buf|, free) && start + i >= d.size :: buf[i] == 0
    else StaysSound(data, d, start, buf, free)
  }

  /** A write that loses the size maps nothing. */
  lemma LostMapsNothing(data0: seq<Block>, d0: Dinode, data: seq<Block>, d: Dinode, start: nat, n: nat, bytes: seq<byte>, free: nat,
                        limit: nat)
    requires LosesSize(data0, d0, false, start, n, free) && d == d0.(size := d.size)
    requires Wrote(data0, d0, data, d, start, bytes, start / BLOCK_SIZE, WriteEnd(data0, d0, start, n, free), limit)
    ensures forall m: nat | m < MAX_BLOCK_NR :: IsHole(data, d0, m) <==> IsHole(data0, d0, m)
  {
    hide Stop;
    var first, end := start / BLOCK_SIZE, WriteEnd(data0, d0, start, n, free);
    StopIs(data0, d0, first, first, LastBlock(start, n), free);
    if end > first {
      CostsNothing(data0, d0, first, end);
    }
    hide Cost;
    forall m: nat | m < MAX_BLOCK_NR ensures IsHole(data, d0, m) <==> IsHole(data0, d0, m) {
      assert HoleFilled(data0, d0, data, d, first, end, m);
      assert Phys(data, d, m) == Phys(data, d0, m);
    }
  }

  /** The bytes of the file under its old size. */
  lemma LostBytes(data0: seq<Block>, d0: Dinode, data: seq<Block>, d: Dinode, start: nat, bytes: seq<byte>, first: nat, end: nat,
                  limit: nat)
    requires Wrote(data0, d0, data, d, start, bytes, first, end, limit) && d == d0.(size := d.size)
    requires TailIsZero(data0, d0) && (bytes != [] ==> start + |bytes| <= MAX_FILE_SIZE)
    ensures TailIsZero(data, d0) <==> forall i | 0 <= i < |bytes| && start + i >= d0.size :: bytes[i] == 0
  {
    forall off: nat | off < MAX_FILE_SIZE
      ensures ByteAt(data, d0, off) == if start <= off < start + |bytes| then bytes[off - start] else ByteAt(data0, d0, off)
    {
      ByteAfterWrite(data0, d0, data, d, start, bytes, first, end, limit, off);
      assert Phys(data, d, off / BLOCK_SIZE) == Phys(data, d0, off / BLOCK_SIZE);
    }
    hide Wrote;
    if TailIsZero(data, d0) {
      forall i | 0 <= i < |bytes| && start + i >= d0.size ensures bytes[i] == 0 {
        assert ByteAt(data, d0, start + i) == 0;
      }
    }
  }

  /** So the file with its old size is sound exactly if no stray bytes lie beyond that. */
  lemma LostIsSound(data0: seq<Block>, d0: Dinode, data: seq<Block>, d: Dinode, start: nat, buf: seq<byte>, free: nat, limit: nat)
    requires Sound(data0, d0) && LosesSize(data0, d0, false, start, |buf|, free) && d == d0.(size := d.size)
    requires var n := WriteLength(data0, d0, start, |buf|, free);
             && (n > 0 ==> start + n <= MAX_FILE_SIZE)
             && Wrote(data0, d0, data, d, start, buf[..n], start / BLOCK_SIZE, WriteEnd(data0, d0, start, |buf|, free), limit)
    ensures Sound(data, d0) <==> StaysSoundOnDisk(data0, d0, start, buf, free)
  {
    hide Wrote, WriteEnd, WriteLength, LosesSize, TailIsZero;
    var end, n := WriteEnd(data0, d0, start, |buf|, free), WriteLength(data0, d0, start, |buf|, free);
    LostMapsNothing(data0, d0, data, d, start, |buf|, buf[..n], free, limit);
    LostBytes(data0, d0, data, d, start, buf[..n], start / BLOCK_SIZE, end, limit);
    assert Covered(data, d0) && (d0.itype == I_DIR ==> Dense(data, d0));
  }

  /** Writes of at least one byte keep a file sound if they succeed, or stop at the end of the largest file after writing something. */
  lemma SuccessIsSound(data: seq<Block>, d: Dinode, start: nat, buf: seq<byte>, free: nat)
    requires |buf| > 0 && d.size <= MAX_FILE_SIZE
    requires WriteReturns(data, d, start, |buf|,
                          free) >= 0 || (WriteReturns(data, d, start, |buf|, free) == -EFBIG && start < MAX_FILE_SIZE)
    ensures StaysSound(data, d, start, buf, free)
  {
    hide Stop;
    StopIs(data, d, start / BLOCK_SIZE, start / BLOCK_SIZE, LastBlock(start, |buf|), free);
    hide Cost;
  }

  lemma SameType(data0: seq<Block>, d0: Dinode, data: seq<Block>, d: Dinode, start: nat, bytes: seq<byte>, first: nat, end: nat, limit: nat)
    requires Wrote(data0, d0, data, d, start, bytes, first, end, limit)
    ensures d.itype == d0.itype
  {}
}
