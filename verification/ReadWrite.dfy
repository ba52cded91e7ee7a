/** Reading and writing byte ranges of a file, and freeing all of its blocks. */
module ReadWrite {
  import opened Blocks
  import opened BlockTree
  import opened Errors
  import opened Volumes
  import opened Inodes
  import opened WriteCosts

  const MAX_FILE_SIZE: nat := MAX_BLOCK_NR * BLOCK_SIZE

  // ---------------------------------------------------------------- the sparse byte array of a file

  /** Byte `off` of a file; holes are zeros. */
  function ByteAt(data: seq<Block>, d: Dinode, off: nat): byte
    requires off < MAX_FILE_SIZE
  {
    BlockOf(data, d, off / BLOCK_SIZE)[off % BLOCK_SIZE]
  }

  /** The n bytes from `off` on. */
  function Range(data: seq<Block>, d: Dinode, off: nat, n: nat): (bytes: seq<byte>)
    requires off + n <= MAX_FILE_SIZE
    ensures |bytes| == n
  {
    seq(n, i requires 0 <= i < n => ByteAt(data, d, off + i))
  }

  /** The file as the byte array its size describes. */
  function FileBytes(data: seq<Block>, d: Dinode): (bytes: seq<byte>)
    requires d.size <= MAX_FILE_SIZE
    ensures |bytes| == d.size
  {
    Range(data, d, 0, d.size)
  }

  /** Block m of a file whose block m used to be b, once `bytes` are laid over the file at `start`. */
  function Overlaid(b: Block, m: nat, start: nat, bytes: seq<byte>): Block {
    seq(BLOCK_SIZE, i requires 0 <= i < BLOCK_SIZE =>
      var off := m * BLOCK_SIZE + i; if start <= off < start + |bytes| then bytes[off - start] else b[i])
  }

  /** The array with `bytes` laid over it at `start`, grown with zeros if it was shorter. */
  function Overlay(a: seq<byte>, start: nat, bytes: seq<byte>): (r: seq<byte>)
    ensures |r| == Max(|a|, start + |bytes|)
  {
    seq(Max(|a|, start + |bytes|), i requires 0 <= i =>
      if start <= i < start + |bytes| then bytes[i - start] else if i < |a| then a[i] else 0)
  }

  function Min(a: nat, b: nat): nat {
    if a < b then a else b
  }

  function DivRoundUp(a: nat, b: nat): nat
    requires b > 0
  {
    (a + b - 1) / b
  }

  /** Laying a prefix over the file changes no block that the next chunk does not reach, and the chunk's block as memcpy does. */
  lemma OverlayChunk(b: Block, m: nat, start: nat, buf: seq<byte>, t: nat, n: nat, ix: nat, len: nat)
    requires n * BLOCK_SIZE + ix == start + t && ix + len <= BLOCK_SIZE && t + len <= |buf|
    ensures var was := Overlaid(b, m, start, buf[..t]); var now := Overlaid(b, m, start, buf[..t + len]);
            now == if m == n then was[..ix] + buf[t..t + len] + was[ix + len..] else was
  {}

  ghost predicate HoleFilled(data: seq<Block>, d: Dinode, data': seq<Block>, d': Dinode, first: nat, end: nat, m: nat) {
    m < MAX_BLOCK_NR ==> (IsHole(data', d', m) <==> IsHole(data, d, m) && !(first <= m < end))
  }

  ghost predicate BlockOverlaid(data: seq<Block>, d: Dinode, data': seq<Block>, d': Dinode, start: nat, bytes: seq<byte>, m: nat) {
    m < MAX_BLOCK_NR ==> BlockOf(data', d', m) == Overlaid(BlockOf(data, d, m), m, start, bytes)
  }

  /** Every block of the inode's tree is in the same place in both states. */
  ghost predicate SamePlaces(data: seq<Block>, data': seq<Block>, d: Dinode) {
    && (forall n: nat | n < MAX_BLOCK_NR :: Phys(data', d, n) == Phys(data, d, n))
    && (forall i: nat | i < NR_INDIRECT_BLOCKS :: Ptr(data', d, Middle(i)) == Ptr(data, d, Middle(i)))
  }

  lemma SameExtra(data: seq<Block>, data': seq<Block>, d: Dinode, first: nat, m: nat)
    requires SamePlaces(data, data', d) && first <= m < MAX_BLOCK_NR
    ensures Extra(data', d, first, m) == Extra(data, d, first, m)
  {
    assert Phys(data', d, m) == Phys(data, d, m);
    match DataSlot(m)
    case Leaf(i, _) => assert Ptr(data', d, Middle(i)) == Ptr(data, d, Middle(i));
    case _ =>
  }

  lemma {:induction false} SameCost(data: seq<Block>, data': seq<Block>, d: Dinode, first: nat, n: nat)
    requires SamePlaces(data, data', d) && (n <= first || n <= MAX_BLOCK_NR)
    ensures Cost(data', d, first, n) == Cost(data, d, first, n)
  {
    hide SamePlaces, Extra;
    if first < n {
      SameCost(data, data', d, first, n - 1);
      SameExtra(data, data', d, first, n - 1);
    }
  }

  lemma {:induction false} SameStop(data: seq<Block>, data': seq<Block>, d: Dinode, first: nat, n: nat, last: nat, free: nat)
    requires SamePlaces(data, data', d) && first <= n <= last + 1
    ensures Stop(data', d, first, n, last, free) == Stop(data, d, first, n, last, free)
    decreases last + 1 - n
  {
    hide SamePlaces, Cost;
    if n <= last && n < MAX_BLOCK_NR {
      SameCost(data, data', d, first, n + 1);
      if Cost(data, d, first, n + 1) <= free {
        SameStop(data, data', d, first, n + 1, last, free);
      }
    }
  }

  /** What a write to a file will do depends on the places of its own blocks only. */
  lemma SameFuture(data: seq<Block>, data': seq<Block>, d: Dinode, start: nat, n: nat, free: nat)
    requires SamePlaces(data, data', d)
    ensures WriteEnd(data', d, start, n, free) == WriteEnd(data, d, start, n, free)
    ensures WriteReturns(data', d, start, n, free) == WriteReturns(data, d, start, n, free)
    ensures WriteLength(data', d, start, n, free) == WriteLength(data, d, start, n, free)
    ensures NewSize(data', d, start, n, free) == NewSize(data, d, start, n, free)
    ensures forall dirty :: DirtyAfter(data', d, dirty, start, n, free) == DirtyAfter(data, d, dirty, start, n, free)
    ensures StaysCovered(data', d, start, n, free) == StaysCovered(data, d, start, n, free)
  {
    hide SamePlaces, Stop, Cost;
    var first := start / BLOCK_SIZE;
    SameStop(data, data', d, first, first, LastBlock(start, n), free);
    SameCost(data, data', d, first, WriteEnd(data, d, start, n, free));
    if first <= MAX_BLOCK_NR {
      SameCost(data, data', d, first, MAX_BLOCK_NR);
    }
  }

  /** Every other inode is as it was, and so are the contents of its file and the places of its blocks. */
  ghost predicate OthersSame(data: seq<Block>, table: map<nat, Dinode>, data': seq<Block>, table': map<nat, Dinode>, k: nat) {
    && k in table && table'.Keys == table.Keys
    && forall k' | k' in table && k' != k ::
         table'[k'] == table[k'] && SameContent(data, table[k'], data', table'[k']) && SamePlaces(data, data', table[k'])
  }

  /**
   * What writing `bytes` at `start` does to inode k: the bytes overlay the file, the blocks from `first` up to
   * (not including) `end` are mapped and no further ones, an indirect block appears only if one of these needs it,
   * and a double indirect block only if one below `limit` does.
   */
  ghost predicate Wrote(data: seq<Block>, d: Dinode, data': seq<Block>, d': Dinode, start: nat, bytes: seq<byte>, first: nat, end: nat,
                        limit: nat) {
    && (forall m: nat :: BlockOverlaid(data, d, data', d', start, bytes, m))
    && (forall m: nat :: HoleFilled(data, d, data', d', first, end, m))
    && d'.itype == d.itype
    && (d'.indirect == d.indirect || (first < end && end > NR_DIRECT_BLOCKS))
    && (d'.dindirect == d.dindirect || (d.dindirect == 0 && first < limit && limit > NR_DIRECT_BLOCKS + NR_INDIRECT_BLOCKS))
  }

  // ---------------------------------------------------------------- reading

  /** Bytes that lie within one block. */
  lemma ChunkBytes(data: seq<Block>, d: Dinode, off: nat, len: nat)
    requires off % BLOCK_SIZE + len <= BLOCK_SIZE && off / BLOCK_SIZE < MAX_BLOCK_NR
    ensures off + len <= MAX_FILE_SIZE
    ensures Range(data, d, off, len) == BlockOf(data, d, off / BLOCK_SIZE)[off % BLOCK_SIZE..off % BLOCK_SIZE + len]
  {
    var n, ix := off / BLOCK_SIZE, off % BLOCK_SIZE;
    var chunk := BlockOf(data, d, n)[ix..ix + len];
    forall i: nat | i < len ensures ByteAt(data, d, off + i) == chunk[i] {
      assert off + i == n * BLOCK_SIZE + (ix + i);
      assert (off + i) / BLOCK_SIZE == n && (off + i) % BLOCK_SIZE == ix + i;
    }
  }

  lemma RangeConcat(data: seq<Block>, d: Dinode, off: nat, a: nat, b: nat)
    requires off + a + b <= MAX_FILE_SIZE
    ensures Range(data, d, off, a) + Range(data, d, off + a, b) == Range(data, d, off, a + b)
  {}

  /** Reads a block and copies `len` bytes of it, from offset `off` of the file on. */
  method ReadChunk(inode: Inode, off: nat, len: nat) returns (ret: int, chunk: seq<byte>)
    requires inode.Ready() && off % BLOCK_SIZE + len <= BLOCK_SIZE
    ensures off / BLOCK_SIZE >= MAX_BLOCK_NR ==> ret == -EFBIG
    ensures off / BLOCK_SIZE < MAX_BLOCK_NR ==>
              ret >= 0 && off + len <= MAX_FILE_SIZE && chunk == Range(inode.sb.Data(), inode.din, off, len)
  {
    hide Consistent, Linked, Counted, Range;
    var block: Block;
    ret, block := inode.ReadBlock(off / BLOCK_SIZE);
    chunk := [];
    if ret >= 0 {
      ChunkBytes(inode.sb.Data(), inode.din, off, len);
      chunk := block[off % BLOCK_SIZE..off % BLOCK_SIZE + len];
    }
  }

  /**
   * Reads up to `size` bytes at `start`, stopping at the end of the file. Fails exactly when it would have to look
   * beyond the largest file.
   */
  method ReadData(inode: Inode, start: nat, size: nat) returns (ret: int, buf: seq<byte>)
    requires inode.Ready() && start <= inode.din.size
    ensures LastBlock(start, Min(size, inode.din.size - start)) >= MAX_BLOCK_NR <==> ret < 0
    ensures ret < 0 ==> ret == -EFBIG
    ensures ret >= 0 ==> ret == Min(size, inode.din.size - start) && start + ret <= MAX_FILE_SIZE
    ensures ret >= 0 ==> buf == Range(inode.sb.Data(), inode.din, start, ret)
  {
    hide Consistent, Linked, Counted, Range;
    var n := if start + size > inode.din.size then inode.din.size - start else size;
    var blockIx := start % BLOCK_SIZE;
    var chunk: seq<byte>;
    if blockIx + n > BLOCK_SIZE {
      buf := [];
      while |buf| < n
        invariant |buf| <= n
        invariant |buf| > 0 ==> start + |buf| <= MAX_FILE_SIZE && buf == Range(inode.sb.Data(), inode.din, start, |buf|)
      {
        blockIx := (start + |buf|) % BLOCK_SIZE;
        var len := Min(n - |buf|, BLOCK_SIZE - blockIx);
        ret, chunk := ReadChunk(inode, start + |buf|, len);
        if ret < 0 {
          return;
        }
        RangeConcat(inode.sb.Data(), inode.din, start, |buf|, len);
        assert |buf| == 0 ==> buf + chunk == chunk;
        buf := buf + chunk;
      }
    } else {
      ret, buf := ReadChunk(inode, start, n);
      if ret < 0 {
        return;
      }
    }
    ret := n;
  }

  // ---------------------------------------------------------------- writing

  lemma WroteNothing(data: seq<Block>, table: map<nat, Dinode>, k: nat, start: nat, first: nat)
    requires k in table
    ensures OthersSame(data, table, data, table, k) && Wrote(data, table[k], data, table[k], start, [], first, first, first)
  {
    var d := table[k];
    forall m: nat ensures BlockOverlaid(data, d, data, d, start, [], m) {
      if m < MAX_BLOCK_NR {
        assert Overlaid(BlockOf(data, d, m), m, start, []) == BlockOf(data, d, m);
      }
    }
    forall m: nat ensures HoleFilled(data, d, data, d, first, first, m) {}
  }

  lemma WroteMore(data0: seq<Block>, table0: map<nat, Dinode>, data: seq<Block>, table: map<nat, Dinode>,
                  k: nat, start: nat, bytes: seq<byte>, first: nat, n: nat)
    requires OthersSame(data0, table0, data, table, k) && k in table
    requires Wrote(data0, table0[k], data, table[k], start, bytes, first, n, n)
    ensures Wrote(data0, table0[k], data, table[k], start, bytes, first, n, n + 1)
  {}

  lemma WroteSize(data0: seq<Block>, table0: map<nat, Dinode>, data: seq<Block>, table: map<nat, Dinode>,
                  k: nat, start: nat, bytes: seq<byte>, first: nat, end: nat, limit: nat, size: nat)
    requires OthersSame(data0, table0, data, table, k) && k in table
    requires Wrote(data0, table0[k], data, table[k], start, bytes, first, end, limit)
    ensures OthersSame(data0, table0, data, table[k := table[k].(size := size)], k)
    ensures Wrote(data0, table0[k], data, table[k].(size := size), start, bytes, first, end, limit)
  {
    var d := table[k].(size := size);
    forall m: nat
      ensures BlockOverlaid(data0, table0[k], data, d, start, bytes, m) && HoleFilled(data0, table0[k], data, d, first, end, m)
    {
      assert BlockOverlaid(data0, table0[k], data, table[k], start, bytes, m);
      assert HoleFilled(data0, table0[k], data, table[k], first, end, m);
      assert m < MAX_BLOCK_NR ==> Phys(data, d, m) == Phys(data, table[k], m);
    }
  }

  lemma NeedSize(data: seq<Block>, d: Dinode, size: nat, n: nat)
    ensures n < MAX_BLOCK_NR ==> Need(data, d.(size := size), n) == Need(data, d, n)
  {
    assert n < MAX_BLOCK_NR ==> Phys(data, d.(size := size), n) == Phys(data, d, n);
  }

  lemma GrownMaps(data: seq<Block>, table: map<nat, Dinode>, data': seq<Block>, table': map<nat, Dinode>, k: nat, n: nat, ret: int)
    requires Grown(data, table, data', table', k, n, ret) && ret > 0
    ensures Phys(data', table'[k], n) == ret
  {
    assert PhysKept(data, table, data', table', k, n, ret, k, n);
  }

  lemma GrownSize(data: seq<Block>, table: map<nat, Dinode>, data': seq<Block>, table': map<nat, Dinode>, k: nat, n: nat, ret: int)
    requires Grown(data, table, data', table', k, n, ret)
    ensures table'[k].size == table[k].size
  {}

  /** A failed allocation after a partial write changes no contents and maps nothing. */
  lemma WroteThenFailed(data0: seq<Block>, table0: map<nat, Dinode>, data1: seq<Block>, table1: map<nat, Dinode>,
                        data2: seq<Block>, table2: map<nat, Dinode>, k: nat, start: nat, bytes: seq<byte>, first: nat, n: nat, ret: int)
    requires OthersSame(data0, table0, data1, table1, k) && k in table1
    requires Wrote(data0, table0[k], data1, table1[k], start, bytes, first, n, n) && first <= n
    requires Grown(data1, table1, data2, table2, k, n, ret) && ret < 0
    ensures OthersSame(data0, table0, data2, table2, k) && Wrote(data0, table0[k], data2, table2[k], start, bytes, first, n, n + 1)
  {
    forall m: nat ensures BlockOverlaid(data0, table0[k], data2, table2[k], start, bytes, m) {
      assert BlockOverlaid(data0, table0[k], data1, table1[k], start, bytes, m);
    }
    forall m: nat ensures HoleFilled(data0, table0[k], data2, table2[k], first, n, m) {
      assert HoleFilled(data0, table0[k], data1, table1[k], first, n, m) && PhysKept(data1, table1, data2, table2, k, 0, 0, k, m);
    }
    forall k', m: nat | k' in table0 && k' != k && m < MAX_BLOCK_NR ensures Phys(data2, table0[k'], m) == Phys(data0, table0[k'], m) {
      assert PhysKept(data1, table1, data2, table2, k, 0, 0, k', m);
    }
    forall k', i: nat | k' in table0 && k' != k && i < NR_INDIRECT_BLOCKS
      ensures Ptr(data2, table0[k'], Middle(i)) == Ptr(data0, table0[k'], Middle(i))
    {
      assert OtherRowKept(data1, table1, data2, table2, k, k', i);
    }
  }

  /** Mapping and overwriting block n of inode k leaves the other inodes alone. */
  lemma OthersAfterChunk(data0: seq<Block>, table0: map<nat, Dinode>, data1: seq<Block>, table1: map<nat, Dinode>,
                         data2: seq<Block>, table2: map<nat, Dinode>, data3: seq<Block>, k: nat, n: nat)
    requires OthersSame(data0, table0, data1, table1, k) && n < MAX_BLOCK_NR && k in table2
    requires Grown(data1, table1, data2, table2, k, n, Phys(data2, table2[k], n)) && Phys(data2, table2[k], n) > 0
    requires OnlyMoved(data2, table2, data3, table2, k, DataSlot(n), Phys(data2, table2[k], n))
    requires forall k' | k' in table2 && k' != k :: SameContent(data2, table2[k'], data3, table2[k'])
    ensures OthersSame(data0, table0, data3, table2, k)
  {
    forall k', m: nat | k' in table0 && k' != k && m < MAX_BLOCK_NR
      ensures Phys(data3, table0[k'], m) == Phys(data0, table0[k'], m)
      ensures BlockOf(data3, table0[k'], m) == BlockOf(data0, table0[k'], m)
    {
      assert PhysKept(data1, table1, data2, table2, k, n, Phys(data2, table2[k], n), k', m);
      assert PtrMoved(data2, table2, data3, table2, k, DataSlot(n), Phys(data2, table2[k], n), k', DataSlot(m));
    }
    forall k', i: nat | k' in table0 && k' != k && i < NR_INDIRECT_BLOCKS
      ensures Ptr(data3, table0[k'], Middle(i)) == Ptr(data0, table0[k'], Middle(i))
    {
      assert OtherRowKept(data1, table1, data2, table2, k, k', i);
      assert PtrMoved(data2, table2, data3, table2, k, DataSlot(n), Phys(data2, table2[k], n), k', Middle(i));
    }
  }

  /** Block n is asked for and then overwritten with the next chunk. */
  lemma WroteChunk(data0: seq<Block>, table0: map<nat, Dinode>, data1: seq<Block>, table1: map<nat, Dinode>,
                   data2: seq<Block>, table2: map<nat, Dinode>, owner: map<nat, Ref>, k: nat,
                   start: nat, buf: seq<byte>, t: nat, first: nat, n: nat, ix: nat, len: nat)
    requires OthersSame(data0, table0, data1, table1, k) && k in table1 && t + len <= |buf| && first <= n < MAX_BLOCK_NR && k in table2
    requires Wrote(data0, table0[k], data1, table1[k], start, buf[..t], first, n, n)
    requires Grown(data1, table1, data2, table2, k, n, Phys(data2, table2[k], n)) && Phys(data2, table2[k], n) > 0
    requires n * BLOCK_SIZE + ix == start + t && ix + len <= BLOCK_SIZE
    requires Linked(data2, table2, owner)
    ensures InData(data2, Phys(data2, table2[k], n))
    ensures var block := BlockOf(data2, table2[k], n);
            var data3 := Put(data2, Phys(data2, table2[k], n), block[..ix] + buf[t..t + len] + block[ix + len..]);
            && OthersSame(data0, table0, data3, table2, k) && Linked(data3, table2, owner)
            && Wrote(data0, table0[k], data3, table2[k], start, buf[..t + len], first, n + 1, n + 1)
            && OnlyMoved(data2, table2, data3, table2, k, DataSlot(n), Phys(data2, table2[k], n))
  {
    var ret, block := Phys(data2, table2[k], n), BlockOf(data2, table2[k], n);
    var x := block[..ix] + buf[t..t + len] + block[ix + len..];
    PutData(data2, table2, owner, k, n, x);
    var data3, bytes, end := Put(data2, ret, x), buf[..t + len], n + 1;
    forall m: nat ensures BlockOverlaid(data0, table0[k], data3, table2[k], start, bytes, m) {
      assert BlockOverlaid(data0, table0[k], data1, table1[k], start, buf[..t], m);
      if m < MAX_BLOCK_NR {
        OverlayChunk(BlockOf(data0, table0[k], m), m, start, buf, t, n, ix, len);
      }
    }
    forall m: nat ensures HoleFilled(data0, table0[k], data3, table2[k], first, end, m) {
      assert HoleFilled(data0, table0[k], data1, table1[k], first, n, m) && PhysKept(data1, table1, data2, table2, k, n, ret, k, m);
      if m < MAX_BLOCK_NR {
        assert PtrMoved(data2, table2, data3, table2, k, DataSlot(n), ret, k, DataSlot(m));
      }
    }
    OthersAfterChunk(data0, table0, data1, table1, data2, table2, data3, k, n);
  }

  /** Block n is missing and too few blocks are free to provide it. */
  ghost predicate TooFew(inode: Inode, n: nat)
    reads inode`din, inode.sb
  {
    && |inode.sb.dev| == NR_DEVICE_BLOCKS && inode.sb.usedBlockCount <= inode.sb.maxFsBlocks && inode.sb.usedBlockCount <= NR_DATA_BLOCKS
    && n < MAX_BLOCK_NR && inode.sb.FreeBlocks() < Need(inode.sb.Data(), inode.din, n)
  }

  /** The state of a volume after `bytes` of a write to the inode are in place. */
  ghost predicate Written(inode: Inode, data0: seq<Block>, table0: map<nat, Dinode>, start: nat, bytes: seq<byte>, first: nat, end: nat,
                          limit: nat)
    reads inode`din, inode.sb, inode.sb.inodeFreemap.v, inode.sb.blockFreemap.v
  {
    && inode.Ready()
    && OthersSame(data0, table0, inode.sb.Data(), inode.sb.table, inode.nr)
    && Wrote(data0, table0[inode.nr], inode.sb.Data(), inode.din, start, bytes, first, end, limit)
  }

  ghost predicate OnCourse(inode: Inode, data0: seq<Block>, d0: Dinode, free0: nat, dirty0: bool, first: nat, n: nat, last: nat)
    reads inode`din, inode`dirty, inode.sb
  {
    && Counters(inode.sb)
    && PaidFor(data0, d0, free0, dirty0, first, n, last, inode.sb.Data(), inode.din, inode.sb.FreeBlocks(), inode.dirty)
  }

  ghost predicate StoppedEarly(inode: Inode, data0: seq<Block>, d0: Dinode, free0: nat, dirty0: bool, first: nat, n: nat, last: nat)
    reads inode`din, inode`dirty, inode.sb
  {
    Counters(inode.sb) && StopsAt(data0, d0, free0, dirty0, first, n, last, inode.din, inode.dirty, inode.sb.FreeBlocks())
  }

  /** At the start of a write. */
  lemma AtStart(inode: Inode, first: nat, last: nat)
    requires inode.Ready() && first <= last
    ensures OnCourse(inode, inode.sb.Data(), inode.din, inode.sb.FreeBlocks(), inode.dirty, first, first, last)
  {
    hide Consistent, Counted, Linked;
    ReachedFirst(inode.sb.Data(), inode.din, first);
  }

  /** On its course, a write needs for block n what that block was going to cost. */
  lemma NeedOnCourse(inode: Inode, data0: seq<Block>, table0: map<nat, Dinode>, free0: nat, dirty0: bool,
                     start: nat, bytes: seq<byte>, first: nat, n: nat, last: nat)
    requires Written(inode, data0, table0, start, bytes, first, n, n) && n < MAX_BLOCK_NR
    requires OnCourse(inode, data0, table0[inode.nr], free0, dirty0, first, n, last)
    ensures Need(inode.sb.Data(), inode.din, n) == Extra(data0, table0[inode.nr], first, n)
  {
    assert HoleFilled(data0, table0[inode.nr], inode.sb.Data(), inode.din, first, n, n);
    NeedIsExtra(data0, table0[inode.nr], inode.sb.Data(), inode.din, first, n);
  }

  /** Asks for block n and writes the next chunk of the buffer into it. */
  method PlaceChunk(inode: Inode, n: nat, ix: nat, buf: seq<byte>, t: nat, len: nat,
                    ghost data0: seq<Block>, ghost table0: map<nat, Dinode>, ghost start: nat, ghost first: nat) returns (ret: int)
    requires t + len <= |buf| && first <= n && n * BLOCK_SIZE + ix == start + t && ix + len <= BLOCK_SIZE
    requires Written(inode, data0, table0, start, buf[..t], first, n, n)
    modifies inode, inode.sb`dev, inode.sb`usedBlockCount, inode.sb`owner, inode.sb`table, inode.sb.blockFreemap.v
    ensures Counters(inode.sb) && LooseBlocks(inode.sb.owner) == LooseBlocks(old(inode.sb.owner))
    ensures inode.sb.InodeBlocks() == old(inode.sb.InodeBlocks()) && inode.count == old(inode.count)
    ensures inode.din.size == old(inode.din.size) && (inode.dirty || (inode.din == old(inode.din) && !old(inode.dirty)))
    ensures ret >= 0 ==> Written(inode, data0, table0, start, buf[..t + len], first, n + 1, n + 1)
    ensures ret < 0 ==> Written(inode, data0, table0, start, buf[..t], first, n, n + 1)
    ensures n >= MAX_BLOCK_NR <==> ret == -EFBIG
    ensures n >= MAX_BLOCK_NR ==> inode.din == old(inode.din) && inode.dirty == old(inode.dirty)
    ensures n >= MAX_BLOCK_NR ==> inode.sb.FreeBlocks() == old(inode.sb.FreeBlocks())
    ensures n < MAX_BLOCK_NR ==>
              var free, need := old(inode.sb.FreeBlocks()), Need(old(inode.sb.Data()), old(inode.din), n);
              && (ret < 0 <==> free < need) && (inode.dirty <==> old(inode.dirty) || (free > 0 && need > 0))
              && (ret >= 0 ==> free == inode.sb.FreeBlocks() + need && IndexGrown(old(inode.sb.Data()), old(inode.din), inode.sb.Data(),
                                                                                  inode.din, n))
              && (ret < 0 ==> ret == -ENOSPC && TooFew(inode, n)
                              && if LeavesDouble(old(inode.din), free, n) then inode.din.dindirect != 0 && inode.sb.FreeBlocks() == 0
                                 else inode.din.dindirect == old(inode.din).dindirect && inode.sb.FreeBlocks() == free)
  {
    hide Consistent, Counted, LooseBlocks, Linked, Wrote, Need, OthersSame, OnlyMoved, Grown, IndexGrown;
    ghost var data1, table1 := inode.sb.Data(), inode.sb.table;
    WroteMore(data0, table0, data1, table1, inode.nr, start, buf[..t], first, n);
    var block: Block;
    ret, block := inode.AllocateBlock(n);
    ghost var data2, table2 := inode.sb.Data(), inode.sb.table;
    if n >= MAX_BLOCK_NR {
      return;
    }
    GrownSize(data1, table1, data2, table2, inode.nr, n, ret);
    if ret < 0 {
      WroteThenFailed(data0, table0, data1, table1, data2, table2, inode.nr, start, buf[..t], first, n, ret);
    } else {
      GrownMaps(data1, table1, data2, table2, inode.nr, n, ret);
      WroteChunk(data0, table0, data1, table1, data2, table2, inode.sb.owner, inode.nr, start, buf, t, first, n, ix, len);
      inode.sb.WriteDataBlock(ret, block[..ix] + buf[t..t + len] + block[ix + len..]);
      GrownIndex(data1, table1, data2, table2, inode.sb.Data(), inode.nr, n, ret);
    }
  }

  ghost predicate Counters(sb: Volume)
    reads sb
  {
    |sb.dev| == NR_DEVICE_BLOCKS && sb.usedBlockCount <= sb.maxFsBlocks && sb.usedBlockCount <= NR_DATA_BLOCKS
  }

  /** The same, within the course of a write. */
  method WriteChunk(inode: Inode, n: nat, ix: nat, buf: seq<byte>, t: nat, len: nat, ghost data0: seq<Block>, ghost table0: map<nat,
                    Dinode>,
                    ghost free0: nat, ghost dirty0: bool, ghost start: nat, ghost first: nat, ghost last: nat) returns (ret: int)
    requires t + len <= |buf| && first <= n && n * BLOCK_SIZE + ix == start + t && ix + len <= BLOCK_SIZE
    requires Written(inode, data0, table0, start, buf[..t], first, n, n)
    requires OnCourse(inode, data0, table0[inode.nr], free0, dirty0, first, n, last) && n <= last
    modifies inode, inode.sb`dev, inode.sb`usedBlockCount, inode.sb`owner, inode.sb`table, inode.sb.blockFreemap.v
    ensures |inode.sb.dev| == NR_DEVICE_BLOCKS && LooseBlocks(inode.sb.owner) == LooseBlocks(old(inode.sb.owner))
    ensures inode.sb.InodeBlocks() == old(inode.sb.InodeBlocks()) && inode.count == old(inode.count)
    ensures inode.din.size == old(inode.din.size) && (inode.dirty || (inode.din == old(inode.din) && !old(inode.dirty)))
    ensures n >= MAX_BLOCK_NR ==> inode.dirty == old(inode.dirty)
    ensures ret >= 0 ==> Written(inode, data0, table0, start, buf[..t + len], first, n + 1, n + 1)
    ensures ret >= 0 ==> OnCourse(inode, data0, table0[inode.nr], free0, dirty0, first, n + 1, last)
    ensures ret < 0 ==> Written(inode, data0, table0, start, buf[..t], first, n, n + 1)
    ensures ret < 0 ==> StoppedEarly(inode, data0, table0[inode.nr], free0, dirty0, first, n, last)
    ensures n >= MAX_BLOCK_NR <==> ret == -EFBIG
    ensures n < MAX_BLOCK_NR && ret < 0 ==> ret == -ENOSPC && TooFew(inode, n)
  {
    ghost var d0 := table0[inode.nr];
    hide Consistent, Counted, LooseBlocks, Linked, Wrote, Need, OthersSame, PaidFor, StopsAt, IndexGrown, Extra, Written;
    ghost var data1, d1, free1, dirty1 := inode.sb.Data(), inode.din, inode.sb.FreeBlocks(), inode.dirty;
    if n < MAX_BLOCK_NR {
      NeedOnCourse(inode, data0, table0, free0, dirty0, start, buf[..t], first, n, last);
    }
    ret := PlaceChunk(inode, n, ix, buf, t, len, data0, table0, start, first);
    if ret < 0 {
      StopsHere(data0, d0, free0, dirty0, first, n, last, data1, d1, free1, dirty1, inode.din, inode.dirty, inode.sb.FreeBlocks());
    } else {
      GoesOn(data0, d0, free0, dirty0, first, n, last, data1, d1, free1, dirty1, inode.sb.Data(), inode.din, inode.sb.FreeBlocks(),
             inode.dirty);
    }
  }

  lemma NothingWritten(inode: Inode, start: nat, first: nat)
    requires inode.Ready()
    ensures Written(inode, inode.sb.Data(), inode.sb.table, start, [], first, first, first)
  {
    hide Consistent, Counted, Linked;
    WroteNothing(inode.sb.Data(), inode.sb.table, inode.nr, start, first);
  }

  /** Raises the size of the file to `upTo`, which changes no block. */
  method Extend(inode: Inode, upTo: nat, ghost data0: seq<Block>, ghost table0: map<nat, Dinode>,
                ghost start: nat, ghost bytes: seq<byte>, ghost first: nat, ghost end: nat, ghost limit: nat)
    requires Written(inode, data0, table0, start, bytes, first, end, limit)
    modifies inode`din, inode.sb`table
    ensures Written(inode, data0, table0, start, bytes, first, end, limit)
    ensures inode.din == old(inode.din).(size := Max(old(inode.din).size, upTo))
    ensures old(TooFew(inode, end)) ==> TooFew(inode, end)
  {
    hide Consistent, Counted, Linked, Wrote, Need, OthersSame;
    var size := Max(inode.din.size, upTo);
    WroteSize(data0, table0, inode.sb.Data(), inode.sb.table, inode.nr, start, bytes, first, end, limit, size);
    NeedSize(inode.sb.Data(), inode.din, size, end);
    inode.SetSize(size);
  }

  /** How a write of n bytes at `start` changes the size of the file, if it returns ret having written `written` bytes. */
  function SizeAfterWrite(size: nat, start: nat, n: nat, ret: int, written: nat): nat
    requires written <= n
  {
    if ret >= 0 then (if n > 0 then Max(size, start + n) else size)
    else if ret == -EFBIG || (start + written) % BLOCK_SIZE + (n - written) <= BLOCK_SIZE then Max(size, start + written)
    else size
  }

  /** One past the last block that a write of n bytes maps, if it returns ret having written `written` bytes. */
  function EndOfWrite(start: nat, n: nat, ret: int, written: nat): nat {
    if ret >= 0 then LastBlock(start, n) + 1 else (start + written) / BLOCK_SIZE
  }

  /** The two ways to tell where a write ended. */
  lemma SameEnd(data: seq<Block>, d: Dinode, start: nat, n: nat, free: nat)
    ensures EndOfWrite(start, n, WriteReturns(data, d, start, n, free), WriteLength(data, d, start, n, free)) ==
            WriteEnd(data, d, start, n, free)
  {
    hide Stop;
  }

  /** The loop of WriteData: all chunks but the last. The last one starts in block n after `total` bytes. */
  method WriteFullBlocks(inode: Inode, buf: seq<byte>, start: nat) returns (ret: int, total: nat, n: nat)
    requires inode.Ready()
    modifies inode, inode.sb`dev, inode.sb`usedBlockCount, inode.sb`owner, inode.sb`table, inode.sb.blockFreemap.v
    ensures total <= |buf| && n == (start + total) / BLOCK_SIZE && start / BLOCK_SIZE <= n
    ensures total == 0 || (start + total) % BLOCK_SIZE == 0
    ensures total > 0 ==> n <= MAX_BLOCK_NR
    ensures Written(inode, old(inode.sb.Data()), old(inode.sb.table), start, buf[..total], start / BLOCK_SIZE, n,
                    if ret < 0 then n + 1 else n)
    ensures LooseBlocks(inode.sb.owner) == LooseBlocks(old(inode.sb.owner))
    ensures |inode.sb.dev| == NR_DEVICE_BLOCKS && inode.sb.InodeBlocks() == old(inode.sb.InodeBlocks()) && inode.count == old(inode.count)
    ensures inode.dirty || (inode.din == old(inode.din).(size := inode.din.size) && !old(inode.dirty))
    ensures start >= MAX_FILE_SIZE ==> inode.dirty == old(inode.dirty)
    ensures ret < 0 <==> (start + total) % BLOCK_SIZE + (|buf| - total) > BLOCK_SIZE
    ensures ret < 0 ==> if n >= MAX_BLOCK_NR then ret == -EFBIG else ret == -ENOSPC && TooFew(inode, n)
    ensures inode.din.size == if ret == -EFBIG then Max(old(inode.din).size, start + total) else old(inode.din).size
    ensures ret >= 0 ==> total < |buf| || |buf| == 0
    ensures var last := LastBlock(start, |buf|);
            if ret < 0 then n < last && StoppedEarly(inode, old(inode.sb.Data()), old(inode.din), old(inode.sb.FreeBlocks()),
                                                     old(inode.dirty), start / BLOCK_SIZE, n, last)
            else n == last && OnCourse(inode, old(inode.sb.Data()), old(inode.din), old(inode.sb.FreeBlocks()), old(inode.dirty),
                                       start / BLOCK_SIZE, n, last)
  {
    hide Consistent, Counted, LooseBlocks, Linked, Wrote, Need, OthersSame, Written, TooFew, OnCourse, StopsAt;
    ghost var d0, free0, dirty0, last := inode.din, inode.sb.FreeBlocks(), inode.dirty, LastBlock(start, |buf|);
    ghost var data0, table0 := inode.sb.Data(), inode.sb.table;
    ghost var first := start / BLOCK_SIZE;
    AtStart(inode, first, last);
    n := start / BLOCK_SIZE;
    var ix: nat := start % BLOCK_SIZE;
    ret, total := 0, 0;
    NothingWritten(inode, start, first);
    assert buf[..0] == [];
    while ix + (|buf| - total) > BLOCK_SIZE
      invariant total <= |buf| && ix < BLOCK_SIZE && n * BLOCK_SIZE + ix == start + total && ret >= 0
      invariant first <= n && (total == 0 || ix == 0) && (total < |buf| || |buf| == 0)
      invariant total > 0 ==> n <= MAX_BLOCK_NR
      invariant Written(inode, data0, table0, start, buf[..total], first, n, n)
      invariant |inode.sb.dev| == NR_DEVICE_BLOCKS && LooseBlocks(inode.sb.owner) == LooseBlocks(old(inode.sb.owner))
      invariant inode.sb.InodeBlocks() == old(inode.sb.InodeBlocks()) && inode.count == old(inode.count)
      invariant inode.din.size == old(inode.din).size && (inode.dirty || (inode.din == old(inode.din) && !old(inode.dirty)))
      invariant total == 0 ==> inode.dirty == old(inode.dirty)
      invariant n <= last && OnCourse(inode, data0, d0, free0, dirty0, first, n, last)
    {
      ret := WriteChunk(inode, n, ix, buf, total, BLOCK_SIZE - ix, data0, table0, free0, dirty0, start, first, last);
      if ret < 0 {
        if ret == -EFBIG {
          StopsAnySize(data0, d0, free0, dirty0, first, n, last, inode.din, inode.dirty, inode.sb.FreeBlocks(),
                       Max(inode.din.size, start + total));
          Extend(inode, start + total, data0, table0, start, buf[..total], first, n, n + 1);
        }
        return;
      }
      total := total + (BLOCK_SIZE - ix);
      ix := 0;
      n := n + 1;
    }
  }

  /** A write that stopped at block n ends as the state before it says. */
  lemma EarlyOutcome(inode: Inode, data0: seq<Block>, d0: Dinode, free0: nat, dirty0: bool, start: nat, len: nat, n: nat, total: nat)
    requires StoppedEarly(inode, data0, d0, free0, dirty0, start / BLOCK_SIZE, n, LastBlock(start, len))
    requires total <= len && n == (start + total) / BLOCK_SIZE && (total == 0 || (start + total) % BLOCK_SIZE == 0)
    ensures WriteReturns(data0, d0, start, len, free0) == if n >= MAX_BLOCK_NR then -EFBIG else -ENOSPC
    ensures WriteLength(data0, d0, start, len, free0) == total
    ensures NewSize(data0, d0, start, len, free0) == SizeAfterWrite(d0.size, start, len, if n >= MAX_BLOCK_NR then -EFBIG else -ENOSPC,
                                                                    total)
    ensures inode.dirty <==> DirtyAfter(data0, d0, dirty0, start, len, free0)
    ensures inode.din.dindirect != 0 <==> DoubleAfter(data0, d0, start, len, free0)
    ensures Counters(inode.sb) && inode.sb.FreeBlocks() == FreeAfter(data0, d0, start, len, free0)
  {
    hide Stop;
    assert WriteEnd(data0, d0, start, len, free0) == n;
    assert total > 0 ==> n * BLOCK_SIZE == start + total;
  }

  /** A write that mapped all its blocks succeeds, as the state before it says. */
  lemma FullOutcome(inode: Inode, data0: seq<Block>, d0: Dinode, free0: nat, dirty0: bool, start: nat, len: nat)
    requires OnCourse(inode, data0, d0, free0, dirty0, start / BLOCK_SIZE, LastBlock(start, len) + 1, LastBlock(start, len))
    ensures WriteReturns(data0, d0, start, len, free0) == WriteLength(data0, d0, start, len, free0) == len
    ensures NewSize(data0, d0, start, len, free0) == SizeAfterWrite(d0.size, start, len, len, len)
    ensures DirtyAfter(data0, d0, dirty0, start, len, free0)
    ensures inode.din.dindirect != 0 <==> DoubleAfter(data0, d0, start, len, free0)
    ensures Counters(inode.sb) && inode.sb.FreeBlocks() == FreeAfter(data0, d0, start, len, free0)
  {
    assert WriteEnd(data0, d0, start, len, free0) == LastBlock(start, len) + 1;
  }

  /** Why a write of n bytes stopped: it was complete, or at a block boundary it could not have the next block. */
  ghost predicate StoppedAt(inode: Inode, start: nat, n: nat, ret: int, written: nat)
    reads inode`din, inode.sb
  {
    if ret >= 0 then LastBlock(start, n) < MAX_BLOCK_NR
    else
      var next := (start + written) / BLOCK_SIZE;
      && next <= LastBlock(start, n) && (written == 0 || (start + written) % BLOCK_SIZE == 0)
      && if next >= MAX_BLOCK_NR then ret == -EFBIG else ret == -ENOSPC && TooFew(inode, next)
  }

  /**
   * Writes the whole buffer at `start`, or the part of it that ends where a block could not be had:
   * beyond the largest file (EFBIG) or with too few free blocks (ENOSPC). Where that is, and everything that follows
   * from it, is told by the state before, see WriteCosts.
   */
  method WriteData(inode: Inode, buf: seq<byte>, start: nat) returns (ret: int, ghost written: nat)
    requires inode.Ready()
    modifies inode, inode.sb`dev, inode.sb`usedBlockCount, inode.sb`owner, inode.sb`table, inode.sb.blockFreemap.v
    ensures written <= |buf| && (ret >= 0 ==> ret == written == |buf| && inode.dirty)
    ensures Written(inode, old(inode.sb.Data()), old(inode.sb.table), start, buf[..written],
                    start / BLOCK_SIZE, EndOfWrite(start, |buf|, ret, written),
                    EndOfWrite(start, |buf|, ret, written) + (if ret < 0 then 1 else 0))
    ensures LooseBlocks(inode.sb.owner) == LooseBlocks(old(inode.sb.owner))
    ensures |inode.sb.dev| == NR_DEVICE_BLOCKS && inode.sb.InodeBlocks() == old(inode.sb.InodeBlocks()) && inode.count == old(inode.count)
    ensures inode.dirty || (inode.din == old(inode.din).(size := inode.din.size) && !old(inode.dirty))
    ensures start >= MAX_FILE_SIZE ==> inode.dirty == old(inode.dirty)
    ensures inode.din.size == SizeAfterWrite(old(inode.din).size, start, |buf|, ret, written)
    ensures written > 0 ==> start + written <= MAX_FILE_SIZE
    ensures StoppedAt(inode, start, |buf|, ret, written)
    ensures Counters(inode.sb)
    ensures Outcome(old(inode.sb.Data()), old(inode.din), old(inode.dirty), old(inode.sb.FreeBlocks()), start, |buf|, ret, written,
                    inode.din, inode.dirty, inode.sb.FreeBlocks())
  {
    hide Consistent, Counted, LooseBlocks, Linked, Wrote, Need, OthersSame, Written, TooFew, OnCourse, StoppedEarly, WriteReturns,
         WriteLength, NewSize, DirtyAfter, DoubleAfter, FreeAfter;
    ghost var d0, free0, dirty0, last := inode.din, inode.sb.FreeBlocks(), inode.dirty, LastBlock(start, |buf|);
    ghost var data0, table0 := inode.sb.Data(), inode.sb.table;
    ghost var first := start / BLOCK_SIZE;
    var total: nat, n: nat;
    ret, total, n := WriteFullBlocks(inode, buf, start);
    written := total;
    if ret < 0 {
      EarlyOutcome(inode, data0, d0, free0, dirty0, start, |buf|, n, total);
      return;
    }
    ret := WriteChunk(inode, n, (start + total) % BLOCK_SIZE, buf, total, |buf| - total, data0, table0, free0, dirty0, start, first, last);
    if ret < 0 {
      EarlyOutcome(inode, data0, d0, free0, dirty0, start, |buf|, n, total);
      Extend(inode, start + total, data0, table0, start, buf[..total], first, n, n + 1);
      return;
    }
    FullOutcome(inode, data0, d0, free0, dirty0, start, |buf|);
    written := |buf|;
    if |buf| > 0 {
      Extend(inode, start + |buf|, data0, table0, start, buf[..written], first, n + 1, n + 1);
    }
    inode.dirty := true;
    ret := |buf|;
  }
}
