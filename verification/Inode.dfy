/** In-memory inodes, and how they take blocks from the volume and map logical blocks to them. */
module Inodes {
  import opened Blocks
  import opened BlockTree
  import opened Errors
  import opened Volumes

  ghost predicate CountIs(table: map<nat, Dinode>, owner: map<nat, Ref>, k: nat) {
    k in table ==> table[k].blockCount == |OwnedBy(owner, k)|
  }

  /** Every inode's block_count is the number of blocks in its tree. */
  ghost predicate Counted(table: map<nat, Dinode>, owner: map<nat, Ref>) {
    forall k: nat :: CountIs(table, owner, k)
  }

  lemma CountAdd(table: map<nat, Dinode>, owner: map<nat, Ref>, k: nat, b: nat, s: Slot)
    requires Counted(table, owner) && k in table && b !in owner
    ensures Counted(table[k := table[k].(blockCount := table[k].blockCount + 1)], owner[b := Ref(k, s)])
  {
    var table', owner' := table[k := table[k].(blockCount := table[k].blockCount + 1)], owner[b := Ref(k, s)];
    forall k': nat ensures CountIs(table', owner', k') {
      assert CountIs(table, owner, k');
      assert OwnedBy(owner', k') == if k' == k then OwnedBy(owner, k) + {b} else OwnedBy(owner, k');
    }
  }

  lemma CountRemove(table: map<nat, Dinode>, owner: map<nat, Ref>, k: nat, b: nat)
    requires Counted(table, owner) && k in table && b in owner && owner[b].ino == k
    ensures Counted(table[k := table[k].(blockCount := table[k].blockCount - 1)], owner - {b})
  {
    var table', owner' := table[k := table[k].(blockCount := table[k].blockCount - 1)], owner - {b};
    forall k': nat ensures CountIs(table', owner', k') {
      assert CountIs(table, owner, k');
      assert OwnedBy(owner', k') == if k' == k then OwnedBy(owner, k) - {b} else OwnedBy(owner, k');
    }
  }

  lemma CountRelabel(table: map<nat, Dinode>, owner: map<nat, Ref>, k: nat, d: Dinode, b: nat, s: Slot)
    requires Counted(table, owner) && k in table && b in owner && owner[b].ino == k && d.blockCount == table[k].blockCount
    ensures Counted(table[k := d], owner[b := Ref(k, s)])
  {
    var table', owner' := table[k := d], owner[b := Ref(k, s)];
    forall k': nat ensures CountIs(table', owner', k') {
      assert CountIs(table, owner, k');
      assert OwnedBy(owner', k') == OwnedBy(owner, k');
    }
  }

  lemma CountSame(table: map<nat, Dinode>, owner: map<nat, Ref>, k: nat, d: Dinode)
    requires Counted(table, owner) && k in table && d.blockCount == table[k].blockCount
    ensures Counted(table[k := d], owner)
  {
    var table' := table[k := d];
    forall k': nat ensures CountIs(table', owner, k') {
      assert CountIs(table, owner, k');
    }
  }

  /** Size, type and block count play no part in the block tree. */
  lemma SamePointersLinked(data: seq<Block>, table: map<nat, Dinode>, owner: map<nat, Ref>, k: nat, d: Dinode)
    requires Linked(data, table, owner) && k in table
    requires d.direct == table[k].direct && d.indirect == table[k].indirect && d.dindirect == table[k].dindirect
    ensures Linked(data, table[k := d], owner)
    ensures forall s | InTree(s) :: Ptr(data, d, s) == Ptr(data, table[k], s)
    ensures SameContent(data, table[k], data, d)
  {
    var table' := table[k := d];
    forall s | InTree(s) ensures Ptr(data, d, s) == Ptr(data, table[k], s) {}
    forall c: nat ensures OwnedBySlot(data, table', owner, c) {
      assert OwnedBySlot(data, table, owner, c);
    }
    forall k': nat, s: Slot ensures SlotOwns(data, table', owner, k', s) {
      assert SlotOwns(data, table, owner, k', s);
    }
  }

  /** How many blocks must be allocated before logical block n exists. */
  function Need(data: seq<Block>, d: Dinode, n: nat): nat
    requires n < MAX_BLOCK_NR
  {
    if Phys(data, d, n) != 0 then 0
    else match DataSlot(n)
      case Direct(_) => 1
      case Single(_) => if d.indirect == 0 then 2 else 1
      case Leaf(i, _) => if d.dindirect == 0 then 3 else if Ptr(data, d, Middle(i)) == 0 then 2 else 1
  }

  lemma NeedSingle(data: seq<Block>, d: Dinode, n: nat)
    requires NR_DIRECT_BLOCKS <= n < FIRST_DOUBLE && Phys(data, d, n) == 0
    ensures Need(data, d, n) == if d.indirect == 0 then 2 else 1
  {}

  lemma NeedDouble(data: seq<Block>, d: Dinode, n: nat)
    requires FIRST_DOUBLE <= n < MAX_BLOCK_NR && Phys(data, d, n) == 0
    ensures Need(data, d, n) == if d.dindirect == 0 then 3 else if Entry(data, d.dindirect, RowOf(n)) == 0 then 2 else 1
  {}

  /** Logical block m of inode k' stays where it was, except that n of k is now at `ret` if ret > 0. */
  ghost predicate PhysKept(data: seq<Block>, table: map<nat, Dinode>, data': seq<Block>, table': map<nat, Dinode>,
                           k: nat, n: nat, ret: int, k': nat, m: nat)
  {
    k' in table && k' in table' && m < MAX_BLOCK_NR ==>
      Phys(data', table'[k'], m) == if k' == k && m == n && ret > 0 then ret else Phys(data, table[k'], m)
  }

  /** Entry i of the double indirect block of another inode k' is as it was. */
  ghost predicate OtherRowKept(data: seq<Block>, table: map<nat, Dinode>, data': seq<Block>, table': map<nat, Dinode>, k: nat, k': nat,
                               i: nat) {
    k' in table && k' in table' && k' != k && i < NR_INDIRECT_BLOCKS ==>
      Ptr(data', table'[k'], Middle(i)) == Ptr(data, table[k'], Middle(i))
  }

  /** A change to inode k's tree that maps logical block n to `ret` if ret > 0 and alters no file's contents. */
  ghost predicate Kept(data: seq<Block>, table: map<nat, Dinode>, data': seq<Block>, table': map<nat, Dinode>, k: nat, n: nat, ret: int) {
    && table'.Keys == table.Keys && k in table
    && (forall k' | k' in table && k' != k :: table'[k'] == table[k'])
    && table'[k].size == table[k].size && table'[k].itype == table[k].itype
    && (forall k' | k' in table :: SameContent(data, table[k'], data', table'[k']))
    && (forall k': nat, m: nat :: PhysKept(data, table, data', table', k, n, ret, k', m))
    && (forall k': nat, i: nat :: OtherRowKept(data, table, data', table', k, k', i))
  }

  lemma KeptTrans(data: seq<Block>, table: map<nat, Dinode>, data': seq<Block>, table': map<nat, Dinode>,
                  data'': seq<Block>, table'': map<nat, Dinode>, k: nat, n: nat, ret: int)
    requires Kept(data, table, data', table', k, 0, 0) && Kept(data', table', data'', table'', k, n, ret)
    ensures Kept(data, table, data'', table'', k, n, ret)
  {
    forall k': nat, m: nat ensures PhysKept(data, table, data'', table'', k, n, ret, k', m) {
      assert PhysKept(data, table, data', table', k, 0, 0, k', m) && PhysKept(data', table', data'', table'', k, n, ret, k', m);
    }
    forall k': nat, i: nat ensures OtherRowKept(data, table, data'', table'', k, k', i) {
      assert OtherRowKept(data, table, data', table', k, k', i) && OtherRowKept(data', table', data'', table'', k, k', i);
    }
  }

  /** Moving one slot between zero blocks keeps every other block in place. */
  lemma KeptByMove(data: seq<Block>, table: map<nat, Dinode>, data': seq<Block>, table': map<nat, Dinode>, k: nat, s: Slot, b: nat)
    requires OnlyMoved(data, table, data', table', k, s, b) && k in table && InTree(s)
    requires forall k' | k' in table && k' != k :: table'[k'] == table[k']
    requires table'[k].size == table[k].size && table'[k].itype == table[k].itype
    requires forall k' | k' in table :: SameContent(data, table[k'], data', table'[k'])
    ensures if HoldsData(s) && b > 0 then Kept(data, table, data', table', k, LogicalNr(s), b)
            else !HoldsData(s) ==> Kept(data, table, data', table', k, 0, 0)
  {
    var n, ret := if HoldsData(s) then LogicalNr(s) else 0, if HoldsData(s) then b else 0;
    if !HoldsData(s) || b > 0 {
      forall k': nat, i: nat ensures OtherRowKept(data, table, data', table', k, k', i) {
        assert PtrMoved(data, table, data', table', k, s, b, k', Middle(i));
      }
      forall k': nat, m: nat ensures PhysKept(data, table, data', table', k, n, ret, k', m) {
        if k' in table && m < MAX_BLOCK_NR {
          assert PtrMoved(data, table, data', table', k, s, b, k', DataSlot(m));
          if HoldsData(s) {
            DataSlotBijection(s, m);
          }
        }
      }
    }
  }

  lemma KeptRefl(data: seq<Block>, table: map<nat, Dinode>, k: nat)
    requires k in table
    ensures Kept(data, table, data, table, k, 0, 0)
  {
    forall k': nat, m: nat ensures PhysKept(data, table, data, table, k, 0, 0, k', m) {}
    forall k': nat, i: nat ensures OtherRowKept(data, table, data, table, k, k', i) {}
  }

  /** The entry of the double indirect block that leads to logical block n, if n is mapped through it. */
  function RowOf(n: nat): int {
    if n < FIRST_DOUBLE then -1 else (n - FIRST_DOUBLE) / NR_INDIRECT_BLOCKS
  }

  ghost predicate RowKept(data: seq<Block>, d: Dinode, data': seq<Block>, d': Dinode, i: nat) {
    i < NR_INDIRECT_BLOCKS ==> Ptr(data', d', Middle(i)) == Ptr(data, d, Middle(i))
  }

  /** Of the entries of the double indirect block, only the one that leads to logical block n may have changed. */
  ghost predicate RowsKept(data: seq<Block>, d: Dinode, data': seq<Block>, d': Dinode, n: nat) {
    forall i: nat | i != RowOf(n) :: RowKept(data, d, data', d', i)
  }

  /** Writing an entry of the indirect block changes no entry of the double indirect block. */
  lemma RowsByMove(data: seq<Block>, table: map<nat, Dinode>, data': seq<Block>, k: nat, i: nat, b: nat, d: Dinode, n: nat)
    requires k in table && OnlyMoved(data, table, data', table, k, Single(i), b) && d.dindirect == table[k].dindirect
    ensures RowsKept(data, d, data', table[k], n)
  {
    forall i': nat | i' != RowOf(n) ensures RowKept(data, d, data', table[k], i') {
      assert PtrMoved(data, table, data', table, k, Single(i), b, k, Middle(i'));
    }
  }

  /** Writing at most the entry for n, in a double indirect block that was there or is new and empty, changes no other entry. */
  lemma RowsByEntry(data: seq<Block>, d: Dinode, data': seq<Block>, d': Dinode, block: Block, n: nat, b: nat)
    requires FIRST_DOUBLE <= n < MAX_BLOCK_NR && b < WORD_LIMIT && d'.dindirect != 0
    requires if d.dindirect == 0 then block == ZERO else block == Blk(data, d.dindirect)
    requires Blk(data', d'.dindirect) == block || Blk(data', d'.dindirect) == SetWord(block, RowOf(n), b)
    ensures RowsKept(data, d, data', d', n)
  {
    forall i: nat | i != RowOf(n) ensures RowKept(data, d, data', d', i) {
      if i < NR_INDIRECT_BLOCKS {
        WordOfSetWord(block, RowOf(n), b, i);
        ZeroWord(i);
      }
    }
  }

  /** A new double indirect block is empty, as a missing one is. */
  lemma RowsTrans(data: seq<Block>, d: Dinode, d1: Dinode, data': seq<Block>, d': Dinode, n: nat)
    requires RowsKept(data, d1, data', d', n)
    requires d1.dindirect == d.dindirect || (d.dindirect == 0 && Blk(data, d1.dindirect) == ZERO)
    ensures RowsKept(data, d, data', d', n)
  {
    forall i: nat | i != RowOf(n) ensures RowKept(data, d, data', d', i) {
      assert RowKept(data, d1, data', d', i);
      if i < NR_INDIRECT_BLOCKS {
        ZeroWord(i);
      }
    }
  }

  /** The double indirect block is taken, and then the block for the entry cannot be had: the code returns without giving it back. */
  predicate LeavesDouble(d: Dinode, free: nat, n: nat) {
    n >= FIRST_DOUBLE && d.dindirect == 0 && free == 1
  }

  /** What asking for logical block n of inode k does: besides mapping n, index blocks appear only where n needs them. */
  ghost predicate Grown(data: seq<Block>, table: map<nat, Dinode>, data': seq<Block>, table': map<nat, Dinode>, k: nat, n: nat, ret: int) {
    && n < MAX_BLOCK_NR
    && (if ret > 0 then Kept(data, table, data', table', k, n, ret) else Kept(data, table, data', table', k, 0, 0))
    && k in table && k in table'
    && (table'[k].indirect == table[k].indirect || (DataSlot(n).Single? && ret > 0))
    && (table'[k].dindirect == table[k].dindirect || (DataSlot(n).Leaf? && table[k].dindirect == 0))
    && (ret > 0 ==> RowsKept(data, table[k], data', table'[k], n))
  }

  lemma AlreadyThere(data: seq<Block>, table: map<nat, Dinode>, k: nat, n: nat)
    requires k in table && n < MAX_BLOCK_NR && Phys(data, table[k], n) != 0
    ensures Grown(data, table, data, table, k, n, Phys(data, table[k], n))
  {
    var ret := Phys(data, table[k], n);
    forall k': nat, m: nat ensures PhysKept(data, table, data, table, k, n, ret, k', m) {}
    forall k': nat, i: nat ensures OtherRowKept(data, table, data, table, k, k', i) {}
  }

  /** Changing only the block count moves nothing. */
  lemma KeptByCount(data: seq<Block>, table: map<nat, Dinode>, k: nat, c: int)
    requires k in table
    ensures Kept(data, table, data, table[k := table[k].(blockCount := c)], k, 0, 0)
  {
    var table' := table[k := table[k].(blockCount := c)];
    forall k': nat, m: nat ensures PhysKept(data, table, data, table', k, 0, 0, k', m) {
      assert k' in table && m < MAX_BLOCK_NR ==> Phys(data, table'[k'], m) == Phys(data, table[k'], m);
    }
    forall k': nat, i: nat ensures OtherRowKept(data, table, data, table', k, k', i) {}
  }

  /** Clearing the field that points to an empty index block, and giving the block back. */
  lemma TopCleared(data: seq<Block>, table: map<nat, Dinode>, owner: map<nat, Ref>, k: nat, s: Slot)
    requires Linked(data, table, owner) && k in table && InTree(s) && IsTop(s) && !HoldsData(s)
    requires Ptr(data, table[k], s) != 0 && Blk(data, Ptr(data, table[k], s)) == ZERO
    ensures var d' := SetTop(table[k], s, 0).(blockCount := table[k].blockCount - 1);
            && Linked(data, table[k := d'], owner - {Ptr(data, table[k], s)})
            && Kept(data, table, data, table[k := d'], k, 0, 0)
  {
    var table1, owner1 := table[k := SetTop(table[k], s, 0)], owner - {Ptr(data, table[k], s)};
    UnlinkTop(data, table, owner, k, s);
    KeptByMove(data, table, data, table1, k, s, 0);
    KeptByCount(data, table1, k, table[k].blockCount - 1);
    var d' := table1[k].(blockCount := table[k].blockCount - 1);
    SamePointersLinked(data, table1, owner1, k, d');
    KeptTrans(data, table, data, table1, data, table1[k := d'], k, 0, 0);
    assert table1[k := d'] == table[k := d'];
  }

  class Inode {
    const sb: Volume
    const nr: nat
    var din: Dinode
    var dirty: bool
    /** Outstanding references to this in-memory inode. */
    var count: nat

    /** The volume is consistent and knows the current value of this inode. */
    ghost predicate Synced()
      reads this`din, sb, sb.inodeFreemap.v, sb.blockFreemap.v
    {
      sb.Valid() && nr in sb.table && sb.table[nr] == din && Counted(sb.table, sb.owner)
    }

    /** Besides, the block trees of all inodes are exactly the allocated blocks. */
    ghost predicate Ready()
      reads this`din, sb, sb.inodeFreemap.v, sb.blockFreemap.v
    {
      Synced() && Linked(sb.Data(), sb.table, sb.owner)
    }

    constructor (sb: Volume, nr: nat, d: Dinode)
      ensures this.sb == sb && this.nr == nr && din == d && !dirty && count == 1
    {
      this.sb := sb;
      this.nr := nr;
      din := d;
      dirty := false;
      count := 1;
    }

    /** Takes a block for this inode. It is zero on disk and not yet part of the tree. */
    method AllocBlock() returns (ret: int)
      requires Ready()
      modifies this, sb`dev, sb`usedBlockCount, sb`owner, sb`table, sb.blockFreemap.v
      ensures Ready() && sb.Data() == old(sb.Data()) && sb.InodeBlocks() == old(sb.InodeBlocks()) && count == old(count)
      ensures ret < 0 <==> old(sb.FreeBlocks()) == 0
      ensures ret < 0 ==> ret == -ENOSPC && din == old(din) && sb.owner == old(sb.owner) && sb.table == old(sb.table)
                          && sb.FreeBlocks() == old(sb.FreeBlocks()) && dirty == old(dirty)
      ensures ret >= 0 ==>
                && InData(sb.Data(), ret) && ret !in old(sb.owner) && sb.owner == old(sb.owner)[ret := Ref(nr, Loose)]
                && din == old(din).(blockCount := old(din).blockCount + 1) && sb.table == old(sb.table)[nr := din] && dirty
                && sb.FreeBlocks() == old(sb.FreeBlocks()) - 1 && Blk(sb.Data(), ret) == ZERO
                && ret !in LooseBlocks(old(sb.owner)) && LooseBlocks(sb.owner) == LooseBlocks(old(sb.owner)) + {ret}
                && Kept(sb.Data(), old(sb.table), sb.Data(), sb.table, nr, 0, 0)
    {
      hide Consistent;
      ret := sb.AllocBlock(nr);
      if ret >= 0 {
        assert ZeroIfUnlinked(sb.Data(), old(sb.owner), ret);
        CountAdd(sb.table, old(sb.owner), nr, ret, Loose);
        AddLoose(sb.Data(), sb.table, old(sb.owner), nr, ret);
        din := din.(blockCount := din.blockCount + 1);
        dirty := true;
        SamePointersLinked(sb.Data(), sb.table, sb.owner, nr, din);
        sb.table := sb.table[nr := din];
      }
    }

    /** Gives a block of this inode back. The caller has to deal with the slot that still points to it. */
    method FreeBlock(b: nat)
      requires Synced() && (b != 0 ==> b in sb.owner && sb.owner[b].ino == nr)
      modifies this, sb`dev, sb`usedBlockCount, sb`owner, sb`table, sb.blockFreemap.v
      ensures Synced() && sb.InodeBlocks() == old(sb.InodeBlocks()) && count == old(count)
      ensures b == 0 ==> sb.dev == old(sb.dev) && sb.owner == old(sb.owner) && sb.table == old(sb.table)
      ensures b != 0 ==>
                && sb.owner == old(sb.owner) - {b} && InData(old(sb.Data()), b) && sb.Data() == Put(old(sb.Data()), b, ZERO)
                && din == old(din).(blockCount := old(din).blockCount - 1) && sb.table == old(sb.table)[nr := din] && dirty
                && sb.FreeBlocks() == old(sb.FreeBlocks()) + 1
    {
      hide Consistent;
      if b == 0 {
        return;
      }
      sb.FreeBlock(b);
      CountRemove(sb.table, old(sb.owner), nr, b);
      din := din.(blockCount := din.blockCount - 1);
      dirty := true;
      sb.table := sb.table[nr := din];
    }

    /**
     * Reads logical block n: returns its physical block, or 0 and a block of zeros for a hole.
     * Fails only beyond the largest file.
     */
    method ReadBlock(n: nat) returns (ret: int, block: Block)
      requires Ready()
      ensures n >= MAX_BLOCK_NR ==> ret == -EFBIG
      ensures n < MAX_BLOCK_NR ==> ret == Phys(sb.Data(), din, n) && block == BlockOf(sb.Data(), din, n)
    {
      hide Consistent;
      ret, block := 0, ZERO;
      if n >= MAX_BLOCK_NR {
        return -EFBIG, block;
      }
      if n < NR_DIRECT_BLOCKS {
        ret := din.direct[n];
      } else if n - NR_DIRECT_BLOCKS < NR_INDIRECT_BLOCKS {
        if din.indirect > 0 {
          block := ReadAt(din.indirect, Indirect);
          ret := Word(block, n - NR_DIRECT_BLOCKS);
        }
      } else {
        var m := n - NR_DIRECT_BLOCKS - NR_INDIRECT_BLOCKS;
        if din.dindirect > 0 {
          block := ReadAt(din.dindirect, DoubleIndirect);
          var indirNr := Word(block, m / NR_INDIRECT_BLOCKS);
          if indirNr > 0 {
            block := ReadAt(indirNr, Middle(m / NR_INDIRECT_BLOCKS));
            ret := Word(block, m % NR_INDIRECT_BLOCKS);
          }
        }
      }
      if ret > 0 {
        block := ReadAt(ret, DataSlot(n));
      } else {
        block := ZERO;
      }
    }

    /** Reads block b, which slot s of this inode points to. */
    method ReadAt(b: nat, ghost s: Slot) returns (block: Block)
      requires Ready() && InTree(s) && Ptr(sb.Data(), din, s) == b != 0
      ensures InData(sb.Data(), b) && b in sb.owner && sb.owner[b] == Ref(nr, s) && block == Blk(sb.Data(), b)
    {
      hide Consistent;
      assert SlotOwns(sb.Data(), sb.table, sb.owner, nr, s);
      assert OwnedBySlot(sb.Data(), sb.table, sb.owner, b);
      block := sb.ReadBlock(b);
    }

    /** Makes a field of the inode point to this inode's loose block b. */
    method SetTopBlock(s: Slot, b: nat)
      requires Ready() && InTree(s) && IsTop(s) && Ptr(sb.Data(), din, s) == 0
      requires b in sb.owner && sb.owner[b] == Ref(nr, Loose)
      modifies this, sb`owner, sb`table
      ensures LooseBlocks(sb.owner) == LooseBlocks(old(sb.owner)) - {b}
      ensures Ready() && din == SetTop(old(din), s, b) && sb.table == old(sb.table)[nr := din] && sb.owner == old(sb.owner)[b := Ref(nr, s)]
      ensures count == old(count) && dirty == old(dirty)
      ensures if HoldsData(s) then Kept(sb.Data(), old(sb.table), sb.Data(), sb.table, nr, LogicalNr(s), b)
              else Kept(sb.Data(), old(sb.table), sb.Data(), sb.table, nr, 0, 0)
    {
      hide Consistent;
      assert OwnedBySlot(sb.Data(), sb.table, sb.owner, b);
      LinkTop(sb.Data(), sb.table, sb.owner, nr, s, b);
      din := SetTop(din, s, b);
      CountRelabel(sb.table, sb.owner, nr, din, b, s);
      sb.Relabel(b, Ref(nr, s));
      sb.table := sb.table[nr := din];
      KeptByMove(sb.Data(), old(sb.table), sb.Data(), sb.table, nr, s, b);
    }

    /** Frees an index block that has no entries yet and clears the field that points to it. */
    method ClearTopBlock(s: Slot)
      requires Ready() && (s.Indirect? || s.DoubleIndirect?)
      requires Ptr(sb.Data(), din, s) != 0 && Blk(sb.Data(), Ptr(sb.Data(), din, s)) == ZERO
      modifies this, sb`dev, sb`usedBlockCount, sb`owner, sb`table, sb.blockFreemap.v
      ensures Ready() && sb.Data() == old(sb.Data()) && sb.InodeBlocks() == old(sb.InodeBlocks())
      ensures din == SetTop(old(din), s, 0).(blockCount := old(din).blockCount - 1) && sb.table == old(sb.table)[nr := din]
      ensures sb.owner == old(sb.owner) - {Ptr(old(sb.Data()), old(din), s)} && LooseBlocks(sb.owner) == LooseBlocks(old(sb.owner))
      ensures count == old(count) && dirty && sb.FreeBlocks() == old(sb.FreeBlocks()) + 1
      ensures Kept(sb.Data(), old(sb.table), sb.Data(), sb.table, nr, 0, 0)
    {
      hide Consistent, Kept, Counted;
      ghost var data, table, owner := sb.Data(), sb.table, sb.owner;
      var b := if s.Indirect? then din.indirect else din.dindirect;
      assert SlotOwns(data, table, owner, nr, s);
      TopCleared(data, table, owner, nr, s);
      FreeBlock(b);
      assert sb.Data() == data;
      CountSame(sb.table, sb.owner, nr, SetTop(din, s, 0));
      din := SetTop(din, s, 0);
      sb.table := sb.table[nr := din];
      assert sb.table == table[nr := din];
    }

    /** Frees a block that was taken but never linked. */
    method FreeLoose(b: nat)
      requires Ready() && b in sb.owner && sb.owner[b] == Ref(nr, Loose)
      modifies this, sb`dev, sb`usedBlockCount, sb`owner, sb`table, sb.blockFreemap.v
      ensures Ready() && sb.Data() == old(sb.Data()) && sb.InodeBlocks() == old(sb.InodeBlocks())
      ensures din == old(din).(blockCount := old(din).blockCount - 1) && sb.table == old(sb.table)[nr := din]
      ensures sb.owner == old(sb.owner) - {b} && LooseBlocks(sb.owner) == LooseBlocks(old(sb.owner)) - {b}
      ensures count == old(count) && dirty && sb.FreeBlocks() == old(sb.FreeBlocks()) + 1
      ensures Kept(sb.Data(), old(sb.table), sb.Data(), sb.table, nr, 0, 0)
    {
      hide Consistent;
      ghost var data, table := sb.Data(), sb.table;
      assert OwnedBySlot(data, table, sb.owner, b) && ZeroIfUnlinked(data, sb.owner, b);
      DropLoose(data, table, sb.owner, b);
      FreeBlock(b);
      assert sb.Data() == data;
      SamePointersLinked(data, table, sb.owner, nr, din);
    }

    /** Writes an index block back with one more entry, which links this inode's loose block b. */
    method WriteIndex(p: nat, block: Block, ghost parent: Slot, ghost i: nat, ghost b: nat)
      requires Ready() && IsIndex(parent) && InTree(parent) && i < NR_INDIRECT_BLOCKS
      requires Ptr(sb.Data(), din, parent) == p != 0 && Ptr(sb.Data(), din, Child(parent, i)) == 0
      requires b in sb.owner && sb.owner[b] == Ref(nr, Loose) && b < WORD_LIMIT && block == SetWord(Blk(sb.Data(), p), i, b)
      modifies sb`dev, sb`owner
      ensures Ready() && sb.InodeBlocks() == old(sb.InodeBlocks()) && sb.owner == old(sb.owner)[b := Ref(nr, Child(parent, i))]
      ensures LooseBlocks(sb.owner) == LooseBlocks(old(sb.owner)) - {b}
      ensures OnlyMoved(old(sb.Data()), sb.table, sb.Data(), sb.table, nr, Child(parent, i), b) && Blk(sb.Data(), p) == block
      ensures forall c: nat | c != p :: Blk(sb.Data(), c) == Blk(old(sb.Data()), c)
      ensures var s := Child(parent, i);
              if HoldsData(s) then Kept(old(sb.Data()), sb.table, sb.Data(), sb.table, nr, LogicalNr(s), b)
              else Kept(old(sb.Data()), sb.table, sb.Data(), sb.table, nr, 0, 0)
    {
      hide Consistent;
      ghost var data := sb.Data();
      assert OwnedBySlot(data, sb.table, sb.owner, b);
      LinkWord(data, sb.table, sb.owner, nr, parent, i, b);
      sb.WriteDataBlock(p, block);
      assert sb.table == sb.table[nr := din];
      CountRelabel(sb.table, sb.owner, nr, din, b, Child(parent, i));
      sb.Relabel(b, Ref(nr, Child(parent, i)));
      KeptByMove(data, sb.table, sb.Data(), sb.table, nr, Child(parent, i), b);
    }

    /** The direct branch of AllocateBlock. */
    method AllocateDirect(n: nat) returns (ret: int)
      requires Ready() && n < NR_DIRECT_BLOCKS && Phys(sb.Data(), din, n) == 0
      modifies this, sb`dev, sb`usedBlockCount, sb`owner, sb`table, sb.blockFreemap.v
      ensures Ready() && LooseBlocks(sb.owner) == LooseBlocks(old(sb.owner))
      ensures sb.InodeBlocks() == old(sb.InodeBlocks()) && count == old(count)
      ensures Grown(old(sb.Data()), old(sb.table), sb.Data(), sb.table, nr, n, ret) && ret != 0
      ensures dirty || (din == old(din) && !old(dirty))
      ensures dirty <==> old(dirty) || old(sb.FreeBlocks()) > 0
      ensures ret < 0 ==> ret == -ENOSPC && sb.FreeBlocks() < Need(sb.Data(), din, n)
      ensures ret < 0 <==> old(sb.FreeBlocks()) < Need(old(sb.Data()), old(din), n)
      ensures ret >= 0 ==> sb.FreeBlocks() == old(sb.FreeBlocks()) - Need(old(sb.Data()), old(din), n)
      ensures ret < 0 ==> sb.FreeBlocks() == old(sb.FreeBlocks()) && din.dindirect == old(din).dindirect
    {
      hide Consistent, Kept, Counted, Linked, LooseBlocks;
      ret := AllocBlock();
      if ret >= 0 {
        ghost var table1 := sb.table;
        SetTopBlock(Direct(n), ret);
        KeptTrans(sb.Data(), old(sb.table), sb.Data(), table1, sb.Data(), sb.table, nr, n, ret);
      } else {
        KeptRefl(sb.Data(), sb.table, nr);
      }
    }

    /** Makes sure that index block s of the inode exists, and reads it. */
    method GetTopIndex(s: Slot) returns (ret: int, block: Block, isNew: bool)
      requires Ready() && (s.Indirect? || s.DoubleIndirect?)
      modifies this, sb`dev, sb`usedBlockCount, sb`owner, sb`table, sb.blockFreemap.v
      ensures Ready() && LooseBlocks(sb.owner) == LooseBlocks(old(sb.owner))
      ensures sb.Data() == old(sb.Data()) && sb.InodeBlocks() == old(sb.InodeBlocks()) && count == old(count)
      ensures Kept(sb.Data(), old(sb.table), sb.Data(), sb.table, nr, 0, 0)
      ensures isNew ==> ret >= 0 && block == ZERO && dirty
      ensures !isNew ==> dirty == old(dirty)
      ensures isNew || ret < 0 ==> Ptr(old(sb.Data()), old(din), s) == 0
      ensures ret < 0 ==> ret == -ENOSPC && sb.FreeBlocks() == 0
      ensures ret >= 0 ==> Ptr(sb.Data(), din, s) != 0 && block == Blk(sb.Data(), Ptr(sb.Data(), din, s))
      ensures isNew ==> exists b, c :: din == SetTop(old(din), s, b).(blockCount := c)
      ensures !isNew ==> din == old(din)
      ensures sb.FreeBlocks() == old(sb.FreeBlocks()) - (if isNew then 1 else 0)
    {
      hide Consistent, Kept, Counted, Linked, LooseBlocks;
      ret, block, isNew := 0, ZERO, false;
      KeptRefl(sb.Data(), sb.table, nr);
      var b := if s.Indirect? then din.indirect else din.dindirect;
      if b == 0 {
        ret := AllocBlock();
        if ret < 0 {
          return;
        }
        ghost var table1 := sb.table;
        isNew := true;
        SetTopBlock(s, ret);
        assert din == SetTop(old(din), s, ret).(blockCount := din.blockCount);
        KeptTrans(sb.Data(), old(sb.table), sb.Data(), table1, sb.Data(), sb.table, nr, 0, 0);
      } else {
        block := ReadAt(b, s);
      }
    }

    /** The single indirect branch of AllocateBlock. */
    method AllocateSingle(n: nat) returns (ret: int)
      requires Ready() && NR_DIRECT_BLOCKS <= n && n - NR_DIRECT_BLOCKS < NR_INDIRECT_BLOCKS && Phys(sb.Data(), din, n) == 0
      modifies this, sb`dev, sb`usedBlockCount, sb`owner, sb`table, sb.blockFreemap.v
      ensures Ready() && LooseBlocks(sb.owner) == LooseBlocks(old(sb.owner))
      ensures sb.InodeBlocks() == old(sb.InodeBlocks()) && count == old(count)
      ensures Grown(old(sb.Data()), old(sb.table), sb.Data(), sb.table, nr, n, ret) && ret != 0
      ensures dirty || (din == old(din) && !old(dirty))
      ensures dirty <==> old(dirty) || old(sb.FreeBlocks()) > 0
      ensures ret < 0 ==> ret == -ENOSPC && sb.FreeBlocks() < Need(sb.Data(), din, n)
      ensures ret < 0 <==> old(sb.FreeBlocks()) < Need(old(sb.Data()), old(din), n)
      ensures ret >= 0 ==> sb.FreeBlocks() == old(sb.FreeBlocks()) - Need(old(sb.Data()), old(din), n)
      ensures ret < 0 ==> sb.FreeBlocks() == old(sb.FreeBlocks()) && din.dindirect == old(din).dindirect
    {
      hide Consistent, Kept, Counted, Linked, LooseBlocks, SetWord, Need, RowsKept;
      NeedSingle(sb.Data(), din, n);
      ghost var data, table := sb.Data(), sb.table;
      var indirect: Block, indirectAllocated: bool;
      ret, indirect, indirectAllocated := GetTopIndex(Indirect);
      if ret < 0 {
        NeedSingle(sb.Data(), din, n);
        return;
      }
      ghost var din1 := din;
      ZeroWord(n - NR_DIRECT_BLOCKS);
      ret := AddSingle(n, indirect, table, indirectAllocated);
      if ret < 0 {
        NeedSingle(sb.Data(), din, n);
      } else {
        RowsTrans(data, old(din), din1, sb.Data(), din, n);
      }
    }

    /** Takes the data block and writes the indirect block, or gives an indirect block just taken back. */
    method AddSingle(n: nat, indirect: Block, ghost table: map<nat, Dinode>, indirectAllocated: bool) returns (ret: int)
      requires Ready() && NR_DIRECT_BLOCKS <= n < FIRST_DOUBLE && Phys(sb.Data(), din, n) == 0
      requires din.indirect != 0 && indirect == Blk(sb.Data(), din.indirect) && (indirectAllocated ==> indirect == ZERO && dirty)
      requires Kept(sb.Data(), table, sb.Data(), sb.table, nr, 0, 0)
      modifies this, sb`dev, sb`usedBlockCount, sb`owner, sb`table, sb.blockFreemap.v
      ensures Ready() && LooseBlocks(sb.owner) == LooseBlocks(old(sb.owner))
      ensures sb.InodeBlocks() == old(sb.InodeBlocks()) && count == old(count) && din.dindirect == old(din).dindirect
      ensures dirty || (din == old(din) && !old(dirty))
      ensures dirty <==> old(dirty) || old(sb.FreeBlocks()) > 0
      ensures ret < 0 <==> old(sb.FreeBlocks()) == 0
      ensures ret >= 0 ==>
                && ret > 0 && Kept(old(sb.Data()), table, sb.Data(), sb.table, nr, n, ret) && din.indirect == old(din).indirect
                && sb.FreeBlocks() == old(sb.FreeBlocks()) - 1 && RowsKept(old(sb.Data()), old(din), sb.Data(), din, n)
      ensures ret < 0 ==>
                && ret == -ENOSPC && sb.Data() == old(sb.Data()) && Kept(old(sb.Data()), table, sb.Data(), sb.table, nr, 0, 0)
                && din.indirect == (if indirectAllocated then 0 else old(din).indirect)
                && sb.FreeBlocks() == if indirectAllocated then 1 else 0
    {
      hide Consistent, Kept, Counted, Linked, LooseBlocks, SetWord, RowsKept;
      ghost var data, table1 := sb.Data(), sb.table;
      var i := n - NR_DIRECT_BLOCKS;
      ret := AllocBlock();
      ghost var table2 := sb.table;
      if ret >= 0 {
        KeptTrans(data, table, data, table1, data, table2, nr, 0, 0);
        WriteIndex(din.indirect, SetWord(indirect, i, ret), Indirect, i, ret);
        RowsByMove(data, sb.table, sb.Data(), nr, i, ret, old(din), n);
        KeptTrans(data, table, data, table2, sb.Data(), sb.table, nr, n, ret);
      } else if indirectAllocated {
        ClearTopBlock(Indirect);
        KeptTrans(data, table, data, table1, data, sb.table, nr, 0, 0);
      }
    }

    /** Finds entry hi of the double indirect block, or takes a block for it that is not written back yet. */
    method GetMiddle(block: Block, hi: nat) returns (ret: int, dindirect: Block, indirect: Block, indirNr: nat, isNew: bool)
      requires Ready() && hi < NR_INDIRECT_BLOCKS && din.dindirect != 0 && block == Blk(sb.Data(), din.dindirect)
      modifies this, sb`dev, sb`usedBlockCount, sb`owner, sb`table, sb.blockFreemap.v
      ensures Ready() && sb.Data() == old(sb.Data()) && sb.InodeBlocks() == old(sb.InodeBlocks()) && count == old(count)
      ensures din == old(din).(blockCount := din.blockCount)
      ensures Kept(sb.Data(), old(sb.table), sb.Data(), sb.table, nr, 0, 0)
      ensures LooseBlocks(sb.owner) == LooseBlocks(old(sb.owner)) + (if isNew then {indirNr} else {})
      ensures sb.FreeBlocks() == old(sb.FreeBlocks()) - (if isNew then 1 else 0)
      ensures isNew ==> ret >= 0 && indirNr !in LooseBlocks(old(sb.owner)) && dirty
      ensures !isNew ==> dirty == old(dirty) && din == old(din)
      ensures ret < 0 ==> ret == -ENOSPC && sb.FreeBlocks() == 0
      ensures ret < 0 || isNew ==> Ptr(sb.Data(), din, Middle(hi)) == 0
      ensures isNew ==> indirNr in sb.owner && sb.owner[indirNr] == Ref(nr, Loose) && indirNr < WORD_LIMIT
      ensures isNew ==> dindirect == SetWord(block, hi, indirNr)
      ensures ret >= 0 && !isNew ==> Ptr(sb.Data(), din, Middle(hi)) == indirNr && dindirect == block
      ensures ret >= 0 ==> indirNr != 0 && indirNr != din.dindirect && indirect == Blk(sb.Data(), indirNr)
      ensures isNew ==> indirect == ZERO
    {
      hide Consistent, Kept, Counted, Linked, LooseBlocks;
      KeptRefl(sb.Data(), sb.table, nr);
      ret, dindirect, indirect, isNew := 0, block, ZERO, false;
      indirNr := Word(dindirect, hi);
      ghost var top := ReadAt(din.dindirect, DoubleIndirect);
      if indirNr == 0 {
        ret := AllocBlock();
        if ret < 0 {
          return;
        }
        isNew := true;
        indirNr := ret;
        dindirect := SetWord(dindirect, hi, indirNr);
      } else {
        indirect := ReadAt(indirNr, Middle(hi));
      }
    }

    /** The double indirect branch of AllocateBlock. */
    method AllocateDouble(n: nat) returns (ret: int)
      requires Ready() && FIRST_DOUBLE <= n < MAX_BLOCK_NR && Phys(sb.Data(), din, n) == 0
      modifies this, sb`dev, sb`usedBlockCount, sb`owner, sb`table, sb.blockFreemap.v
      ensures Ready() && LooseBlocks(sb.owner) == LooseBlocks(old(sb.owner))
      ensures sb.InodeBlocks() == old(sb.InodeBlocks()) && count == old(count)
      ensures Grown(old(sb.Data()), old(sb.table), sb.Data(), sb.table, nr, n, ret) && ret != 0
      ensures dirty || (din == old(din) && !old(dirty))
      ensures dirty <==> old(dirty) || old(sb.FreeBlocks()) > 0
      ensures ret < 0 ==> ret == -ENOSPC && sb.FreeBlocks() < Need(sb.Data(), din, n)
      ensures ret < 0 <==> old(sb.FreeBlocks()) < Need(old(sb.Data()), old(din), n)
      ensures ret >= 0 ==> sb.FreeBlocks() == old(sb.FreeBlocks()) - Need(old(sb.Data()), old(din), n)
      ensures ret < 0 && !LeavesDouble(old(din), old(sb.FreeBlocks()), n) ==>
                sb.FreeBlocks() == old(sb.FreeBlocks()) && din.dindirect == old(din).dindirect
      ensures LeavesDouble(old(din), old(sb.FreeBlocks()), n) ==> ret < 0 && sb.FreeBlocks() == 0 && din.dindirect != 0
    {
      hide Consistent, Kept, Counted, Linked, LooseBlocks, SetWord, Need, RowsKept;
      NeedDouble(sb.Data(), din, n);
      ghost var data, table := sb.Data(), sb.table;
      var dindirect: Block, dindirectAllocated: bool;
      ret, dindirect, dindirectAllocated := GetTopIndex(DoubleIndirect);
      if ret < 0 {
        NeedDouble(sb.Data(), din, n);
        return;
      }
      ghost var din1 := din;
      ZeroWord(RowOf(n));
      ret := AllocateRow(n, dindirect, table, dindirectAllocated);
      if ret < 0 {
        NeedDouble(sb.Data(), din, n);
      } else {
        RowsTrans(data, old(din), din1, sb.Data(), din, n);
      }
    }

    /** The double indirect branch from the point where the double indirect block is there. */
    method AllocateRow(n: nat, block: Block, ghost table: map<nat, Dinode>, dindirectAllocated: bool) returns (ret: int)
      requires Ready() && FIRST_DOUBLE <= n < MAX_BLOCK_NR && Phys(sb.Data(), din, n) == 0 && din.dindirect != 0
      requires block == Blk(sb.Data(), din.dindirect) && (dindirectAllocated ==> block == ZERO && dirty)
      requires Kept(sb.Data(), table, sb.Data(), sb.table, nr, 0, 0)
      modifies this, sb`dev, sb`usedBlockCount, sb`owner, sb`table, sb.blockFreemap.v
      ensures Ready() && LooseBlocks(sb.owner) == LooseBlocks(old(sb.owner))
      ensures sb.InodeBlocks() == old(sb.InodeBlocks()) && count == old(count)
      ensures dirty || (din == old(din) && !old(dirty))
      ensures dirty <==> old(dirty) || old(sb.FreeBlocks()) > 0
      ensures din.indirect == old(din).indirect
      ensures ret < 0 <==> old(sb.FreeBlocks()) < if Entry(old(sb.Data()), old(din).dindirect, RowOf(n)) == 0 then 2 else 1
      ensures ret >= 0 ==>
                && ret > 0 && Kept(old(sb.Data()), table, sb.Data(), sb.table, nr, n, ret) && din.dindirect == old(din).dindirect
                && sb.FreeBlocks() == old(sb.FreeBlocks()) - (if Entry(old(sb.Data()), old(din).dindirect, RowOf(n)) == 0 then 2 else 1)
                && RowsKept(old(sb.Data()), old(din), sb.Data(), din, n)
      ensures ret < 0 ==>
                && ret == -ENOSPC && sb.Data() == old(sb.Data()) && Kept(old(sb.Data()), table, sb.Data(), sb.table, nr, 0, 0)
                && if Entry(old(sb.Data()), old(din).dindirect, RowOf(n)) == 0 && old(sb.FreeBlocks()) == 0
                   then din == old(din) && sb.FreeBlocks() == 0
                   else din.dindirect == (if dindirectAllocated then 0 else old(din).dindirect)
                        && sb.FreeBlocks() == old(sb.FreeBlocks()) + (if dindirectAllocated then 1 else 0)
    {
      hide Consistent, Kept, Counted, Linked, LooseBlocks, SetWord, RowsKept;
      var hi := (n - NR_DIRECT_BLOCKS - NR_INDIRECT_BLOCKS) / NR_INDIRECT_BLOCKS;
      var lo := (n - NR_DIRECT_BLOCKS - NR_INDIRECT_BLOCKS) % NR_INDIRECT_BLOCKS;
      ghost var data, table1 := sb.Data(), sb.table;
      ZeroWord(lo);
      ZeroWord(hi);
      var dindirect: Block, indirect: Block, indirNr: nat, indirectAllocated: bool;
      ret, dindirect, indirect, indirNr, indirectAllocated := GetMiddle(block, hi);
      KeptTrans(data, table, data, table1, data, sb.table, nr, 0, 0);
      if ret < 0 {
        return;
      }
      ghost var din1 := din;
      ret := AddLeaf(n, dindirect, indirect, indirNr, hi, lo, indirectAllocated, table, dindirectAllocated);
      if ret >= 0 {
        RowsTrans(data, old(din), din1, sb.Data(), din, n);
      }
    }

    /** Writes the double indirect block back; if it has a new entry, that links the new indirect block. */
    method WriteDoubleIndirect(block: Block, indirNr: nat, hi: nat, isNew: bool)
      requires Ready() && hi < NR_INDIRECT_BLOCKS && din.dindirect != 0
      requires if isNew then Ptr(sb.Data(), din, Middle(hi)) == 0 && indirNr in sb.owner && sb.owner[indirNr] == Ref(nr, Loose)
                             && indirNr < WORD_LIMIT && block == SetWord(Blk(sb.Data(), din.dindirect), hi, indirNr)
               else Ptr(sb.Data(), din, Middle(hi)) == indirNr && block == Blk(sb.Data(), din.dindirect)
      modifies sb`dev, sb`owner
      ensures Ready() && sb.InodeBlocks() == old(sb.InodeBlocks())
      ensures LooseBlocks(sb.owner) == LooseBlocks(old(sb.owner)) - (if isNew then {indirNr} else {})
      ensures Ptr(sb.Data(), din, Middle(hi)) == indirNr && Blk(sb.Data(), din.dindirect) == block
      ensures forall c: nat | c != din.dindirect :: Blk(sb.Data(), c) == Blk(old(sb.Data()), c)
      ensures sb.owner == if isNew then old(sb.owner)[indirNr := Ref(nr, Middle(hi))] else old(sb.owner)
      ensures Kept(old(sb.Data()), sb.table, sb.Data(), sb.table, nr, 0, 0)
    {
      hide Consistent, Kept, Counted;
      if isNew {
        WriteIndex(din.dindirect, block, DoubleIndirect, hi, indirNr);
        assert PtrMoved(old(sb.Data()), sb.table, sb.Data(), sb.table, nr, Middle(hi), indirNr, nr, Middle(hi));
      } else {
        assert SlotOwns(sb.Data(), sb.table, sb.owner, nr, DoubleIndirect);
        assert OwnedBySlot(sb.Data(), sb.table, sb.owner, din.dindirect);
        KeptRefl(sb.Data(), sb.table, nr);
        sb.WriteDataBlock(din.dindirect, block);
        assert sb.Data() == old(sb.Data());
      }
    }

    /** Takes the data block and writes both index blocks, or gives the index blocks just taken back. */
    method AddLeaf(n: nat, dindirect: Block, indirect: Block, indirNr: nat, hi: nat, lo: nat, indirectAllocated: bool,
                   ghost table: map<nat, Dinode>, dindirectAllocated: bool) returns (ret: int)
      requires Ready() && n < MAX_BLOCK_NR && DataSlot(n) == Leaf(hi, lo) && Phys(sb.Data(), din, n) == 0
      requires din.dindirect != 0 && indirNr != 0 && indirNr != din.dindirect && indirect == Blk(sb.Data(), indirNr)
      requires if indirectAllocated
               then Ptr(sb.Data(), din, Middle(hi)) == 0 && indirNr < WORD_LIMIT
                    && indirNr in sb.owner && sb.owner[indirNr] == Ref(nr, Loose)
                    && dindirect == SetWord(Blk(sb.Data(), din.dindirect), hi, indirNr) && indirNr in LooseBlocks(sb.owner)
               else Ptr(sb.Data(), din, Middle(hi)) == indirNr && dindirect == Blk(sb.Data(), din.dindirect)
      requires dindirectAllocated ==> Blk(sb.Data(), din.dindirect) == ZERO
      requires Word(indirect, lo) == 0
      requires Kept(sb.Data(), table, sb.Data(), sb.table, nr, 0, 0)
      modifies this, sb`dev, sb`usedBlockCount, sb`owner, sb`table, sb.blockFreemap.v
      ensures Ready() && LooseBlocks(sb.owner) == LooseBlocks(old(sb.owner)) - (if indirectAllocated then {indirNr} else {})
      ensures sb.InodeBlocks() == old(sb.InodeBlocks()) && count == old(count)
      ensures din.indirect == old(din).indirect
      ensures dirty || (din == old(din) && !old(dirty))
      ensures ret < 0 <==> old(sb.FreeBlocks()) == 0
      ensures ret >= 0 ==> ret > 0 && Kept(old(sb.Data()), table, sb.Data(), sb.table, nr, n, ret) && din.dindirect == old(din).dindirect
      ensures ret >= 0 ==> sb.FreeBlocks() == old(sb.FreeBlocks()) - 1 && dirty && RowsKept(old(sb.Data()), old(din), sb.Data(), din, n)
      ensures ret < 0 ==> (old(dirty) ==> dirty) && (!indirectAllocated && !dindirectAllocated ==> dirty == old(dirty))
      ensures ret < 0 ==> ret == -ENOSPC && Kept(old(sb.Data()), table, sb.Data(), sb.table, nr, 0, 0)
                          && sb.Data() == old(sb.Data())
                          && din.dindirect == (if dindirectAllocated then 0 else old(din).dindirect)
                          && sb.FreeBlocks() == (if dindirectAllocated then 1 else 0) + (if indirectAllocated then 1 else 0)
    {
      hide Consistent, Kept, Counted, Linked, LooseBlocks, SetWord, RowsKept;
      ghost var data, table2 := sb.Data(), sb.table;
      ret := AllocBlock();
      ghost var table3 := sb.table;
      if ret >= 0 {
        KeptTrans(data, table, data, table2, data, table3, nr, 0, 0);
        LinkLeaf(n, dindirect, indirect, indirNr, hi, lo, indirectAllocated, ret, table);
        RowsByEntry(data, old(din), sb.Data(), din, Blk(data, din.dindirect), n, if indirectAllocated then indirNr else 0);
      } else {
        UndoDouble(indirNr, indirectAllocated, table, dindirectAllocated);
      }
    }

    /** Writes both index blocks, which links the data block `leaf`. */
    method LinkLeaf(n: nat, dindirect: Block, indirect: Block, indirNr: nat, hi: nat, lo: nat, indirectAllocated: bool,
                    leaf: nat, ghost table: map<nat, Dinode>)
      requires Ready() && n < MAX_BLOCK_NR && DataSlot(n) == Leaf(hi, lo) && leaf in sb.owner && sb.owner[leaf] == Ref(nr, Loose)
      requires leaf < WORD_LIMIT && leaf != 0
      requires din.dindirect != 0 && indirNr != 0 && indirNr != din.dindirect && indirect == Blk(sb.Data(), indirNr)
      requires if indirectAllocated
               then Ptr(sb.Data(), din, Middle(hi)) == 0 && indirNr < WORD_LIMIT
                    && indirNr in sb.owner && sb.owner[indirNr] == Ref(nr, Loose)
                    && dindirect == SetWord(Blk(sb.Data(), din.dindirect), hi, indirNr) && indirNr != leaf
               else Ptr(sb.Data(), din, Middle(hi)) == indirNr && dindirect == Blk(sb.Data(), din.dindirect)
      requires Word(indirect, lo) == 0
      requires Kept(sb.Data(), table, sb.Data(), sb.table, nr, 0, 0)
      modifies sb`dev, sb`owner
      ensures Ready() && LooseBlocks(sb.owner) == LooseBlocks(old(sb.owner)) - (if indirectAllocated then {indirNr} else {}) - {leaf}
      ensures sb.InodeBlocks() == old(sb.InodeBlocks()) && Blk(sb.Data(), din.dindirect) == dindirect
      ensures Kept(old(sb.Data()), table, sb.Data(), sb.table, nr, n, leaf)
    {
      hide Consistent, Kept, Counted, Linked, LooseBlocks, SetWord;
      ghost var data := sb.Data();
      WriteDoubleIndirect(dindirect, indirNr, hi, indirectAllocated);
      ghost var data4 := sb.Data();
      KeptTrans(data, table, data, sb.table, data4, sb.table, nr, 0, 0);
      assert Ptr(data4, din, Leaf(hi, lo)) == Word(Blk(data4, indirNr), lo);
      WriteIndex(indirNr, SetWord(indirect, lo, leaf), Middle(hi), lo, leaf);
      KeptTrans(data, table, data4, sb.table, sb.Data(), sb.table, nr, n, leaf);
    }

    /** Gives back the index blocks that were taken for a data block that could not be had. */
    method UndoDouble(indirNr: nat, indirectAllocated: bool, ghost table: map<nat, Dinode>, dindirectAllocated: bool)
      requires Ready() && din.dindirect != 0
      requires indirectAllocated ==> indirNr in sb.owner && sb.owner[indirNr] == Ref(nr, Loose) && indirNr != din.dindirect
      requires dindirectAllocated ==> Blk(sb.Data(), din.dindirect) == ZERO
      requires Kept(sb.Data(), table, sb.Data(), sb.table, nr, 0, 0)
      modifies this, sb`dev, sb`usedBlockCount, sb`owner, sb`table, sb.blockFreemap.v
      ensures Ready() && LooseBlocks(sb.owner) == LooseBlocks(old(sb.owner)) - (if indirectAllocated then {indirNr} else {})
      ensures sb.Data() == old(sb.Data()) && sb.InodeBlocks() == old(sb.InodeBlocks()) && count == old(count)
      ensures din.indirect == old(din).indirect && din.dindirect == (if dindirectAllocated then 0 else old(din).dindirect)
      ensures dirty || (din == old(din) && !old(dirty))
      ensures (old(dirty) ==> dirty) && (!indirectAllocated && !dindirectAllocated ==> dirty == old(dirty))
      ensures Kept(sb.Data(), table, sb.Data(), sb.table, nr, 0, 0)
      ensures sb.FreeBlocks() == old(sb.FreeBlocks()) + (if dindirectAllocated then 1 else 0) + (if indirectAllocated then 1 else 0)
    {
      hide Consistent, Kept, Counted, Linked, LooseBlocks;
      ghost var data, table2 := sb.Data(), sb.table;
      if dindirectAllocated {
        ClearTopBlock(DoubleIndirect);
        KeptTrans(data, table, data, table2, data, sb.table, nr, 0, 0);
      }
      ghost var table4 := sb.table;
      if indirectAllocated {
        FreeLoose(indirNr);
        KeptTrans(data, table, data, table4, data, sb.table, nr, 0, 0);
      }
    }

    /**
     * Returns the physical block of logical block n and its contents, taking a new block if n is a hole.
     * Fails with EFBIG beyond the largest file, and with ENOSPC exactly when too few blocks are free. A failure leaves
     * no block behind, except exactly if the only free block was taken for a missing double indirect block.
     */
    method AllocateBlock(n: nat) returns (ret: int, block: Block)
      requires Ready()
      modifies this, sb`dev, sb`usedBlockCount, sb`owner, sb`table, sb.blockFreemap.v
      ensures Ready() && LooseBlocks(sb.owner) == LooseBlocks(old(sb.owner))
      ensures sb.InodeBlocks() == old(sb.InodeBlocks()) && count == old(count)
      ensures dirty || (din == old(din) && !old(dirty))
      ensures n >= MAX_BLOCK_NR ==> ret == -EFBIG && din == old(din) && dirty == old(dirty) && sb.FreeBlocks() == old(sb.FreeBlocks())
                                    && sb.table == old(sb.table) && sb.Data() == old(sb.Data())
      ensures n < MAX_BLOCK_NR ==>
                && Grown(old(sb.Data()), old(sb.table), sb.Data(), sb.table, nr, n, ret)
                && (ret < 0 <==> old(sb.FreeBlocks()) < Need(old(sb.Data()), old(din), n))
                && (ret < 0 ==> ret == -ENOSPC && sb.FreeBlocks() < Need(sb.Data(), din, n))
                && (ret >= 0 ==> sb.FreeBlocks() == old(sb.FreeBlocks()) - Need(old(sb.Data()), old(din), n))
                && (dirty <==> old(dirty) || (old(sb.FreeBlocks()) > 0 && Need(old(sb.Data()), old(din), n) > 0))
                && (ret >= 0 ==> ret > 0 && block == BlockOf(sb.Data(), din, n))
      ensures n < MAX_BLOCK_NR && ret < 0 ==>
                if LeavesDouble(old(din), old(sb.FreeBlocks()), n) then sb.FreeBlocks() == 0 && din.dindirect != 0
                else sb.FreeBlocks() == old(sb.FreeBlocks()) && din.dindirect == old(din).dindirect
    {
      hide Consistent, Counted, Linked, LooseBlocks;
      ret, block := ReadBlock(n);
      if n >= MAX_BLOCK_NR {
        return;
      }
      if ret != 0 {
        AlreadyThere(sb.Data(), sb.table, nr, n);
        return;
      }
      if n < NR_DIRECT_BLOCKS {
        ret := AllocateDirect(n);
      } else if n - NR_DIRECT_BLOCKS < NR_INDIRECT_BLOCKS {
        ret := AllocateSingle(n);
      } else {
        ret := AllocateDouble(n);
      }
    }

    /** Replaces the inode's value, other than its block count, while its tree may be half taken apart. */
    method SetValue(d: Dinode)
      requires Synced() && d.blockCount == din.blockCount
      modifies this, sb`table
      ensures Synced() && din == d && sb.table == old(sb.table)[nr := d] && count == old(count) && dirty
    {
      hide Consistent;
      CountSame(sb.table, sb.owner, nr, d);
      din := d;
      dirty := true;
      sb.table := sb.table[nr := din];
    }

    method SetSize(size: nat)
      requires Ready()
      modifies this`din, sb`table
      ensures Ready() && din == old(din).(size := size) && sb.table == old(sb.table)[nr := din]
    {
      hide Consistent;
      SamePointersLinked(sb.Data(), sb.table, sb.owner, nr, din.(size := size));
      CountSame(sb.table, sb.owner, nr, din.(size := size));
      din := din.(size := size);
      sb.table := sb.table[nr := din];
    }
  }
}
