/** Freeing all blocks of a file: which blocks it gives back, and when that is the whole tree. */
module Reclaim {
  import opened Blocks
  import opened BlockTree
  import opened Volumes
  import opened Inodes
  import opened WriteCosts
  import opened ReadWrite

  /**
   * How far freeing has come: direct blocks, blocks of the indirect block, the indirect block, rows of the double
   * indirect block, and so on.
   */
  datatype Progress = Progress(direct: nat, single: nat, indirect: bool, middle: nat, leaf: nat, double: bool)

  /** Whether slot s has been visited, in a file of e blocks. */
  predicate Visited(s: Slot, p: Progress, e: nat) {
    match s
    case Direct(i) => i < p.direct
    case Single(i) => i < p.single
    case Indirect => p.indirect
    case Middle(i) => i < p.middle
    case Leaf(i, j) =>
      (i < p.middle || (i == p.middle && j < p.leaf)) && NR_DIRECT_BLOCKS + NR_INDIRECT_BLOCKS + i * NR_INDIRECT_BLOCKS + j < e
    case DoubleIndirect => p.double
    case Loose => false
  }

  /** The blocks of inode k's visited slots are free and zero, and everything else is as it was. */
  ghost predicate FreedSoFar(data0: seq<Block>, owner0: map<nat, Ref>, data: seq<Block>, owner: map<nat, Ref>, k: nat, p: Progress,
                             e: nat) {
    |data| == |data0| && forall b: nat :: FreedIfVisited(data0, owner0, data, owner, k, p, e, b)
  }

  ghost predicate FreedIfVisited(data0: seq<Block>, owner0: map<nat, Ref>, data: seq<Block>, owner: map<nat, Ref>, k: nat, p: Progress,
                                 e: nat, b: nat) {
    if b in owner0 && owner0[b].ino == k && Visited(owner0[b].slot, p, e) then b !in owner && Blk(data, b) == ZERO
    else Blk(data, b) == Blk(data0, b) && if b in owner0 then b in owner && owner[b] == owner0[b] else b !in owner
  }

  /** Going from p to p' newly visits slot s, and otherwise only slots without a block. */
  ghost predicate Visits(data0: seq<Block>, d: Dinode, p: Progress, p': Progress, e: nat, s: Slot) {
    forall s': Slot :: VisitsSlot(data0, d, p, p', e, s, s')
  }

  ghost predicate VisitsSlot(data0: seq<Block>, d: Dinode, p: Progress, p': Progress, e: nat, s: Slot, s': Slot) {
    && (Visited(s', p, e) ==> Visited(s', p', e))
    && (InTree(s') && Visited(s', p', e) && !Visited(s', p, e) ==> s' == s || Ptr(data0, d, s') == 0)
  }

  /** The block of a slot not visited yet is still there. */
  lemma StillOwned(data0: seq<Block>, table0: map<nat, Dinode>, owner0: map<nat, Ref>, data: seq<Block>, owner: map<nat, Ref>,
                   k: nat, p: Progress, e: nat, s: Slot)
    requires Linked(data0, table0, owner0) && k in table0 && FreedSoFar(data0, owner0, data, owner, k, p, e)
    requires InTree(s) && !Visited(s, p, e) && Ptr(data0, table0[k], s) != 0
    ensures var b := Ptr(data0, table0[k], s);
            b in owner && owner[b] == Ref(k, s) && InData(data, b) && Blk(data, b) == Blk(data0, b)
  {
    var b := Ptr(data0, table0[k], s);
    assert SlotOwns(data0, table0, owner0, k, s);
    assert OwnedBySlot(data0, table0, owner0, b);
    assert FreedIfVisited(data0, owner0, data, owner, k, p, e, b);
  }

  /** Visiting a slot frees its block, if it has one. */
  lemma VisitSlot(data0: seq<Block>, table0: map<nat, Dinode>, owner0: map<nat, Ref>, data: seq<Block>, owner: map<nat, Ref>,
                  k: nat, p: Progress, p': Progress, e: nat, s: Slot)
    requires Linked(data0, table0, owner0) && k in table0 && FreedSoFar(data0, owner0, data, owner, k, p, e)
    requires InTree(s) && !Visited(s, p, e) && Visited(s, p', e) && Visits(data0, table0[k], p, p', e, s)
    ensures var b := Ptr(data0, table0[k], s);
            if b == 0 then FreedSoFar(data0, owner0, data, owner, k, p', e)
            else InData(data, b) && FreedSoFar(data0, owner0, Put(data, b, ZERO), owner - {b}, k, p', e)
  {
    var b := Ptr(data0, table0[k], s);
    if b != 0 {
      StillOwned(data0, table0, owner0, data, owner, k, p, e, s);
    }
    var data', owner' := if b == 0 then data else Put(data, b, ZERO), if b == 0 then owner else owner - {b};
    assert SlotOwns(data0, table0, owner0, k, s);
    forall c: nat ensures FreedIfVisited(data0, owner0, data', owner', k, p', e, c) {
      assert FreedIfVisited(data0, owner0, data, owner, k, p, e, c);
      if c in owner0 && owner0[c].ino == k {
        assert OwnedBySlot(data0, table0, owner0, c);
        assert VisitsSlot(data0, table0[k], p, p', e, s, owner0[c].slot);
      }
    }
  }

  /** Passing over slots that have no block changes nothing. */
  lemma SkipSlots(data0: seq<Block>, table0: map<nat, Dinode>, owner0: map<nat, Ref>, data: seq<Block>, owner: map<nat, Ref>,
                  k: nat, p: Progress, p': Progress, e: nat)
    requires Linked(data0, table0, owner0) && k in table0 && FreedSoFar(data0, owner0, data, owner, k, p, e)
    requires Visits(data0, table0[k], p, p', e, Loose)
    ensures FreedSoFar(data0, owner0, data, owner, k, p', e)
  {
    forall c: nat ensures FreedIfVisited(data0, owner0, data, owner, k, p', e, c) {
      assert FreedIfVisited(data0, owner0, data, owner, k, p, e, c);
      if c in owner0 && owner0[c].ino == k {
        assert OwnedBySlot(data0, table0, owner0, c);
        assert VisitsSlot(data0, table0[k], p, p', e, Loose, owner0[c].slot);
      }
    }
  }

  /** Frees the block of one slot of the tree (line "if 0, continue; free it" of every loop). */
  method Visit(inode: Inode, b: nat, ghost data0: seq<Block>, ghost table0: map<nat, Dinode>, ghost owner0: map<nat, Ref>,
               ghost p: Progress, ghost p': Progress, ghost e: nat, ghost s: Slot)
    requires inode.Synced() && Linked(data0, table0, owner0) && inode.nr in table0
    requires FreedSoFar(data0, owner0, inode.sb.Data(), inode.sb.owner, inode.nr, p, e)
    requires InTree(s) && !Visited(s, p, e) && Visited(s, p', e) && Visits(data0, table0[inode.nr], p, p', e, s)
    requires b == Ptr(data0, table0[inode.nr], s)
    modifies inode, inode.sb`dev, inode.sb`usedBlockCount, inode.sb`owner, inode.sb`table, inode.sb.blockFreemap.v
    ensures inode.Synced() && FreedSoFar(data0, owner0, inode.sb.Data(), inode.sb.owner, inode.nr, p', e)
    ensures inode.din == old(inode.din).(blockCount := inode.din.blockCount)
    ensures inode.sb.table == old(inode.sb.table)[inode.nr := inode.din]
    ensures inode.sb.InodeBlocks() == old(inode.sb.InodeBlocks()) && inode.count == old(inode.count)
  {
    hide Consistent, Counted, Linked, FreedSoFar, Visits;
    VisitSlot(data0, table0, owner0, inode.sb.Data(), inode.sb.owner, inode.nr, p, p', e, s);
    if b != 0 {
      StillOwned(data0, table0, owner0, inode.sb.Data(), inode.sb.owner, inode.nr, p, e, s);
      inode.FreeBlock(b);
    }
  }

  /** Where freeing a file of e blocks stops. */
  function Final(d: Dinode, e: nat): Progress {
    Progress(Min(e, NR_DIRECT_BLOCKS),
             if d.indirect > 0 && e > NR_DIRECT_BLOCKS then Min(e - NR_DIRECT_BLOCKS, NR_INDIRECT_BLOCKS) else 0,
             d.indirect > 0,
             if e > FIRST_DOUBLE then NR_INDIRECT_BLOCKS else 0, 0,
             e > FIRST_DOUBLE)
  }

  /** The inode once all its fields below block e are cleared. */
  function Cleared(d: Dinode, e: nat, count: int): Dinode {
    Dinode(d.itype, seq(NR_DIRECT_BLOCKS, i requires 0 <= i < NR_DIRECT_BLOCKS => if i < e then 0 else d.direct[i]),
           0, if e > FIRST_DOUBLE then 0 else d.dindirect, count, 0)
  }

  method FreeDirect(inode: Inode, e: nat, ghost data0: seq<Block>, ghost table0: map<nat, Dinode>, ghost owner0: map<nat, Ref>)
    requires inode.Synced() && Linked(data0, table0, owner0) && inode.nr in table0 && inode.din == table0[inode.nr]
    requires FreedSoFar(data0, owner0, inode.sb.Data(), inode.sb.owner, inode.nr, Progress(0, 0, false, 0, 0, false), e)
    modifies inode, inode.sb`dev, inode.sb`usedBlockCount, inode.sb`owner, inode.sb`table, inode.sb.blockFreemap.v
    ensures inode.Synced() && inode.sb.InodeBlocks() == old(inode.sb.InodeBlocks()) && inode.count == old(inode.count)
    ensures FreedSoFar(data0, owner0, inode.sb.Data(), inode.sb.owner, inode.nr, Progress(Min(e, NR_DIRECT_BLOCKS), 0, false, 0, 0, false),
                       e)
    ensures inode.din == old(inode.din).(blockCount := inode.din.blockCount, direct := inode.din.direct)
    ensures inode.din.direct == Cleared(old(inode.din), e, 0).direct
    ensures inode.sb.table == old(inode.sb.table)[inode.nr := inode.din]
  {
    hide Consistent, Counted, Linked, FreedSoFar;
    var i: nat := 0;
    while i < e && i < NR_DIRECT_BLOCKS
      invariant i <= Min(e, NR_DIRECT_BLOCKS)
      invariant inode.Synced() && inode.sb.InodeBlocks() == old(inode.sb.InodeBlocks()) && inode.count == old(inode.count)
      invariant FreedSoFar(data0, owner0, inode.sb.Data(), inode.sb.owner, inode.nr, Progress(i, 0, false, 0, 0, false), e)
      invariant inode.din == old(inode.din).(blockCount := inode.din.blockCount, direct := inode.din.direct)
      invariant forall j | 0 <= j < NR_DIRECT_BLOCKS :: inode.din.direct[j] == if j < i then 0 else table0[inode.nr].direct[j]
      invariant inode.sb.table == old(inode.sb.table)[inode.nr := inode.din]
    {
      Visit(inode, inode.din.direct[i], data0, table0, owner0,
            Progress(i, 0, false, 0, 0, false), Progress(i + 1, 0, false, 0, 0, false), e, Direct(i));
      inode.SetValue(inode.din.(direct := inode.din.direct[i := 0]));
      i := i + 1;
    }
  }

  method FreeSingle(inode: Inode, e: nat, ghost data0: seq<Block>, ghost table0: map<nat, Dinode>, ghost owner0: map<nat, Ref>,
                    ghost p: Progress)
    requires inode.Synced() && Linked(data0, table0, owner0) && inode.nr in table0
    requires inode.din.indirect == table0[inode.nr].indirect > 0 && e > NR_DIRECT_BLOCKS
    requires FreedSoFar(data0, owner0, inode.sb.Data(), inode.sb.owner, inode.nr, p, e) && p.single == 0 && !p.indirect
    modifies inode, inode.sb`dev, inode.sb`usedBlockCount, inode.sb`owner, inode.sb`table, inode.sb.blockFreemap.v
    ensures inode.Synced() && inode.sb.InodeBlocks() == old(inode.sb.InodeBlocks()) && inode.count == old(inode.count)
    ensures FreedSoFar(data0, owner0, inode.sb.Data(), inode.sb.owner, inode.nr,
                       p.(single := Min(e - NR_DIRECT_BLOCKS, NR_INDIRECT_BLOCKS), indirect := true), e)
    ensures inode.din == old(inode.din).(blockCount := inode.din.blockCount, indirect := 0)
    ensures inode.sb.table == old(inode.sb.table)[inode.nr := inode.din]
  {
    hide Consistent, Counted, Linked, FreedSoFar, Word;
    StillOwned(data0, table0, owner0, inode.sb.Data(), inode.sb.owner, inode.nr, p, e, Indirect);
    var block := inode.sb.ReadBlock(inode.din.indirect);
    var i: nat := 0;
    while i < e - NR_DIRECT_BLOCKS && i < NR_INDIRECT_BLOCKS
      invariant i <= Min(e - NR_DIRECT_BLOCKS, NR_INDIRECT_BLOCKS)
      invariant inode.Synced() && inode.sb.InodeBlocks() == old(inode.sb.InodeBlocks()) && inode.count == old(inode.count)
      invariant FreedSoFar(data0, owner0, inode.sb.Data(), inode.sb.owner, inode.nr, p.(single := i), e)
      invariant inode.din == old(inode.din).(blockCount := inode.din.blockCount)
      invariant inode.sb.table == old(inode.sb.table)[inode.nr := inode.din]
    {
      Visit(inode, Word(block, i), data0, table0, owner0, p.(single := i), p.(single := i + 1), e, Single(i));
      i := i + 1;
    }
    Visit(inode, inode.din.indirect, data0, table0, owner0, p.(single := i), p.(single := i, indirect := true), e, Indirect);
    inode.SetValue(inode.din.(indirect := 0));
  }

  /** Frees the data blocks of row i of the double indirect block. */
  method FreeRow(inode: Inode, e: nat, b: nat, i: nat, ghost data0: seq<Block>, ghost table0: map<nat, Dinode>, ghost owner0: map<nat, Ref>,
                 ghost p: Progress)
    requires inode.Synced() && Linked(data0, table0, owner0) && inode.nr in table0
    requires e > FIRST_DOUBLE && i < NR_INDIRECT_BLOCKS && b == Ptr(data0, table0[inode.nr], Middle(i)) > 0
    requires FreedSoFar(data0, owner0, inode.sb.Data(), inode.sb.owner, inode.nr, p, e) && p.middle == i && p.leaf == 0
    modifies inode, inode.sb`dev, inode.sb`usedBlockCount, inode.sb`owner, inode.sb`table, inode.sb.blockFreemap.v
    ensures inode.Synced() && inode.sb.InodeBlocks() == old(inode.sb.InodeBlocks()) && inode.count == old(inode.count)
    ensures FreedSoFar(data0, owner0, inode.sb.Data(), inode.sb.owner, inode.nr, p.(middle := i + 1), e)
    ensures inode.din == old(inode.din).(blockCount := inode.din.blockCount)
    ensures inode.sb.table == old(inode.sb.table)[inode.nr := inode.din]
  {
    hide Consistent, Counted, Linked, FreedSoFar, Word;
    StillOwned(data0, table0, owner0, inode.sb.Data(), inode.sb.owner, inode.nr, p, e, Middle(i));
    var indirectBlock := inode.sb.ReadBlock(b);
    var j: nat := 0;
    while i * NR_INDIRECT_BLOCKS + j < e - FIRST_DOUBLE && j < NR_INDIRECT_BLOCKS
      invariant j <= NR_INDIRECT_BLOCKS && (j == 0 || i * NR_INDIRECT_BLOCKS + j <= e - FIRST_DOUBLE)
      invariant inode.Synced() && inode.sb.InodeBlocks() == old(inode.sb.InodeBlocks()) && inode.count == old(inode.count)
      invariant FreedSoFar(data0, owner0, inode.sb.Data(), inode.sb.owner, inode.nr, p.(leaf := j), e)
      invariant inode.din == old(inode.din).(blockCount := inode.din.blockCount)
      invariant inode.sb.table == old(inode.sb.table)[inode.nr := inode.din]
    {
      Visit(inode, Word(indirectBlock, j), data0, table0, owner0, p.(leaf := j), p.(leaf := j + 1), e, Leaf(i, j));
      j := j + 1;
    }
    Visit(inode, b, data0, table0, owner0, p.(leaf := j), p.(middle := i + 1), e, Middle(i));
  }

  method FreeDouble(inode: Inode, e: nat, ghost data0: seq<Block>, ghost table0: map<nat, Dinode>, ghost owner0: map<nat, Ref>,
                    ghost p: Progress)
    requires inode.Synced() && Linked(data0, table0, owner0) && inode.nr in table0
    requires inode.din.dindirect == table0[inode.nr].dindirect > 0 && e > FIRST_DOUBLE
    requires FreedSoFar(data0, owner0, inode.sb.Data(), inode.sb.owner, inode.nr, p, e) && p.middle == 0 && p.leaf == 0 && !p.double
    modifies inode, inode.sb`dev, inode.sb`usedBlockCount, inode.sb`owner, inode.sb`table, inode.sb.blockFreemap.v
    ensures inode.Synced() && inode.sb.InodeBlocks() == old(inode.sb.InodeBlocks()) && inode.count == old(inode.count)
    ensures FreedSoFar(data0, owner0, inode.sb.Data(), inode.sb.owner, inode.nr, p.(middle := NR_INDIRECT_BLOCKS, double := true), e)
    ensures inode.din == old(inode.din).(blockCount := inode.din.blockCount, dindirect := 0)
    ensures inode.sb.table == old(inode.sb.table)[inode.nr := inode.din]
  {
    hide Consistent, Counted, Linked, FreedSoFar, Word;
    StillOwned(data0, table0, owner0, inode.sb.Data(), inode.sb.owner, inode.nr, p, e, DoubleIndirect);
    var block := inode.sb.ReadBlock(inode.din.dindirect);
    for i := 0 to NR_INDIRECT_BLOCKS
      invariant inode.Synced() && inode.sb.InodeBlocks() == old(inode.sb.InodeBlocks()) && inode.count == old(inode.count)
      invariant FreedSoFar(data0, owner0, inode.sb.Data(), inode.sb.owner, inode.nr, p.(middle := i), e)
      invariant inode.din == old(inode.din).(blockCount := inode.din.blockCount)
      invariant inode.sb.table == old(inode.sb.table)[inode.nr := inode.din]
    {
      if Word(block, i) == 0 {
        SkipSlots(data0, table0, owner0, inode.sb.Data(), inode.sb.owner, inode.nr, p.(middle := i), p.(middle := i + 1), e);
      } else {
        FreeRow(inode, e, Word(block, i), i, data0, table0, owner0, p.(middle := i));
      }
    }
    Visit(inode, inode.din.dindirect, data0, table0, owner0,
          p.(middle := NR_INDIRECT_BLOCKS), p.(middle := NR_INDIRECT_BLOCKS, double := true), e, DoubleIndirect);
    inode.SetValue(inode.din.(dindirect := 0));
  }

  /** The first entry from i on, among the first n of an index block, that is not 0. */
  function FirstEntry(block: Block, i: nat, n: nat): (j: nat)
    requires i <= n <= NR_INDIRECT_BLOCKS
    ensures i <= j <= n && (j < n ==> Word(block, j) != 0)
    ensures forall k | i <= k < j :: Word(block, k) == 0
    decreases n - i
  {
    if i == n || Word(block, i) != 0 then i else FirstEntry(block, i + 1, n)
  }

  /**
   * What is freed first if the super block is taken for a double indirect block: its first word is the number of the
   * inode freemap block, so that is taken for an indirect block; the block freed is what the freemap's first word that is
   * not 0 says, or the freemap block itself.
   */
  function WildBlock(freemap: Block, e: nat): (b: nat)
    requires e > FIRST_DOUBLE
    ensures b != 0
  {
    var n := Min(e - FIRST_DOUBLE, NR_INDIRECT_BLOCKS);
    var j := FirstEntry(freemap, 0, n);
    if j < n then Word(freemap, j) else INODE_FREEMAP_START
  }

  lemma SuperBlockEntry(v: Volume)
    requires v.Valid()
    ensures |v.inodeFreemap.v[..]| == BLOCK_SIZE
    ensures Word(v.dev[0], 0) == INODE_FREEMAP_START && v.dev[INODE_FREEMAP_START] == FreemapBlock(v.inodeFreemap.v[..], 0)
  {
    WordOfSetWords(ZERO, 0, SuperWords(v.usedInodeCount, v.usedBlockCount, v.maxFsBlocks), 0);
    assert BlockMirrored(v.dev, INODE_FREEMAP_START, INODE_FREEMAP_SIZE, v.inodeFreemap.v[..], 0);
  }

  /**
   * The branch for the double indirect block when there is none: block 0 is read in its place. Up to the first block
   * freed, which is zeroed before the assertion that it is a data block.
   */
  method FreeThroughSuperBlock(sb: Volume, e: nat) returns (wild: nat)
    requires sb.Valid() && e > FIRST_DOUBLE
    modifies sb`dev
    ensures wild == WildBlock(FreemapBlock(sb.inodeFreemap.v[..], 0), e)
    ensures sb.dev == if wild < NR_DEVICE_BLOCKS then old(sb.dev)[wild := ZERO] else old(sb.dev)
  {
    hide Volumes.Consistent, FreemapBlock, Word;
    SuperBlockEntry(sb);
    var block := sb.ReadBlock(0);
    // The first entry is not 0, so the loop over the entries begins with it.
    var indirectBlock := sb.ReadBlock(Word(block, 0));
    var n := Min(e - FIRST_DOUBLE, NR_INDIRECT_BLOCKS);
    var j: nat := 0;
    while j < n && Word(indirectBlock, j) == 0
      invariant j <= n && FirstEntry(indirectBlock, 0, n) == FirstEntry(indirectBlock, j, n)
    {
      j := j + 1;
    }
    wild := if j < n then Word(indirectBlock, j) else Word(block, 0);
    if wild < NR_DEVICE_BLOCKS {
      sb.ZeroBlock(wild);
    }
  }

  /**
   * How freeing ends: as it should, with the failing assertion that an indirect block comes with a size beyond the direct
   * blocks, or with a block zeroed that does not belong to the file.
   */
  datatype Freeing = Done | AssertFails | Astray(block: nat)

  function FreeingEnds(d: Dinode, freemap: Block): Freeing {
    var e := DivRoundUp(d.size, BLOCK_SIZE);
    if d.indirect > 0 && e <= NR_DIRECT_BLOCKS then AssertFails
    else if e > FIRST_DOUBLE && d.dindirect == 0 then Astray(WildBlock(freemap, e))
    else Done
  }

  /** Frees the blocks of a file, as far as its size says they go. What the code does after it went astray is not modelled. */
  method FreeBlocks(inode: Inode) returns (end: Freeing)
    requires inode.Ready()
    modifies inode, inode.sb`dev, inode.sb`usedBlockCount, inode.sb`owner, inode.sb`table, inode.sb.blockFreemap.v
    ensures |inode.sb.dev| == NR_DEVICE_BLOCKS && |inode.sb.inodeFreemap.v[..]| == BLOCK_SIZE
    ensures end == FreeingEnds(old(inode.din), FreemapBlock(inode.sb.inodeFreemap.v[..], 0))
    ensures end.Astray? && end.block < NR_DEVICE_BLOCKS ==> inode.sb.dev[end.block] == ZERO
    ensures end == Done ==>
            var e := DivRoundUp(old(inode.din).size, BLOCK_SIZE);
            && inode.Synced() && inode.sb.InodeBlocks() == old(inode.sb.InodeBlocks()) && inode.count == old(inode.count)
            && FreedSoFar(old(inode.sb.Data()), old(inode.sb.owner), inode.sb.Data(), inode.sb.owner, inode.nr, Final(old(inode.din), e), e)
            && inode.din == Cleared(old(inode.din), e, inode.din.blockCount)
            && inode.sb.table == old(inode.sb.table)[inode.nr := inode.din] && inode.dirty
  {
    hide Consistent, Counted, Linked, WildBlock, FreemapBlock, Cleared, Final;
    SuperBlockEntry(inode.sb);
    ghost var data0, table0, owner0 := inode.sb.Data(), inode.sb.table, inode.sb.owner;
    var e := DivRoundUp(inode.din.size, BLOCK_SIZE);
    ghost var p := Progress(0, 0, false, 0, 0, false);
    NothingFreed(data0, owner0, inode.nr, e);
    end := Done;
    hide FreedSoFar;
    FreeDirect(inode, e, data0, table0, owner0);
    p := Progress(Min(e, NR_DIRECT_BLOCKS), 0, false, 0, 0, false);
    if inode.din.indirect > 0 {
      if e <= NR_DIRECT_BLOCKS {
        return AssertFails;
      }
      FreeSingle(inode, e, data0, table0, owner0, p);
      p := p.(single := Min(e - NR_DIRECT_BLOCKS, NR_INDIRECT_BLOCKS), indirect := true);
    }
    if e > FIRST_DOUBLE {
      if inode.din.dindirect == 0 {
        var wild := FreeThroughSuperBlock(inode.sb, e);
        return Astray(wild);
      }
      FreeDouble(inode, e, data0, table0, owner0, p);
      p := p.(middle := NR_INDIRECT_BLOCKS, double := true);
    }
    inode.SetValue(inode.din.(size := 0));
    AtTheEnd(table0[inode.nr], inode.din, e, p);
  }

  /** The fields of the inode, and how far freeing has come, when it is done. */
  lemma AtTheEnd(d0: Dinode, d: Dinode, e: nat, p: Progress)
    requires d.itype == d0.itype && d.direct == Cleared(d0, e, 0).direct && d.indirect == 0 && d.size == 0
    requires d.dindirect == if e > FIRST_DOUBLE then 0 else d0.dindirect
    requires d0.indirect > 0 ==> e > NR_DIRECT_BLOCKS
    requires p == Progress(Min(e, NR_DIRECT_BLOCKS), if d0.indirect > 0 then Min(e - NR_DIRECT_BLOCKS, NR_INDIRECT_BLOCKS) else 0,
                           d0.indirect > 0,
                           if e > FIRST_DOUBLE then NR_INDIRECT_BLOCKS else 0, 0, e > FIRST_DOUBLE)
    ensures p == Final(d0, e) && d == Cleared(d0, e, d.blockCount)
  {}

  lemma NothingFreed(data: seq<Block>, owner: map<nat, Ref>, k: nat, e: nat)
    ensures FreedSoFar(data, owner, data, owner, k, Progress(0, 0, false, 0, 0, false), e)
  {
    var p := Progress(0, 0, false, 0, 0, false);
    forall b: nat ensures FreedIfVisited(data, owner, data, owner, k, p, e, b) {
      assert b in owner ==> !Visited(owner[b].slot, p, e);
    }
  }

  // ---------------------------------------------------------------- complete reclamation

  /** The size of the file covers every block of its tree, and the double indirect block exists exactly if the size needs it. */
  ghost predicate Covered(data: seq<Block>, d: Dinode) {
    var e := DivRoundUp(d.size, BLOCK_SIZE);
    && (forall n: nat | n < MAX_BLOCK_NR && !IsHole(data, d, n) :: n < e)
    && (d.indirect > 0 ==> e > NR_DIRECT_BLOCKS)
    && (d.dindirect > 0 <==> e > FIRST_DOUBLE)
  }

  /** A slot that freeing leaves alone lies beyond the size, or belongs to a double indirect block the size does not need. */
  lemma NotVisited(data: seq<Block>, d: Dinode, s: Slot, e: nat)
    requires InTree(s) && Ptr(data, d, s) != 0 && (d.indirect > 0 ==> e > NR_DIRECT_BLOCKS)
    ensures !Visited(s, Final(d, e), e) <==>
              if HoldsData(s) then LogicalNr(s) >= e else e <= FIRST_DOUBLE && (s.DoubleIndirect? || s.Middle?)
  {}

  /**
   * Freeing ends as it should, with an empty tree, exactly when the size covers the tree. The requirements are the
   * postcondition of FreeBlocks.
   */
  lemma ReclaimsAllIffCovered(data0: seq<Block>, table0: map<nat, Dinode>, owner0: map<nat, Ref>,
                              data: seq<Block>, owner: map<nat, Ref>, k: nat, e: nat, freemap: Block)
    requires Linked(data0, table0, owner0) && LooseBlocks(owner0) == {} && k in table0 && e == DivRoundUp(table0[k].size, BLOCK_SIZE)
    requires FreeingEnds(table0[k], freemap) == Done ==> FreedSoFar(data0, owner0, data, owner, k, Final(table0[k], e), e)
    ensures FreeingEnds(table0[k], freemap) == Done && OwnedBy(owner, k) == {} <==> Covered(data0, table0[k])
  {
    var d, p := table0[k], Final(table0[k], e);
    if FreeingEnds(d, freemap) != Done {
      return;
    }
    if Covered(data0, d) {
      forall b | b in owner ensures owner[b].ino != k {
        assert FreedIfVisited(data0, owner0, data, owner, k, p, e, b);
        assert OwnedBySlot(data0, table0, owner0, b) && b !in LooseBlocks(owner0);
        if owner0[b].ino == k {
          var s := owner0[b].slot;
          if HoldsData(s) {
            DataSlotBijection(s, 0);
            assert !IsHole(data0, d, LogicalNr(s));
          }
          NotVisited(data0, d, s, e);
        }
      }
    } else if n: nat :| n < MAX_BLOCK_NR && !IsHole(data0, d, n) && n >= e {
      DataSlotBijection(DataSlot(n), n);
      NotVisited(data0, d, DataSlot(n), e);
      StillOwned(data0, table0, owner0, data, owner, k, p, e, DataSlot(n));
      assert Phys(data0, d, n) in OwnedBy(owner, k);
    } else {
      StillOwned(data0, table0, owner0, data, owner, k, p, e, DoubleIndirect);
      assert d.dindirect in OwnedBy(owner, k);
    }
  }

  /** Freeing the blocks of inode k moves no pointer of another inode. */
  lemma OtherPtrsKept(data0: seq<Block>, table0: map<nat, Dinode>, owner0: map<nat, Ref>,
                      data: seq<Block>, owner: map<nat, Ref>, k: nat, p: Progress, e: nat, k': nat, s: Slot)
    requires Linked(data0, table0, owner0) && FreedSoFar(data0, owner0, data, owner, k, p, e)
    requires k' in table0 && k' != k && InTree(s)
    ensures Ptr(data, table0[k'], s) == Ptr(data0, table0[k'], s)
    ensures Blk(data, Ptr(data0, table0[k'], s)) == Blk(data0, Ptr(data0, table0[k'], s))
  {
    var d := table0[k'];
    assert SlotOwns(data0, table0, owner0, k', Indirect) && SlotOwns(data0, table0, owner0, k', DoubleIndirect);
    assert SlotOwns(data0, table0, owner0, k', s);
    assert FreedIfVisited(data0, owner0, data, owner, k, p, e, d.indirect);
    assert FreedIfVisited(data0, owner0, data, owner, k, p, e, d.dindirect);
    assert FreedIfVisited(data0, owner0, data, owner, k, p, e, Ptr(data0, d, s));
    if s.Leaf? {
      assert SlotOwns(data0, table0, owner0, k', Middle(s.i));
      assert FreedIfVisited(data0, owner0, data, owner, k, p, e, Ptr(data0, d, Middle(s.i)));
    }
  }

  /** When the size covers the tree, freeing leaves an inode with an empty tree, every other file intact, and all trees linked. */
  lemma CoveredReclaim(data0: seq<Block>, table0: map<nat, Dinode>, owner0: map<nat, Ref>,
                       data: seq<Block>, owner: map<nat, Ref>, k: nat, e: nat, c: int)
    requires Linked(data0, table0, owner0) && LooseBlocks(owner0) == {} && k in table0
    requires e == DivRoundUp(table0[k].size, BLOCK_SIZE) && Covered(data0, table0[k])
    requires FreedSoFar(data0, owner0, data, owner, k, Final(table0[k], e), e)
    ensures var d := Cleared(table0[k], e, c);
            && Linked(data, table0[k := d], owner) && LooseBlocks(owner) == {}
            && d == FREE_DINODE.(itype := table0[k].itype, blockCount := c)
            && OthersSame(data0, table0, data, table0[k := d], k)
  {
    var d, d', p := table0[k], Cleared(table0[k], e, c), Final(table0[k], e);
    var table := table0[k := d'];
    ReclaimsAllIffCovered(data0, table0, owner0, data, owner, k, e, ZERO);
    assert d'.direct == FREE_DINODE.direct by {
      forall i: nat | i < NR_DIRECT_BLOCKS ensures d'.direct[i] == 0 {
        assert i >= e ==> IsHole(data0, d, i);
      }
    }
    forall b: nat ensures OwnedBySlot(data, table, owner, b) && ZeroIfUnlinked(data, owner, b) && b !in LooseBlocks(owner) {
      assert FreedIfVisited(data0, owner0, data, owner, k, p, e, b);
      assert OwnedBySlot(data0, table0, owner0, b) && ZeroIfUnlinked(data0, owner0, b) && b !in LooseBlocks(owner0);
      if b in owner {
        assert owner[b].ino == k ==> b in OwnedBy(owner, k);
        OtherPtrsKept(data0, table0, owner0, data, owner, k, p, e, owner[b].ino, owner[b].slot);
      }
    }
    forall k': nat, s: Slot ensures SlotOwns(data, table, owner, k', s) {
      if k' in table0 && k' != k && InTree(s) {
        OtherPtrsKept(data0, table0, owner0, data, owner, k, p, e, k', s);
        assert SlotOwns(data0, table0, owner0, k', s);
        assert FreedIfVisited(data0, owner0, data, owner, k, p, e, Ptr(data0, table0[k'], s));
      }
    }
    forall k' | k' in table0 && k' != k
      ensures SameContent(data0, table0[k'], data, table[k']) && SamePlaces(data0, data, table0[k'])
    {
      forall n: nat | n < MAX_BLOCK_NR
        ensures BlockOf(data, table[k'], n) == BlockOf(data0, table0[k'], n) && Phys(data, table0[k'], n) == Phys(data0, table0[k'], n)
      {
        OtherPtrsKept(data0, table0, owner0, data, owner, k, p, e, k', DataSlot(n));
      }
      forall i: nat | i < NR_INDIRECT_BLOCKS ensures Ptr(data, table0[k'], Middle(i)) == Ptr(data0, table0[k'], Middle(i)) {
        OtherPtrsKept(data0, table0, owner0, data, owner, k, p, e, k', Middle(i));
      }
    }
  }

  /** Frees all blocks of a file. The assertion that none is left holds, and the inode becomes a free one, exactly if it was covered. */
  method EmptyInode(inode: Inode) returns (ok: bool)
    requires inode.Ready() && LooseBlocks(inode.sb.owner) == {}
    modifies inode, inode.sb`dev, inode.sb`usedBlockCount, inode.sb`owner, inode.sb`table, inode.sb.blockFreemap.v
    ensures ok <==> old(Covered(inode.sb.Data(), inode.din))
    ensures ok ==>
              && inode.Ready() && LooseBlocks(inode.sb.owner) == {} && inode.din == FREE_DINODE && inode.dirty
              && inode.sb.table == old(inode.sb.table)[inode.nr := FREE_DINODE]
              && OwnedBy(inode.sb.owner, inode.nr) == {}
              && OthersSame(old(inode.sb.Data()), old(inode.sb.table), inode.sb.Data(), inode.sb.table, inode.nr)
              && inode.sb.InodeBlocks() == old(inode.sb.InodeBlocks()) && inode.count == old(inode.count)
  {
    hide Consistent, Linked, FreedSoFar, LooseBlocks, Covered, FreeingEnds, FreemapBlock, SameContent, SamePlaces;
    ghost var data0, table0, owner0, k := inode.sb.Data(), inode.sb.table, inode.sb.owner, inode.nr;
    ghost var e := DivRoundUp(inode.din.size, BLOCK_SIZE);
    var end := FreeBlocks(inode);
    ReclaimsAllIffCovered(data0, table0, owner0, inode.sb.Data(), inode.sb.owner, k, e, FreemapBlock(inode.sb.inodeFreemap.v[..], 0));
    if end != Done {
      return false;
    }
    assert CountIs(inode.sb.table, inode.sb.owner, k);
    if inode.din.blockCount != 0 {
      return false;
    }
    CoveredReclaim(data0, table0, owner0, inode.sb.Data(), inode.sb.owner, k, e, inode.din.blockCount);
    SamePointersLinked(inode.sb.Data(), inode.sb.table, inode.sb.owner, k, FREE_DINODE);
    inode.SetValue(FREE_DINODE);
    ok := true;
  }

  /** An inode without blocks and of size 0 is covered, whatever its type. */
  lemma FreeCovered(data: seq<Block>, d: Dinode)
    requires d == FREE_DINODE.(itype := d.itype)
    ensures Covered(data, d)
  {
    forall n: nat | n < MAX_BLOCK_NR ensures IsHole(data, d, n) {}
  }

  /**
   * A write keeps a covered file covered exactly if the state before it says so: it succeeds (an empty write only within
   * the file), or stops at the end of the largest file after writing something, or runs out of space without mapping a
   * block beyond the size and without a double indirect block that the size does not need, or a size without its double
   * indirect block. The requirements are the postcondition of WriteData.
   */
  lemma CoveredAfterWrite(data0: seq<Block>, d0: Dinode, data: seq<Block>, d: Dinode, bytes: seq<byte>, start: nat, n: nat, free: nat,
                          limit: nat)
    requires Covered(data0, d0)
    requires Wrote(data0, d0, data, d, start, bytes, start / BLOCK_SIZE, WriteEnd(data0, d0, start, n, free), limit)
    requires d.size == NewSize(data0, d0, start, n, free) && (d.dindirect != 0 <==> DoubleAfter(data0, d0, start, n, free))
    ensures Covered(data, d) <==> StaysCovered(data0, d0, start, n, free)
  {
    assert d0.dindirect > 0 <==> DivRoundUp(d0.size, BLOCK_SIZE) > FIRST_DOUBLE;
    hide Stop;
    var e := DivRoundUp(d.size, BLOCK_SIZE);
    var first, end := start / BLOCK_SIZE, WriteEnd(data0, d0, start, n, free);
    hide WriteEnd, DoubleAfter, NewSize, StaysCovered;
    forall m: nat | m < MAX_BLOCK_NR ensures IsHole(data, d, m) <==> IsHole(data0, d0, m) && !(first <= m < end) {
      assert HoleFilled(data0, d0, data, d, first, end, m);
    }
    IndirectAfter(data0, d0, data, d, start, bytes, first, end, limit);
    hide Wrote;
    SizeGrows(data0, d0, start, n, free);
    if first < end {
      assert !IsHole(data, d, end - 1);
    }
    assert Covered(data, d) <==> (first < end ==> end <= e) && (d.dindirect > 0 <==> e > FIRST_DOUBLE);
    hide Covered;
    CoveredCases(data0, d0, start, n, free, d.dindirect);
  }

  lemma SizeGrows(data: seq<Block>, d: Dinode, start: nat, n: nat, free: nat)
    ensures NewSize(data, d, start, n, free) >= d.size
  {}

  /** The cases of the code, for a file whose double indirect block exists just when its size needs it. */
  lemma CoveredCases(data: seq<Block>, d: Dinode, start: nat, n: nat, free: nat, dindirect: nat)
    requires d.dindirect > 0 <==> DivRoundUp(d.size, BLOCK_SIZE) > FIRST_DOUBLE
    requires dindirect != 0 <==> DoubleAfter(data, d, start, n, free)
    ensures var e, end := DivRoundUp(NewSize(data, d, start, n, free), BLOCK_SIZE), WriteEnd(data, d, start, n, free);
            StaysCovered(data, d, start, n, free) <==> (start / BLOCK_SIZE < end ==> end <= e) && (dindirect > 0 <==> e > FIRST_DOUBLE)
  {
    hide Stop;
    var first, end, last := start / BLOCK_SIZE, WriteEnd(data, d, start, n, free), LastBlock(start, n);
    StopIs(data, d, first, first, last, free);
    hide Cost;
  }

  lemma IndirectAfter(data0: seq<Block>, d0: Dinode, data: seq<Block>, d: Dinode, start: nat, bytes: seq<byte>, first: nat, end: nat,
                      limit: nat)
    requires Wrote(data0, d0, data, d, start, bytes, first, end, limit)
    ensures d.indirect == d0.indirect || (first < end && end > NR_DIRECT_BLOCKS)
  {}
}
