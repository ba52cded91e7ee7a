/**
 * The block tree of an inode: ten direct block numbers, one indirect block and one double indirect block,
 * over a flat data region. Everything here is about values; the classes that change the disk use it as
 * their specification.
 */
module BlockTree {
  import opened Blocks

  const NR_DIRECT_BLOCKS: nat := 10
  /** The first logical block that the double indirect block maps. */
  const FIRST_DOUBLE: nat := NR_DIRECT_BLOCKS + NR_INDIRECT_BLOCKS
  const MAX_BLOCK_NR: nat := FIRST_DOUBLE + NR_INDIRECT_BLOCKS * NR_INDIRECT_BLOCKS
  /** Number of the first data block: super block, one inode freemap block, sixteen block freemap blocks, 128 inode blocks. */
  const DATA_BLOCKS_START: nat := 146

  datatype InodeType = I_NONE | I_FILE | I_DIR

  /** An inode as stored on disk. Block number 0 means "no block". */
  datatype DinodeRecord = Dinode(itype: InodeType, direct: seq<nat>, indirect: nat, dindirect: nat, blockCount: int, size: nat)

  type Dinode = d: DinodeRecord | |d.direct| == NR_DIRECT_BLOCKS witness Dinode(I_NONE, seq(NR_DIRECT_BLOCKS, _ => 0), 0, 0, 0, 0)

  const FREE_DINODE: Dinode := FreeDinode()

  function FreeDinode(): (d: Dinode)
    ensures d == Dinode(I_NONE, d.direct, 0, 0, 0, 0) && forall i | 0 <= i < NR_DIRECT_BLOCKS :: d.direct[i] == 0
  {
    Dinode(I_NONE, seq(NR_DIRECT_BLOCKS, _ => 0), 0, 0, 0, 0)
  }

  /** The places of one inode's tree that hold a block number. Loose marks a block that is allocated but not yet linked. */
  datatype Slot = Direct(i: nat) | Indirect | DoubleIndirect | Single(i: nat) | Middle(i: nat) | Leaf(i: nat, j: nat) | Loose

  datatype Ref = Ref(ino: nat, slot: Slot)

  predicate InTree(s: Slot) {
    match s
    case Direct(i) => i < NR_DIRECT_BLOCKS
    case Indirect => true
    case DoubleIndirect => true
    case Single(i) => i < NR_INDIRECT_BLOCKS
    case Middle(i) => i < NR_INDIRECT_BLOCKS
    case Leaf(i, j) => i < NR_INDIRECT_BLOCKS && j < NR_INDIRECT_BLOCKS
    case Loose => false
  }

  predicate HoldsData(s: Slot) {
    s.Direct? || s.Single? || s.Leaf?
  }

  /** The slot that maps logical block n. */
  function DataSlot(n: nat): (s: Slot)
    requires n < MAX_BLOCK_NR
    ensures InTree(s) && HoldsData(s)
  {
    if n < NR_DIRECT_BLOCKS then Direct(n)
    else if n - NR_DIRECT_BLOCKS < NR_INDIRECT_BLOCKS then Single(n - NR_DIRECT_BLOCKS)
    else var m := n - NR_DIRECT_BLOCKS - NR_INDIRECT_BLOCKS; Leaf(m / NR_INDIRECT_BLOCKS, m % NR_INDIRECT_BLOCKS)
  }

  function LogicalNr(s: Slot): (n: nat)
    requires InTree(s) && HoldsData(s)
  {
    match s
    case Direct(i) => i
    case Single(i) => NR_DIRECT_BLOCKS + i
    case Leaf(i, j) => NR_DIRECT_BLOCKS + NR_INDIRECT_BLOCKS + i * NR_INDIRECT_BLOCKS + j
  }

  /** The logical block numbers and the data slots are in one-to-one correspondence. */
  lemma DataSlotBijection(s: Slot, n: nat)
    requires InTree(s) && HoldsData(s) && n < MAX_BLOCK_NR
    ensures LogicalNr(s) < MAX_BLOCK_NR && DataSlot(LogicalNr(s)) == s
    ensures LogicalNr(DataSlot(n)) == n
  {}

  predicate InData(data: seq<Block>, b: nat) {
    DATA_BLOCKS_START <= b < DATA_BLOCKS_START + |data|
  }

  /** Block b of the disk, if it lies in the data region; no other block holds file data. */
  function Blk(data: seq<Block>, b: nat): Block {
    if InData(data, b) then data[b - DATA_BLOCKS_START] else ZERO
  }

  function Put(data: seq<Block>, b: nat, x: Block): (r: seq<Block>)
    requires InData(data, b)
    ensures |r| == |data|
    ensures forall c: nat :: Blk(r, c) == if c == b then x else Blk(data, c)
  {
    data[b - DATA_BLOCKS_START := x]
  }

  /** Entry i of index block p, where p == 0 stands for a missing index block. */
  function Entry(data: seq<Block>, p: nat, i: nat): nat
    requires i < NR_INDIRECT_BLOCKS
  {
    if p == 0 then 0 else Word(Blk(data, p), i)
  }

  /** The block number held by slot s of inode d, 0 if there is none. */
  function Ptr(data: seq<Block>, d: Dinode, s: Slot): nat
    requires InTree(s)
  {
    match s
    case Direct(i) => d.direct[i]
    case Indirect => d.indirect
    case DoubleIndirect => d.dindirect
    case Single(i) => Entry(data, d.indirect, i)
    case Middle(i) => Entry(data, d.dindirect, i)
    case Leaf(i, j) => Entry(data, Entry(data, d.dindirect, i), j)
  }

  /** The physical block of logical block n, 0 for a hole. */
  function Phys(data: seq<Block>, d: Dinode, n: nat): nat
    requires n < MAX_BLOCK_NR
  {
    Ptr(data, d, DataSlot(n))
  }

  /** Whether n is a hole of the file. */
  predicate IsHole(data: seq<Block>, d: Dinode, n: nat)
    requires n < MAX_BLOCK_NR
  {
    Phys(data, d, n) == 0
  }

  /** The contents of logical block n; a hole reads as zeros. */
  function BlockOf(data: seq<Block>, d: Dinode, n: nat): Block
    requires n < MAX_BLOCK_NR
  {
    Blk(data, Phys(data, d, n))
  }

  /** The contents of every logical block are the same in both states. */
  ghost predicate SameContent(data: seq<Block>, d: Dinode, data': seq<Block>, d': Dinode) {
    forall n: nat | n < MAX_BLOCK_NR :: BlockOf(data', d', n) == BlockOf(data, d, n)
  }

  ghost predicate PtrMoved(data: seq<Block>, table: map<nat, Dinode>, data': seq<Block>, table': map<nat, Dinode>,
                           k: nat, s: Slot, b: nat, k': nat, s': Slot)
  {
    k' in table && k' in table' && InTree(s') ==>
      Ptr(data', table'[k'], s') == if k' == k && s' == s then b else Ptr(data, table[k'], s')
  }

  /** Slot s of inode k now points to b; every other slot of every inode points where it did. */
  ghost predicate OnlyMoved(data: seq<Block>, table: map<nat, Dinode>, data': seq<Block>, table': map<nat, Dinode>,
                            k: nat, s: Slot, b: nat)
  {
    && table'.Keys == table.Keys
    && forall k': nat, s': Slot :: PtrMoved(data, table, data', table', k, s, b, k', s')
  }

  /** What slot s of inode k points to, if anything, is owned by that very slot. */
  ghost predicate SlotOwns(data: seq<Block>, table: map<nat, Dinode>, owner: map<nat, Ref>, k: nat, s: Slot) {
    k in table && InTree(s) && Ptr(data, table[k], s) != 0 ==>
      Ptr(data, table[k], s) in owner && owner[Ptr(data, table[k], s)] == Ref(k, s)
  }

  /** An owned block lies in the data region and is what its slot points to. */
  ghost predicate OwnedBySlot(data: seq<Block>, table: map<nat, Dinode>, owner: map<nat, Ref>, b: nat) {
    b in owner ==>
      && InData(data, b) && owner[b].ino in table
      && (!owner[b].slot.Loose? ==> InTree(owner[b].slot) && Ptr(data, table[owner[b].ino], owner[b].slot) == b)
  }

  ghost predicate ZeroIfUnlinked(data: seq<Block>, owner: map<nat, Ref>, b: nat) {
    (b in owner ==> owner[b].slot.Loose?) ==> Blk(data, b) == ZERO
  }

  /**
   * `owner` says which slot of which inode holds each allocated block. The trees are exactly the allocated blocks:
   * every owned block is what its slot points to, every block a slot points to is owned by that very slot
   * (so no two slots of any two inodes share a block), and every block nobody's data lives in is zero.
   */
  ghost predicate Linked(data: seq<Block>, table: map<nat, Dinode>, owner: map<nat, Ref>) {
    && (forall b: nat :: OwnedBySlot(data, table, owner, b))
    && (forall k: nat, s: Slot :: SlotOwns(data, table, owner, k, s))
    && (forall b: nat :: ZeroIfUnlinked(data, owner, b))
  }

  /** The blocks that are allocated but linked from nowhere. */
  ghost function LooseBlocks(owner: map<nat, Ref>): set<nat> {
    set b | b in owner && owner[b].slot.Loose?
  }

  ghost function OwnedBy(owner: map<nat, Ref>, k: nat): set<nat> {
    set b | b in owner && owner[b].ino == k
  }

  // ---------------------------------------------------------------- frames

  /** Overwriting a block that no tree uses as an index block moves no pointer of any inode. */
  lemma PutKeepsPtrs(data: seq<Block>, table: map<nat, Dinode>, owner: map<nat, Ref>, b: nat, x: Block, k: nat, s: Slot)
    requires Linked(data, table, owner) && b in owner && (HoldsData(owner[b].slot) || owner[b].slot.Loose?)
    requires k in table && InTree(s)
    ensures InData(data, b)
    ensures Ptr(Put(data, b, x), table[k], s) == Ptr(data, table[k], s)
  {
    assert OwnedBySlot(data, table, owner, b);
    assert SlotOwns(data, table, owner, k, Indirect);
    assert SlotOwns(data, table, owner, k, DoubleIndirect);
    if s.Leaf? {
      assert SlotOwns(data, table, owner, k, Middle(s.i));
    }
  }

  /** Two slots never share a block, so overwriting the block of (k, n) changes no other logical block. */
  lemma NoSharing(data: seq<Block>, table: map<nat, Dinode>, owner: map<nat, Ref>, k: nat, s: Slot, k': nat, s': Slot)
    requires Linked(data, table, owner) && k in table && k' in table && InTree(s) && InTree(s')
    requires Ptr(data, table[k], s) == Ptr(data, table[k'], s') != 0
    ensures k == k' && s == s'
  {
    assert SlotOwns(data, table, owner, k, s);
    assert SlotOwns(data, table, owner, k', s');
  }

  /** Overwriting a data block: trees stay linked, and only the logical block it maps changes contents. */
  lemma PutData(data: seq<Block>, table: map<nat, Dinode>, owner: map<nat, Ref>, k: nat, n: nat, x: Block)
    requires Linked(data, table, owner) && k in table && n < MAX_BLOCK_NR && Phys(data, table[k], n) != 0
    ensures InData(data, Phys(data, table[k], n))
    ensures var data' := Put(data, Phys(data, table[k], n), x);
            && Linked(data', table, owner)
            && OnlyMoved(data, table, data', table, k, DataSlot(n), Phys(data, table[k], n))
            && (forall k' | k' in table && k' != k :: SameContent(data, table[k'], data', table[k']))
            && (forall m: nat | m < MAX_BLOCK_NR :: BlockOf(data', table[k], m) == if m == n then x else BlockOf(data, table[k], m))
  {
    var b := Phys(data, table[k], n);
    assert SlotOwns(data, table, owner, k, DataSlot(n));
    assert OwnedBySlot(data, table, owner, b);
    var data' := Put(data, b, x);
    forall k': nat, s': Slot ensures PtrMoved(data, table, data', table, k, DataSlot(n), b, k', s') {
      if k' in table && InTree(s') {
        PutKeepsPtrs(data, table, owner, b, x, k', s');
      }
    }
    SamePtrsLinked(data, table, owner, data', k, DataSlot(n), b);
    forall k', m: nat | k' in table && m < MAX_BLOCK_NR
      ensures BlockOf(data', table[k'], m) == if k' == k && m == n then x else BlockOf(data, table[k'], m)
    {
      assert PtrMoved(data, table, data', table, k, DataSlot(n), b, k', DataSlot(m));
      if Phys(data, table[k'], m) == b {
        NoSharing(data, table, owner, k, DataSlot(n), k', DataSlot(m));
        DataSlotBijection(DataSlot(m), n);
        DataSlotBijection(DataSlot(m), m);
      }
    }
  }

  lemma SamePtrsLinked(data: seq<Block>, table: map<nat, Dinode>, owner: map<nat, Ref>, data': seq<Block>, k: nat, s: Slot, b: nat)
    requires Linked(data, table, owner) && k in table && InTree(s) && Ptr(data, table[k], s) == b != 0
    requires OnlyMoved(data, table, data', table, k, s, b) && |data'| == |data|
    requires forall c: nat | c != b :: Blk(data', c) == Blk(data, c)
    ensures Linked(data', table, owner)
  {
    assert SlotOwns(data, table, owner, k, s);
    forall c: nat ensures OwnedBySlot(data', table, owner, c) && ZeroIfUnlinked(data', owner, c) {
      assert OwnedBySlot(data, table, owner, c) && ZeroIfUnlinked(data, owner, c);
      if c in owner {
        assert PtrMoved(data, table, data', table, k, s, b, owner[c].ino, owner[c].slot);
      }
    }
    forall k': nat, s': Slot ensures SlotOwns(data', table, owner, k', s') {
      assert SlotOwns(data, table, owner, k', s') && PtrMoved(data, table, data', table, k, s, b, k', s');
    }
  }

  // ---------------------------------------------------------------- linking and unlinking

  /** Filling one empty slot of inode k with its loose block b, while every other slot keeps its block. */
  lemma LinkSlot(data: seq<Block>, table: map<nat, Dinode>, owner: map<nat, Ref>,
                 data': seq<Block>, table': map<nat, Dinode>, k: nat, s: Slot, b: nat)
    requires Linked(data, table, owner) && k in table && b in owner && owner[b] == Ref(k, Loose) && InTree(s)
    requires Ptr(data, table[k], s) == 0 && OnlyMoved(data, table, data', table', k, s, b)
    requires |data'| == |data|
    requires forall c: nat | c !in owner || owner[c].slot.Loose? :: Blk(data', c) == Blk(data, c)
    ensures Linked(data', table', owner[b := Ref(k, s)])
  {
    var owner' := owner[b := Ref(k, s)];
    assert PtrMoved(data, table, data', table', k, s, b, k, s);
    forall c: nat ensures OwnedBySlot(data', table', owner', c) && ZeroIfUnlinked(data', owner', c) {
      assert OwnedBySlot(data, table, owner, c) && ZeroIfUnlinked(data, owner, c);
      if c in owner {
        assert PtrMoved(data, table, data', table', k, s, b, owner[c].ino, owner[c].slot);
      }
    }
    forall k': nat, s': Slot ensures SlotOwns(data', table', owner', k', s') {
      assert SlotOwns(data, table, owner, k', s') && PtrMoved(data, table, data', table', k, s, b, k', s');
    }
  }

  /** Emptying one slot of inode k whose block is already zero, and giving the block up. */
  lemma UnlinkSlot(data: seq<Block>, table: map<nat, Dinode>, owner: map<nat, Ref>, table': map<nat, Dinode>, k: nat, s: Slot)
    requires Linked(data, table, owner) && k in table && InTree(s) && Ptr(data, table[k], s) != 0
    requires Blk(data, Ptr(data, table[k], s)) == ZERO
    requires OnlyMoved(data, table, data, table', k, s, 0)
    ensures Linked(data, table', owner - {Ptr(data, table[k], s)})
  {
    var b := Ptr(data, table[k], s);
    var owner' := owner - {b};
    assert SlotOwns(data, table, owner, k, s);
    assert PtrMoved(data, table, data, table', k, s, 0, k, s);
    forall c: nat ensures OwnedBySlot(data, table', owner', c) && ZeroIfUnlinked(data, owner', c) {
      assert OwnedBySlot(data, table, owner, c) && ZeroIfUnlinked(data, owner, c);
      if c in owner {
        assert PtrMoved(data, table, data, table', k, s, 0, owner[c].ino, owner[c].slot);
      }
    }
    forall k': nat, s': Slot ensures SlotOwns(data, table', owner', k', s') {
      assert SlotOwns(data, table, owner, k', s') && PtrMoved(data, table, data, table', k, s, 0, k', s');
    }
  }

  /** A slot that gains or loses a zero block leaves every file as it was. */
  lemma ZeroMoveKeepsContent(data: seq<Block>, table: map<nat, Dinode>, data': seq<Block>, table': map<nat, Dinode>,
                             k: nat, s: Slot, b: nat, k': nat)
    requires OnlyMoved(data, table, data', table', k, s, b) && k in table && k' in table && InTree(s)
    requires Blk(data, Ptr(data, table[k], s)) == ZERO && Blk(data', b) == ZERO
    requires forall n: nat | n < MAX_BLOCK_NR :: Blk(data', Phys(data, table[k'], n)) == Blk(data, Phys(data, table[k'], n))
    ensures SameContent(data, table[k'], data', table'[k'])
  {
    forall n: nat | n < MAX_BLOCK_NR ensures BlockOf(data', table'[k'], n) == BlockOf(data, table[k'], n) {
      assert PtrMoved(data, table, data', table', k, s, b, k', DataSlot(n));
    }
  }

  /** The slots whose block number is a field of the inode. */
  predicate IsTop(s: Slot) {
    s.Direct? || s.Indirect? || s.DoubleIndirect?
  }

  function SetTop(d: Dinode, s: Slot, b: nat): Dinode
    requires InTree(s) && IsTop(s)
  {
    match s
    case Direct(i) => d.(direct := d.direct[i := b])
    case Indirect => d.(indirect := b)
    case DoubleIndirect => d.(dindirect := b)
  }

  /** Changing a field of the inode between two zero blocks (or none) moves no other pointer. */
  lemma SetTopMoves(data: seq<Block>, table: map<nat, Dinode>, k: nat, s: Slot, b: nat)
    requires k in table && InTree(s) && IsTop(s)
    requires Blk(data, Ptr(data, table[k], s)) == ZERO && Blk(data, b) == ZERO
    ensures OnlyMoved(data, table, data, table[k := SetTop(table[k], s, b)], k, s, b)
  {
    var table' := table[k := SetTop(table[k], s, b)];
    forall k': nat, s': Slot ensures PtrMoved(data, table, data, table', k, s, b, k', s') {
      if s'.Single? || s'.Middle? || s'.Leaf? {
        if s'.i < NR_INDIRECT_BLOCKS {
          ZeroWord(s'.i);
        }
      }
    }
  }

  /** Linking a loose block from a field of the inode. The block is zero, so it brings no further pointers. */
  lemma LinkTop(data: seq<Block>, table: map<nat, Dinode>, owner: map<nat, Ref>, k: nat, s: Slot, b: nat)
    requires Linked(data, table, owner) && k in table && b in owner && owner[b] == Ref(k, Loose)
    requires InTree(s) && IsTop(s) && Ptr(data, table[k], s) == 0
    ensures var table' := table[k := SetTop(table[k], s, b)];
            && Linked(data, table', owner[b := Ref(k, s)])
            && OnlyMoved(data, table, data, table', k, s, b)
            && (forall k' | k' in table :: SameContent(data, table[k'], data, table'[k']))
  {
    assert ZeroIfUnlinked(data, owner, b);
    var table' := table[k := SetTop(table[k], s, b)];
    SetTopMoves(data, table, k, s, b);
    LinkSlot(data, table, owner, data, table', k, s, b);
    forall k' | k' in table ensures SameContent(data, table[k'], data, table'[k']) {
      ZeroMoveKeepsContent(data, table, data, table', k, s, b, k');
    }
  }

  /** Unlinking an index block that is still empty undoes LinkTop. */
  lemma UnlinkTop(data: seq<Block>, table: map<nat, Dinode>, owner: map<nat, Ref>, k: nat, s: Slot)
    requires Linked(data, table, owner) && k in table && InTree(s) && IsTop(s)
    requires Ptr(data, table[k], s) != 0 && Blk(data, Ptr(data, table[k], s)) == ZERO
    ensures var table' := table[k := SetTop(table[k], s, 0)];
            && Linked(data, table', owner - {Ptr(data, table[k], s)})
            && OnlyMoved(data, table, data, table', k, s, 0)
            && (forall k' | k' in table :: SameContent(data, table[k'], data, table'[k']))
  {
    var table' := table[k := SetTop(table[k], s, 0)];
    SetTopMoves(data, table, k, s, 0);
    UnlinkSlot(data, table, owner, table', k, s);
    forall k' | k' in table ensures SameContent(data, table[k'], data, table'[k']) {
      ZeroMoveKeepsContent(data, table, data, table', k, s, 0, k');
    }
  }

  predicate IsIndex(s: Slot) {
    s.Indirect? || s.DoubleIndirect? || s.Middle?
  }

  /** The slot for entry i of the index block that slot `parent` points to. */
  function Child(parent: Slot, i: nat): Slot
    requires IsIndex(parent)
  {
    match parent
    case Indirect => Single(i)
    case DoubleIndirect => Middle(i)
    case Middle(m) => Leaf(m, i)
  }

  /** The data region after writing word i of the index block at slot `parent` of inode d. */
  function PutWord(data: seq<Block>, d: Dinode, parent: Slot, i: nat, b: nat): seq<Block>
    requires InTree(parent) && IsIndex(parent) && InData(data, Ptr(data, d, parent))
    requires i < NR_INDIRECT_BLOCKS && b < WORD_LIMIT
  {
    var p := Ptr(data, d, parent);
    Put(data, p, SetWord(Blk(data, p), i, b))
  }

  lemma EntryAfterPut(data: seq<Block>, p: nat, i: nat, b: nat, q: nat, j: nat)
    requires InData(data, p) && i < NR_INDIRECT_BLOCKS && j < NR_INDIRECT_BLOCKS && b < WORD_LIMIT
    ensures Entry(Put(data, p, SetWord(Blk(data, p), i, b)), q, j) == if q == p && j == i then b else Entry(data, q, j)
  {
    WordOfSetWord(Blk(data, p), i, b, j);
  }

  /** Writing one word of an index block changes the pointer of that one slot, if the block written there is zero. */
  lemma PutWordMoves(data: seq<Block>, table: map<nat, Dinode>, owner: map<nat, Ref>, k: nat, parent: Slot, i: nat, b: nat, k': nat,
                     s': Slot)
    requires Linked(data, table, owner) && k in table && b in owner && owner[b] == Ref(k, Loose) && b < WORD_LIMIT
    requires IsIndex(parent) && InTree(parent) && i < NR_INDIRECT_BLOCKS
    requires InData(data, Ptr(data, table[k], parent)) && Ptr(data, table[k], Child(parent, i)) == 0
    ensures PtrMoved(data, table, PutWord(data, table[k], parent, i, b), table, k, Child(parent, i), b, k', s')
  {
    if k' in table && InTree(s') {
      var p, d := Ptr(data, table[k], parent), table[k'];
      assert SlotOwns(data, table, owner, k, parent);
      match s'
      case Direct(_) =>
      case Indirect =>
      case DoubleIndirect =>
      case Single(j) =>
        assert SlotOwns(data, table, owner, k', Indirect);
        EntryAfterPut(data, p, i, b, d.indirect, j);
      case Middle(j) =>
        assert SlotOwns(data, table, owner, k', DoubleIndirect);
        EntryAfterPut(data, p, i, b, d.dindirect, j);
      case Leaf(m, j) =>
        assert SlotOwns(data, table, owner, k', DoubleIndirect);
        assert SlotOwns(data, table, owner, k', Middle(m));
        EntryAfterPut(data, p, i, b, d.dindirect, m);
        EntryAfterPut(data, p, i, b, Entry(data, d.dindirect, m), j);
        EntryAfterPut(data, p, i, b, b, j);
        assert ZeroIfUnlinked(data, owner, b);
        ZeroWord(j);
    }
  }

  /** Linking a loose block from entry i of an index block, by writing that one word. */
  lemma LinkWord(data: seq<Block>, table: map<nat, Dinode>, owner: map<nat, Ref>, k: nat, parent: Slot, i: nat, b: nat)
    requires Linked(data, table, owner) && k in table && b in owner && owner[b] == Ref(k, Loose) && b < WORD_LIMIT
    requires IsIndex(parent) && InTree(parent) && i < NR_INDIRECT_BLOCKS
    requires Ptr(data, table[k], parent) != 0 && Ptr(data, table[k], Child(parent, i)) == 0
    ensures InData(data, Ptr(data, table[k], parent))
    ensures var data' := PutWord(data, table[k], parent, i, b); var s := Child(parent, i);
            && Linked(data', table, owner[b := Ref(k, s)])
            && OnlyMoved(data, table, data', table, k, s, b)
            && (forall k' | k' in table :: SameContent(data, table[k'], data', table[k']))
  {
    var p, s := Ptr(data, table[k], parent), Child(parent, i);
    assert SlotOwns(data, table, owner, k, parent);
    assert OwnedBySlot(data, table, owner, p) && ZeroIfUnlinked(data, owner, b);
    var data' := PutWord(data, table[k], parent, i, b);
    forall k': nat, s': Slot ensures PtrMoved(data, table, data', table, k, s, b, k', s') {
      PutWordMoves(data, table, owner, k, parent, i, b, k', s');
    }
    LinkSlot(data, table, owner, data', table, k, s, b);
    forall k' | k' in table ensures SameContent(data, table[k'], data', table[k']) {
      forall n: nat | n < MAX_BLOCK_NR ensures Blk(data', Phys(data, table[k'], n)) == Blk(data, Phys(data, table[k'], n)) {
        assert SlotOwns(data, table, owner, k', DataSlot(n));
      }
      ZeroMoveKeepsContent(data, table, data', table, k, s, b, k');
    }
  }

  // ---------------------------------------------------------------- allocation

  /** A freshly allocated block starts out loose. */
  lemma AddLoose(data: seq<Block>, table: map<nat, Dinode>, owner: map<nat, Ref>, k: nat, b: nat)
    requires Linked(data, table, owner) && k in table && InData(data, b) && b !in owner
    ensures Linked(data, table, owner[b := Ref(k, Loose)])
  {
    var owner' := owner[b := Ref(k, Loose)];
    forall c: nat ensures OwnedBySlot(data, table, owner', c) && ZeroIfUnlinked(data, owner', c) {
      assert OwnedBySlot(data, table, owner, c) && ZeroIfUnlinked(data, owner, c);
    }
    forall k': nat, s': Slot ensures SlotOwns(data, table, owner', k', s') {
      assert SlotOwns(data, table, owner, k', s');
    }
  }

  /** A loose block can be given back. */
  lemma DropLoose(data: seq<Block>, table: map<nat, Dinode>, owner: map<nat, Ref>, b: nat)
    requires Linked(data, table, owner) && b in owner && owner[b].slot.Loose?
    ensures Linked(data, table, owner - {b})
  {
    var owner' := owner - {b};
    forall c: nat ensures OwnedBySlot(data, table, owner', c) && ZeroIfUnlinked(data, owner', c) {
      assert OwnedBySlot(data, table, owner, c) && ZeroIfUnlinked(data, owner, c) && ZeroIfUnlinked(data, owner, b);
    }
    forall k': nat, s': Slot ensures SlotOwns(data, table, owner', k', s') {
      assert SlotOwns(data, table, owner, k', s');
    }
  }
}
