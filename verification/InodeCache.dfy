/** The reference-counted table of in-memory inodes over the inode blocks of the device. */
module InodeCaches {
  import opened Blocks
  import opened BlockTree
  import opened Errors
  import opened Bitmaps
  import opened Volumes
  import opened Inodes
  import opened WriteCosts
  import opened ReadWrite
  import opened Reclaim
  import opened FileTheorems
  import opened SoundFiles

  const DINODE_WORDS: nat := 16
  const INODES_PER_BLOCK: nat := 128
  const NR_INODES: nat := NR_INODE_BLOCKS * INODES_PER_BLOCK

  // ---------------------------------------------------------------- inodes on disk

  function TypeCode(t: InodeType): nat {
    match t case I_NONE => 0 case I_FILE => 1 case I_DIR => 2
  }

  function TypeOf(w: nat): InodeType {
    if w == 1 then I_FILE else if w == 2 then I_DIR else I_NONE
  }

  /** The fields of the inode fit the fields of the structure on disk. */
  predicate Fits(d: Dinode) {
    && (forall i | 0 <= i < NR_DIRECT_BLOCKS :: d.direct[i] < WORD_LIMIT)
    && d.indirect < WORD_LIMIT && d.dindirect < WORD_LIMIT && 0 <= d.blockCount < WORD_LIMIT
    && d.size < WORD_LIMIT * WORD_LIMIT
  }

  /** The sixteen words of an inode on disk. */
  function DinodeWords(d: Dinode): (ws: seq<nat>)
    requires Fits(d)
    ensures |ws| == DINODE_WORDS && forall i | 0 <= i < DINODE_WORDS :: ws[i] < WORD_LIMIT
  {
    [TypeCode(d.itype)] + d.direct + [d.indirect, d.dindirect, d.blockCount, d.size % WORD_LIMIT, d.size / WORD_LIMIT]
  }

  function DinodeOf(ws: seq<nat>): Dinode
    requires |ws| == DINODE_WORDS
  {
    Dinode(TypeOf(ws[0]), ws[1..11], ws[11], ws[12], ws[13], ws[14] + WORD_LIMIT * ws[15])
  }

  lemma DinodeRoundTrip(d: Dinode)
    requires Fits(d)
    ensures DinodeOf(DinodeWords(d)) == d
  {
    var ws := DinodeWords(d);
    assert ws[1..11] == d.direct;
    assert ws[14] == d.size % WORD_LIMIT && ws[15] == d.size / WORD_LIMIT;
  }

  /** n consecutive words of a block. */
  function WordsFrom(b: Block, base: nat, n: nat): (ws: seq<nat>)
    requires base + n <= NR_INDIRECT_BLOCKS
    ensures |ws| == n && forall i | 0 <= i < n :: ws[i] == Word(b, base + i)
  {
    if n == 0 then [] else WordsFrom(b, base, n - 1) + [Word(b, base + n - 1)]
  }

  /** The first word of slot nr within its block. */
  function SlotBase(nr: nat): (base: nat)
    ensures base + DINODE_WORDS <= NR_INDIRECT_BLOCKS
  {
    nr % INODES_PER_BLOCK * DINODE_WORDS
  }

  /** The inode stored in slot nr of the inode blocks. */
  function DiskInode(inodeBlocks: seq<Block>, nr: nat): Dinode
    requires |inodeBlocks| == NR_INODE_BLOCKS && nr < NR_INODES
  {
    DinodeOf(WordsFrom(inodeBlocks[nr / INODES_PER_BLOCK], SlotBase(nr), DINODE_WORDS))
  }

  lemma DiskInodeIs(inodeBlocks: seq<Block>, nr: nat)
    requires |inodeBlocks| == NR_INODE_BLOCKS && nr < NR_INODES
    ensures DiskInode(inodeBlocks, nr) == DinodeOf(WordsFrom(inodeBlocks[nr / INODES_PER_BLOCK], SlotBase(nr), DINODE_WORDS))
  {}

  /** The inode block with slot nr overwritten. */
  function SlotWritten(b: Block, nr: nat, d: Dinode): Block
    requires Fits(d)
  {
    SetWords(b, SlotBase(nr), DinodeWords(d))
  }

  /** Within one block, writing slot nr stores the inode there and leaves every other slot alone. */
  lemma SlotAfterWrite(b: Block, nr: nat, d: Dinode, nr': nat)
    requires Fits(d) && nr / INODES_PER_BLOCK == nr' / INODES_PER_BLOCK
    ensures WordsFrom(SlotWritten(b, nr, d), SlotBase(nr'), DINODE_WORDS) ==
            if nr' == nr then DinodeWords(d) else WordsFrom(b, SlotBase(nr'), DINODE_WORDS)
  {
    hide WordsFrom, DinodeWords, SetWords, Word;
    var ws := WordsFrom(SlotWritten(b, nr, d), SlotBase(nr'), DINODE_WORDS);
    var expected := if nr' == nr then DinodeWords(d) else WordsFrom(b, SlotBase(nr'), DINODE_WORDS);
    assert nr' != nr ==> SlotBase(nr') + DINODE_WORDS <= SlotBase(nr) || SlotBase(nr) + DINODE_WORDS <= SlotBase(nr');
    forall i | 0 <= i < DINODE_WORDS ensures ws[i] == expected[i] {
      WordOfSetWords(b, SlotBase(nr), DinodeWords(d), SlotBase(nr') + i);
    }
  }

  /** Writing slot nr stores the inode there and leaves every other slot on the device alone. */
  lemma DiskInodeAfterWrite(inodeBlocks: seq<Block>, nr: nat, d: Dinode, nr': nat)
    requires |inodeBlocks| == NR_INODE_BLOCKS && nr < NR_INODES && nr' < NR_INODES && Fits(d)
    ensures var r := nr / INODES_PER_BLOCK;
            DiskInode(inodeBlocks[r := SlotWritten(inodeBlocks[r], nr, d)], nr') == if nr' == nr then d else DiskInode(inodeBlocks, nr')
  {
    var r := nr / INODES_PER_BLOCK;
    if nr' / INODES_PER_BLOCK == r {
      SlotAfterWrite(inodeBlocks[r], nr, d, nr');
      DinodeRoundTrip(d);
    }
  }

  /** A slot of zeros is a free inode. */
  lemma ZeroSlot(inodeBlocks: seq<Block>, nr: nat)
    requires |inodeBlocks| == NR_INODE_BLOCKS && nr < NR_INODES && inodeBlocks[nr / INODES_PER_BLOCK] == ZERO
    ensures DiskInode(inodeBlocks, nr) == FREE_DINODE
  {
    var ws := WordsFrom(ZERO, SlotBase(nr), DINODE_WORDS);
    forall i | 0 <= i < DINODE_WORDS ensures ws[i] == 0 {
      ZeroWord(SlotBase(nr) + i);
    }
    assert ws[1..11] == FREE_DINODE.direct;
  }

  // ---------------------------------------------------------------- the cache

  class InodeCache {
    const sb: Volume
    /** The hash table, as a map from inode numbers to in-memory inodes. */
    var hash: map<nat, Inode>
    /** The references handed out by GetInode and CreateInode and not put back yet. */
    ghost var outstanding: multiset<nat>
    /** Inodes whose size a failed write changed without marking them dirty. */
    ghost var stale: set<nat>

    /** One in-memory inode per cached number, counted as often as it is referenced. */
    ghost predicate CachedRight(nr: nat)
      reads this, sb, hash.Values
    {
      if nr in hash
      then hash[nr].sb == sb && hash[nr].nr == nr < NR_INODES && nr in sb.table && sb.table[nr] == hash[nr].din
           && hash[nr].count == outstanding[nr] > 0
      else outstanding[nr] == 0
    }

    /** Unless its in-memory copy is dirty, the inode's slot on the device holds its value, except for the size of a stale one. */
    ghost predicate StoredRight(nr: nat)
      requires |sb.dev| == NR_DEVICE_BLOCKS
      reads this, sb, hash.Values
    {
      nr < NR_INODES ==>
        && nr in sb.table
        && (nr in stale ==> nr in hash && !hash[nr].dirty && sb.table[nr] == DiskInode(sb.InodeBlocks(), nr).(size := sb.table[nr].size))
        && (nr !in stale ==> InSync(nr))
    }

    /** The inode is dirty in memory, or its slot on the device holds its value. */
    ghost predicate InSync(nr: nat)
      requires |sb.dev| == NR_DEVICE_BLOCKS
      reads this, sb, hash.Values
    {
      nr < NR_INODES ==> nr in sb.table && ((nr in hash && hash[nr].dirty) || DiskInode(sb.InodeBlocks(), nr) == sb.table[nr])
    }

    /** No change to an inode will be lost. */
    ghost predicate Coherent()
      requires |sb.dev| == NR_DEVICE_BLOCKS
      reads this, sb, hash.Values
    {
      forall nr: nat :: InSync(nr)
    }

    /** An unallocated inode number stands for an inode without blocks. */
    ghost predicate FreeRight(nr: nat)
      requires sb.Valid()
      reads this, sb, sb.inodeFreemap.v, sb.blockFreemap.v
    {
      nr !in sb.inodeFreemap.Bits() ==> nr !in stale && (nr in sb.table ==> sb.table[nr] == FREE_DINODE)
    }

    ghost predicate Consistent()
      reads this, sb, sb.inodeFreemap.v, sb.blockFreemap.v, hash.Values
    {
      && sb.Valid() && Linked(sb.Data(), sb.table, sb.owner) && Counted(sb.table, sb.owner) && LooseBlocks(sb.owner) == {}
      && (forall nr: nat :: nr in sb.table <==> nr < NR_INODES)
      && (forall nr: nat :: CachedRight(nr))
      && (forall nr: nat :: FreeRight(nr))
    }

    ghost predicate Valid()
      reads this, sb, sb.inodeFreemap.v, sb.blockFreemap.v, hash.Values
    {
      Consistent() && forall nr: nat :: StoredRight(nr)
    }

    constructor (sb: Volume)
      requires sb.Valid() && Linked(sb.Data(), sb.table, sb.owner) && Counted(sb.table, sb.owner) && LooseBlocks(sb.owner) == {}
      requires forall nr: nat :: nr in sb.table <==> nr < NR_INODES
      requires forall nr: nat | nr < NR_INODES :: DiskInode(sb.InodeBlocks(), nr) == sb.table[nr]
      requires forall nr: nat | nr < NR_INODES && nr !in sb.inodeFreemap.Bits() :: sb.table[nr] == FREE_DINODE
      ensures Valid() && Coherent() && this.sb == sb && hash == map[] && outstanding == multiset{} && stale == {}
    {
      this.sb := sb;
      hash := map[];
      outstanding := multiset{};
      stale := {};
    }

    /** No two numbers share an in-memory inode. */
    twostate lemma CachedApart(nr: nat)
      requires old(Consistent()) && nr in old(hash)
      ensures forall k | k in old(hash) && k != nr :: old(hash)[k] != old(hash)[nr]
    {
      forall k | k in old(hash) && k != nr ensures old(hash)[k] != old(hash)[nr] {
        assert old(CachedRight(k)) && old(CachedRight(nr));
      }
    }

    /** Every cached inode can be read and written. */
    lemma CachedReady(inode: Inode)
      requires Consistent() && inode.nr in hash && hash[inode.nr] == inode
      ensures inode.Ready() && inode.sb == sb && inode.nr < NR_INODES
    {
      assert CachedRight(inode.nr);
    }

    /** Nothing is lost unless there are stale inodes. */
    lemma NotStale()
      requires Valid() && stale == {}
      ensures Coherent()
    {
      forall nr: nat ensures InSync(nr) {
        assert StoredRight(nr);
      }
    }

    /** Hands out a reference to inode nr, reading it from the device if it is not in memory. */
    method GetInode(nr: nat) returns (inode: Inode)
      requires Valid() && nr < NR_INODES
      modifies this`hash, this`outstanding, hash.Values`count
      ensures Valid() && outstanding == old(outstanding) + multiset{nr}
      ensures nr in hash && hash[nr] == inode && inode.din == sb.table[nr]
      ensures if nr in old(hash) then hash == old(hash) else fresh(inode) && hash == old(hash)[nr := inode] && !inode.dirty
    {
      hide Linked, Counted, LooseBlocks, Volumes.Consistent, Marked, TailMarked, DiskInode, DinodeOf, WordsFrom, SlotBase;
      assert CachedRight(nr) && StoredRight(nr);
      if nr in hash {
        inode := hash[nr];
        inode.count := inode.count + 1;
      } else {
        var block := sb.ReadBlock(INODE_BLOCKS_START + nr / INODES_PER_BLOCK);
        DiskInodeIs(sb.InodeBlocks(), nr);
        inode := new Inode(sb, nr, DinodeOf(WordsFrom(block, SlotBase(nr), DINODE_WORDS)));
        hash := hash[nr := inode];
      }
      outstanding := outstanding + multiset{nr};
      forall k: nat ensures CachedRight(k) { assert old(CachedRight(k)); }
      forall k: nat ensures FreeRight(k) { assert old(FreeRight(k)); }
      forall k: nat ensures StoredRight(k) { assert old(StoredRight(k)); }
    }

    /** Writes a dirty inode to its slot; no other slot changes. */
    method SyncInode(inode: Inode)
      requires Valid() && inode.nr in hash && hash[inode.nr] == inode && inode.din.size < WORD_LIMIT * WORD_LIMIT
      modifies inode`dirty, sb`dev
      ensures Valid() && !inode.dirty && sb.Data() == old(sb.Data()) && (!old(inode.dirty) ==> sb.dev == old(sb.dev))
      ensures inode.nr < NR_INODES && (inode.nr !in stale ==> DiskInode(sb.InodeBlocks(), inode.nr) == inode.din)
      ensures forall k: nat | k < NR_INODES && k != inode.nr :: DiskInode(sb.InodeBlocks(), k) == DiskInode(old(sb.InodeBlocks()), k)
    {
      hide Linked, Counted, LooseBlocks, Volumes.Consistent, DiskInode, Marked, TailMarked;
      assert CachedRight(inode.nr) && StoredRight(inode.nr);
      if !inode.dirty {
        return;
      }
      InodeFits(sb, inode.nr);
      var r := inode.nr / INODES_PER_BLOCK;
      var block := sb.ReadBlock(INODE_BLOCKS_START + r);
      assert block == sb.InodeBlocks()[r];
      sb.WriteInodeBlock(r, SlotWritten(block, inode.nr, inode.din));
      inode.dirty := false;
      forall k: nat ensures CachedRight(k) && StoredRight(k) && FreeRight(k) {
        assert old(CachedRight(k)) && old(StoredRight(k)) && old(FreeRight(k));
        if k < NR_INODES {
          DiskInodeAfterWrite(old(sb.InodeBlocks()), inode.nr, inode.din, k);
        }
      }
      forall k: nat | k < NR_INODES ensures DiskInode(sb.InodeBlocks(),
                                                      k) == if k == inode.nr then inode.din else DiskInode(old(sb.InodeBlocks()), k) {
        DiskInodeAfterWrite(old(sb.InodeBlocks()), inode.nr, inode.din, k);
      }
    }

    /** Takes back a reference to a clean inode, and forgets the in-memory inode with the last one; the size of a stale one is lost. */
    method PutInode(inode: Inode)
      requires Valid() && inode.nr in hash && hash[inode.nr] == inode && !inode.dirty
      modifies this, inode`count, sb`table
      ensures Valid() && outstanding == old(outstanding) - multiset{inode.nr}
      ensures hash == if old(outstanding)[inode.nr] == 1 then old(hash) - {inode.nr} else old(hash)
      ensures if inode.nr in old(stale) && inode.nr !in hash
              then inode.nr < NR_INODES && stale == old(stale) - {inode.nr}
                   && sb.table == old(sb.table)[inode.nr := DiskInode(sb.InodeBlocks(), inode.nr)]
              else stale == old(stale) && sb.table == old(sb.table)
    {
      hide Linked, Counted, LooseBlocks, Volumes.Consistent, DiskInode, Marked, TailMarked;
      assert CachedRight(inode.nr) && StoredRight(inode.nr) && FreeRight(inode.nr);
      inode.count := inode.count - 1;
      if inode.count == 0 {
        hash := hash - {inode.nr};
        if inode.nr in stale {
          ghost var d := DiskInode(sb.InodeBlocks(), inode.nr);
          SamePointersLinked(sb.Data(), sb.table, sb.owner, inode.nr, d);
          CountSame(sb.table, sb.owner, inode.nr, d);
          sb.table := sb.table[inode.nr := d];
          stale := stale - {inode.nr};
        }
      }
      outstanding := outstanding - multiset{inode.nr};
      CachedApart(inode.nr);
      PutKeepsValid(inode);
    }

    /** One reference less, and with the last one the in-memory inode is gone. */
    twostate lemma PutKeepsValid(inode: Inode)
      requires old(Valid()) && inode.nr in old(hash) && old(hash)[inode.nr] == inode && !inode.dirty && inode.din == old(inode.din)
      requires old(inode.count) > 0 && inode.count == old(inode.count) - 1 && outstanding == old(outstanding) - multiset{inode.nr}
      requires hash == if inode.count == 0 then old(hash) - {inode.nr} else old(hash)
      requires forall k | k in old(hash) && k != inode.nr :: unchanged(old(hash)[k])
      requires sb.Valid() && Linked(sb.Data(), sb.table, sb.owner) && Counted(sb.table, sb.owner) && LooseBlocks(sb.owner) == {}
      requires sb.dev == old(sb.dev) && sb.inodeFreemap.Bits() == old(sb.inodeFreemap.Bits()) && inode.dirty == old(inode.dirty)
      requires inode.nr < NR_INODES
      requires if inode.count == 0 && inode.nr in old(stale)
               then stale == old(stale) - {inode.nr} && sb.table == old(sb.table)[inode.nr := DiskInode(sb.InodeBlocks(), inode.nr)]
               else stale == old(stale) && sb.table == old(sb.table)
      ensures Valid()
    {
      hide Linked, Counted, LooseBlocks, Volumes.Consistent, DiskInode, Marked, TailMarked;
      assert old(CachedRight(inode.nr)) && old(StoredRight(inode.nr)) && old(FreeRight(inode.nr));
      forall k: nat ensures CachedRight(k) { assert old(CachedRight(k)); }
      forall k: nat ensures FreeRight(k) { assert old(FreeRight(k)); }
      forall k: nat ensures StoredRight(k) { assert old(CachedRight(k)) && old(StoredRight(k)); }
    }

    /** Allocating an inode number, or giving one back that stands for a free inode, keeps the cache valid. */
    twostate lemma FreemapChanged()
      requires old(Valid()) && sb.Valid() && unchanged(this) && unchanged(hash.Values)
      requires sb.table == old(sb.table) && sb.owner == old(sb.owner)
      requires sb.Data() == old(sb.Data()) && sb.InodeBlocks() == old(sb.InodeBlocks())
      requires forall nr: nat | nr !in sb.inodeFreemap.Bits() ::
                 nr !in old(sb.inodeFreemap.Bits()) || (nr !in stale && (nr in sb.table ==> sb.table[nr] == FREE_DINODE))
      ensures Valid()
    {
      hide Linked, Counted, LooseBlocks, Volumes.Consistent, Marked, TailMarked, DiskInode;
      forall k: nat ensures CachedRight(k) { assert old(CachedRight(k)); }
      forall k: nat ensures FreeRight(k) { assert old(FreeRight(k)); }
      forall k: nat ensures StoredRight(k) { assert old(StoredRight(k)); }
    }

    /** A change to one cached inode and its blocks keeps the cache valid if it leaves the inode dirty, or changes only its size. */
    twostate lemma InodeChanged(inode: Inode)
      requires old(Valid()) && inode.nr in old(hash) && old(hash)[inode.nr] == inode && unchanged(this`hash, this`outstanding)
      requires forall k | k in old(hash) && k != inode.nr :: unchanged(hash[k])
      requires inode.count == old(inode.count) && inode.nr in sb.inodeFreemap.Bits()
      requires sb.inodeFreemap.Bits() == old(sb.inodeFreemap.Bits())
      requires sb.Valid() && Linked(sb.Data(), sb.table, sb.owner) && Counted(sb.table, sb.owner) && LooseBlocks(sb.owner) == {}
      requires sb.InodeBlocks() == old(sb.InodeBlocks()) && sb.table.Keys == old(sb.table).Keys
      requires inode.nr in sb.table && sb.table[inode.nr] == inode.din
      requires forall k | k in sb.table && k != inode.nr :: sb.table[k] == old(sb.table)[k]
      requires inode.dirty || (inode.din == old(inode.din).(size := inode.din.size) && !old(inode.dirty))
      requires stale == if inode.dirty then old(stale) - {inode.nr}
                        else if inode.din.size != old(inode.din.size) then old(stale) + {inode.nr} else old(stale)
      ensures Valid()
      ensures old(Coherent()) ==> (Coherent() <==> inode.dirty || inode.din.size == old(inode.din.size))
    {
      hide Linked, Counted, LooseBlocks, Volumes.Consistent, Marked, TailMarked, DiskInode;
      assert old(CachedRight(inode.nr)) && old(StoredRight(inode.nr)) && old(InSync(inode.nr)) == old(InSync(inode.nr));
      forall k: nat ensures CachedRight(k) && FreeRight(k) { assert old(CachedRight(k)) && old(FreeRight(k)); }
      forall k: nat ensures StoredRight(k) && (k != inode.nr ==> InSync(k) == old(InSync(k))) {
        assert old(CachedRight(k)) && old(StoredRight(k));
      }
      if old(Coherent()) {
        assert old(InSync(inode.nr));
        assert InSync(inode.nr) <==> inode.dirty || inode.din.size == old(inode.din.size);
      }
    }

    /** Gives a new inode its type. */
    method SetType(inode: Inode, t: InodeType)
      requires Valid() && inode.nr in hash && hash[inode.nr] == inode && inode.nr in sb.inodeFreemap.Bits()
      modifies inode`din, inode`dirty, sb`table, this`stale
      ensures Valid() && stale == old(stale) - {inode.nr} && inode.dirty
      ensures inode.din == old(inode.din).(itype := t) && sb.table == old(sb.table)[inode.nr := inode.din]
    {
      hide LooseBlocks, Volumes.Consistent, Marked, TailMarked, DiskInode, Linked, Counted;
      assert CachedRight(inode.nr);
      ghost var d := inode.din.(itype := t);
      SamePointersLinked(sb.Data(), sb.table, sb.owner, inode.nr, d);
      CountSame(sb.table, sb.owner, inode.nr, d);
      inode.din := inode.din.(itype := t);
      inode.dirty := true;
      stale := stale - {inode.nr};
      sb.table := sb.table[inode.nr := inode.din];
      CachedApart(inode.nr);
      InodeChanged(inode);
    }

    /** Brings the newly allocated inode nr into memory and gives it its type. */
    method OccupyInode(nr: nat, t: InodeType) returns (inode: Inode)
      requires Valid() && nr < NR_INODES && nr in sb.inodeFreemap.Bits() && nr in sb.table && sb.table[nr] == FREE_DINODE && nr !in stale
      modifies this, hash.Values, sb`table
      ensures Valid() && stale == old(stale) && outstanding == old(outstanding) + multiset{nr}
      ensures inode.nr == nr && inode.din == FREE_DINODE.(itype := t) && inode.dirty && sb.table == old(sb.table)[nr := inode.din]
      ensures nr in hash && hash[nr] == inode && if nr in old(hash) then hash == old(hash) else fresh(inode)
      ensures hash == old(hash)[nr := inode]
      ensures forall k | k in old(hash) && k != nr :: k in hash && hash[k].din == old(hash[k].din) && hash[k].dirty == old(hash[k].dirty)
    {
      hide Linked, Counted, LooseBlocks, Volumes.Consistent, Marked, TailMarked, DiskInode;
      inode := GetInode(nr);
      assert CachedRight(nr);
      if nr in old(hash) {
        CachedApart(nr);
      }
      SetType(inode, t);
    }

    /** Creates an inode with the lowest free number; fails exactly when all inodes are taken. */
    method CreateInode(t: InodeType) returns (ret: int, inode: Inode?)
      requires Valid()
      modifies this, hash.Values, sb`dev, sb`usedInodeCount, sb`table, sb.inodeFreemap.v
      ensures Valid() && sb.owner == old(sb.owner) && sb.Data() == old(sb.Data()) && stale == old(stale)
      ensures old(AllSound(sb.Data(), sb.table)) ==> AllSound(sb.Data(), sb.table)
      ensures ret < 0 <==> forall i: nat | i < NR_INODES :: i in old(sb.inodeFreemap.Bits())
      ensures forall k | k in old(hash) && (inode == null || k != inode.nr) ::
                k in hash && hash[k].din == old(hash[k].din) && hash[k].dirty == old(hash[k].dirty)
      ensures ret < 0 ==> ret == -ENOSPC && inode == null && hash == old(hash) && outstanding == old(outstanding)
                          && sb.table == old(sb.table) && sb.inodeFreemap.Bits() == old(sb.inodeFreemap.Bits())
      ensures ret >= 0 ==>
                && inode != null && inode.nr < NR_INODES && inode.nr !in old(sb.inodeFreemap.Bits())
                && inode.nr in old(sb.table) && old(sb.table)[inode.nr] == FREE_DINODE
                && (forall i: nat | i < inode.nr :: i in old(sb.inodeFreemap.Bits()))
                && sb.inodeFreemap.Bits() == old(sb.inodeFreemap.Bits()) + {inode.nr}
                && inode.din == FREE_DINODE.(itype := t) && inode.dirty && sb.table == old(sb.table)[inode.nr := inode.din]
                && inode.nr in hash && hash[inode.nr] == inode && outstanding == old(outstanding) + multiset{inode.nr}
                && (if inode.nr in old(hash) then hash == old(hash) else fresh(inode) && hash == old(hash)[inode.nr := inode])
    {
      hide Linked, Counted, LooseBlocks, Volumes.Consistent, Marked, TailMarked, DiskInode, Covered, Sound, AllSound;
      inode := null;
      var nr := sb.GetInodeFreemap();
      if nr < 0 {
        FreemapChanged();
        return nr, null;
      }
      assert old(FreeRight(nr));
      if nr / INODES_PER_BLOCK >= NR_INODE_BLOCKS {
        sb.PutInodeFreemap(nr);
        FreemapChanged();
        return -ENOSPC, null;
      }
      FreemapChanged();
      inode := OccupyInode(nr, t);
      if old(AllSound(sb.Data(), sb.table)) {
        FreeSound(sb.Data(), inode.din);
        TypeKeepsSound(sb.Data(), old(sb.table), sb.table, nr);
      }
      ret := 0;
    }

    /**
     * Removes an inode and frees its blocks. The assertions on the way hold exactly if its size covers its blocks, see
     * Reclaim.ReclaimsAllIffCovered.
     */
    method RemoveInode(inode: Inode) returns (ok: bool)
      requires Valid() && inode.nr in hash && hash[inode.nr] == inode && inode.nr in sb.inodeFreemap.Bits()
      modifies this, inode, sb`dev, sb`usedInodeCount, sb`usedBlockCount, sb`owner, sb`table, sb.inodeFreemap.v, sb.blockFreemap.v
      ensures ok <==> old(Covered(sb.Data(), inode.din))
      ensures ok ==>
                && Valid() && outstanding == old(outstanding) - multiset{inode.nr} && stale == old(stale) - {inode.nr}
                && sb.inodeFreemap.Bits() == old(sb.inodeFreemap.Bits()) - {inode.nr}
                && sb.table == old(sb.table)[inode.nr := FREE_DINODE]
                && OthersSame(old(sb.Data()), old(sb.table), sb.Data(), sb.table, inode.nr)
                && (old(AllSound(sb.Data(), sb.table)) ==> AllSound(sb.Data(), sb.table))
                && hash == if old(outstanding)[inode.nr] == 1 then old(hash) - {inode.nr} else old(hash)
    {
      hide Linked, Counted, LooseBlocks, Volumes.Consistent, Marked, TailMarked, DiskInode, Covered, Sound, AllSound, SameContent,
           SamePlaces;
      assert CachedRight(inode.nr);
      ok := EmptyInode(inode);
      if !ok {
        return;
      }
      stale := stale - {inode.nr};
      sb.PutInodeFreemap(inode.nr);
      forall k: nat ensures CachedRight(k) { assert old(CachedRight(k)); }
      forall k: nat ensures FreeRight(k) { assert old(FreeRight(k)); }
      forall k: nat ensures StoredRight(k) { assert old(CachedRight(k)) && old(StoredRight(k)); }
      FreeSound(sb.Data(), FREE_DINODE);
      if old(AllSound(sb.Data(), sb.table)) {
        StillSound(old(sb.Data()), old(sb.table), sb.Data(), sb.table, inode.nr);
      }
      SyncInode(inode);
      PutInode(inode);
    }

    /**
     * Writes to a cached inode. The state before says where the write ends (Outcome), whether the file is still sound
     * (StaysSound) and whether its size is lost (LosesSize): then the inode is stale, and otherwise the cache stays
     * coherent. In a sound state a write that succeeds gives exactly the file's bytes overlaid with the buffer, with
     * zeros in any gap. In any other state it does so exactly if the bytes in the gap were zero.
     */
    method WriteInode(inode: Inode, buf: seq<byte>, start: nat) returns (ret: int, ghost written: nat)
      requires Valid() && inode.nr in hash && hash[inode.nr] == inode && inode.nr in sb.inodeFreemap.Bits()
      modifies inode, sb`dev, sb`usedBlockCount, sb`owner, sb`table, sb.blockFreemap.v, this`stale
      ensures Valid() && sb.InodeBlocks() == old(sb.InodeBlocks())
      ensures Outcome(old(sb.Data()), old(inode.din), old(inode.dirty), old(sb.FreeBlocks()), start, |buf|, ret, written,
                      inode.din, inode.dirty, sb.FreeBlocks())
      ensures var lost := LosesSize(old(sb.Data()), old(inode.din), old(inode.dirty), start, |buf|, old(sb.FreeBlocks()));
              && stale == (if inode.dirty then old(stale) - {inode.nr} else if lost then old(stale) + {inode.nr} else old(stale))
              && (old(Coherent()) ==> (Coherent() <==> !lost))
      ensures old(AllSound(sb.Data(), sb.table)) && (old(inode.din).itype == I_DIR ==> start <= old(inode.din).size) ==>
                (AllSound(sb.Data(), sb.table) <==> StaysSound(old(sb.Data()), old(inode.din), start, buf, old(sb.FreeBlocks())))
      ensures OthersSame(old(sb.Data()), old(sb.table), sb.Data(), sb.table, inode.nr)
      ensures inode.dirty || inode.din == old(inode.din).(size := inode.din.size)
      ensures written <= |buf| && (ret >= 0 ==> ret == written == |buf| && inode.dirty)
      ensures (written > 0 ==> start + written <= MAX_FILE_SIZE)
      ensures Wrote(old(sb.Data()), old(inode.din), sb.Data(), inode.din, start, buf[..written], start / BLOCK_SIZE,
                    WriteEnd(old(sb.Data()), old(inode.din), start, |buf|, old(sb.FreeBlocks())),
                    WriteEnd(old(sb.Data()), old(inode.din), start, |buf|, old(sb.FreeBlocks())) + (if ret < 0 then 1 else 0))
      ensures ret >= 0 && |buf| > 0 && old(AllSound(sb.Data(), sb.table)) ==>
                && old(inode.din).size <= MAX_FILE_SIZE && inode.din.size == Max(old(inode.din).size, start + |buf|) <= MAX_FILE_SIZE
                && FileBytes(sb.Data(), inode.din) == Overlay(FileBytes(old(sb.Data()), old(inode.din)), start, buf)
      ensures ret >= 0 && |buf| > 0 && old(inode.din).size <= MAX_FILE_SIZE ==>
                && inode.din.size == Max(old(inode.din).size, start + |buf|) <= MAX_FILE_SIZE
                && (FileBytes(sb.Data(), inode.din) == Overlay(FileBytes(old(sb.Data()), old(inode.din)), start, buf)
                    <==> GapIsZero(old(sb.Data()), old(inode.din), start))
    {
      hide Linked, Counted, LooseBlocks, Volumes.Consistent, Marked, TailMarked, DiskInode, Wrote, TooFew, SameContent, SamePlaces,
           EndOfWrite,
           FileBytes, Overlay, GapIsZero, Outcome, LosesSize, StaysSound, WriteEnd, AllSound, SizeAfterWrite;
      ghost var data0, table0, d0, dirty0, free0 := sb.Data(), sb.table, inode.din, inode.dirty, sb.FreeBlocks();
      assert CachedRight(inode.nr) && StoredRight(inode.nr);
      ret, written := WriteData(inode, buf, start);
      WriteMeans(data0, table0, dirty0, free0, sb.Data(), sb.table, inode.dirty, sb.FreeBlocks(), inode.nr, buf, start, ret, written);
      stale := if inode.dirty then stale - {inode.nr} else if inode.din.size != d0.size then stale + {inode.nr} else stale;
      CachedApart(inode.nr);
      InodeChanged(inode);
    }
  }

  /** What the end of a write means for the file, for all files, and for the dirty flag. */
  lemma WriteMeans(data0: seq<Block>, table0: map<nat, Dinode>, dirty0: bool, free0: nat, data: seq<Block>, table: map<nat, Dinode>,
                   dirty: bool, free: int,
                   k: nat, buf: seq<byte>, start: nat, ret: int, written: nat)
    requires OthersSame(data0, table0, data, table, k) && k in table && written <= |buf| && (ret >= 0 ==> ret == written == |buf|)
    requires var end := EndOfWrite(start, |buf|, ret, written);
             Wrote(data0, table0[k], data, table[k], start, buf[..written], start / BLOCK_SIZE, end, end + (if ret < 0 then 1 else 0))
    requires table[k].size == SizeAfterWrite(table0[k].size, start, |buf|, ret, written)
    requires (written > 0 ==> start + written <= MAX_FILE_SIZE)
    requires ret >= 0 ==> LastBlock(start, |buf|) < MAX_BLOCK_NR
    requires Outcome(data0, table0[k], dirty0, free0, start, |buf|, ret, written, table[k], dirty, free)
    ensures EndOfWrite(start, |buf|, ret, written) == WriteEnd(data0, table0[k], start, |buf|, free0)
    ensures LosesSize(data0, table0[k], dirty0, start, |buf|, free0) <==> !dirty && table[k].size != table0[k].size
    ensures AllSound(data0, table0) && (table0[k].itype == I_DIR ==> start <= table0[k].size) ==>
              (AllSound(data, table) <==> StaysSound(data0, table0[k], start, buf, free0))
    ensures ret >= 0 && |buf| > 0 && table0[k].size <= MAX_FILE_SIZE ==>
              && table[k].size == Max(table0[k].size, start + |buf|) <= MAX_FILE_SIZE
              && (FileBytes(data, table[k]) == Overlay(FileBytes(data0, table0[k]), start, buf) <==> GapIsZero(data0, table0[k], start))
    ensures AllSound(data0, table0) ==> table0[k].size <= MAX_FILE_SIZE && GapIsZero(data0, table0[k], start)
  {
    hide Wrote, SameContent, SamePlaces, EndOfWrite, FileBytes, Overlay, GapIsZero, DirtyAfter, DoubleAfter, LosesSize, StaysSound,
         WriteEnd, AllSound, NewSize,
         SizeAfterWrite;
    SameEnd(data0, table0[k], start, |buf|, free0);
    LosesSizeIff(data0, table0[k], dirty0, start, |buf|, free0);
    if AllSound(data0, table0) {
      SoundGap(data0, table0, k, start);
      if table0[k].itype == I_DIR ==> start <= table0[k].size {
        WriteKeepsSound(data0, table0, data, table, k, buf, start, free0, if ret < 0 then 1 else 0);
      }
    }
    if ret >= 0 && |buf| > 0 && table0[k].size <= MAX_FILE_SIZE {
      OverlayIffGapIsZero(data0, table0[k], data, table[k], buf, start, ret, written);
    }
  }

  lemma SoundGap(data: seq<Block>, table: map<nat, Dinode>, k: nat, start: nat)
    requires AllSound(data, table) && k in table
    ensures table[k].size <= MAX_FILE_SIZE && GapIsZero(data, table[k], start)
  {
    SoundOne(data, table, k);
  }

  lemma OverlayIffGapIsZero(data0: seq<Block>, d0: Dinode, data: seq<Block>, d: Dinode, buf: seq<byte>, start: nat, ret: int, written: nat)
    requires ret >= 0 && written == |buf| > 0 && d0.size <= MAX_FILE_SIZE
    requires var end := EndOfWrite(start, |buf|, ret, written); Wrote(data0, d0, data, d, start, buf[..written], start / BLOCK_SIZE, end,
                                                                      end)
    requires d.size == SizeAfterWrite(d0.size, start, |buf|, ret, written) && LastBlock(start, |buf|) < MAX_BLOCK_NR
    ensures d.size == Max(d0.size, start + |buf|) <= MAX_FILE_SIZE
    ensures FileBytes(data, d) == Overlay(FileBytes(data0, d0), start, buf) <==> GapIsZero(data0, d0, start)
    ensures TailIsZero(data0, d0) ==> GapIsZero(data0, d0, start) && TailIsZero(data, d)
  {
    var end := EndOfWrite(start, |buf|, ret, written);
    assert buf[..written] == buf;
    hide Wrote, GapIsZero, TailIsZero, FileBytes, Overlay;
    WriteOverlaysFile(data0, d0, data, d, start, buf, start / BLOCK_SIZE, end, end);
    if TailIsZero(data0, d0) {
      WriteKeepsTailZero(data0, d0, data, d, start, buf, start / BLOCK_SIZE, end, end);
    }
  }

  lemma WriteKeepsSound(data0: seq<Block>, table0: map<nat, Dinode>, data: seq<Block>, table: map<nat, Dinode>,
                        k: nat, buf: seq<byte>, start: nat, free0: nat, more: nat)
    requires AllSound(data0, table0) && OthersSame(data0, table0, data, table, k) && (table0[k].itype == I_DIR ==> start <= table0[k].size)
    requires var n, end := WriteLength(data0, table0[k], start, |buf|, free0), WriteEnd(data0, table0[k], start, |buf|, free0);
             && (n > 0 ==> start + n <= MAX_FILE_SIZE)
             && Wrote(data0, table0[k], data, table[k], start, buf[..n], start / BLOCK_SIZE, end, end + more)
    requires table[k].size == NewSize(data0, table0[k], start, |buf|, free0)
    requires table[k].dindirect != 0 <==> DoubleAfter(data0, table0[k], start, |buf|, free0)
    ensures AllSound(data, table) <==> StaysSound(data0, table0[k], start, buf, free0)
  {
    hide Sound, Wrote, NewSize, DoubleAfter, WriteEnd, WriteLength, StaysSound;
    SoundOne(data0, table0, k);
    SoundAfterWrite(data0, table0[k], data, table[k], start, buf, free0, WriteEnd(data0, table0[k], start, |buf|, free0) + more);
    if StaysSound(data0, table0[k], start, buf, free0) {
      StillSound(data0, table0, data, table, k);
    } else {
      assert !SoundAt(data, table, k);
    }
  }

  lemma TypeKeepsSound(data: seq<Block>, table0: map<nat, Dinode>, table: map<nat, Dinode>, k: nat)
    requires AllSound(data, table0) && k in table && table == table0[k := table[k]] && Sound(data, table[k])
    ensures AllSound(data, table)
  {
    forall k': nat ensures SoundAt(data, table, k') {
      assert SoundAt(data, table0, k');
    }
  }

  /** All fields but the size fit by themselves: block numbers and counts are bounded by the device. */
  lemma InodeFits(sb: Volume, k: nat)
    requires sb.Valid() && Linked(sb.Data(), sb.table, sb.owner) && Counted(sb.table, sb.owner)
    requires k in sb.table && sb.table[k].size < WORD_LIMIT * WORD_LIMIT
    ensures Fits(sb.table[k])
  {
    var d := sb.table[k];
    forall s | InTree(s) && IsTop(s) ensures Ptr(sb.Data(), d, s) < WORD_LIMIT {
      assert SlotOwns(sb.Data(), sb.table, sb.owner, k, s);
      assert OwnedBySlot(sb.Data(), sb.table, sb.owner, Ptr(sb.Data(), d, s));
    }
    forall i: nat | i < NR_DIRECT_BLOCKS ensures d.direct[i] < WORD_LIMIT {
      assert Ptr(sb.Data(), d, Direct(i)) < WORD_LIMIT;
    }
    assert Ptr(sb.Data(), d, Indirect) < WORD_LIMIT && Ptr(sb.Data(), d, DoubleIndirect) < WORD_LIMIT;
    assert CountIs(sb.table, sb.owner, k);
    SubsetCard(OwnedBy(sb.owner, k), sb.owner.Keys);
  }

  lemma {:induction false} SubsetCard(a: set<nat>, b: set<nat>)
    requires a <= b
    ensures |a| <= |b|
  {
    if x :| x in a {
      SubsetCard(a - {x}, b - {x});
    }
  }
}
