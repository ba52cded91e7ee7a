/** The super block: block and inode allocation, with every change written through to the device. */
module Volumes {
  import opened Blocks
  import opened Bitmaps
  import opened BlockTree
  import opened Errors

  const INODE_FREEMAP_START: nat := 1
  const INODE_FREEMAP_SIZE: nat := 1
  const BLOCK_FREEMAP_START: nat := 2
  const BLOCK_FREEMAP_SIZE: nat := 16
  const INODE_BLOCKS_START: nat := 18
  const NR_INODE_BLOCKS: nat := 128
  const NR_INODE_BITS: nat := BLOCK_SIZE * INODE_FREEMAP_SIZE * BITS_PER_WORD
  const NR_DATA_BLOCKS: nat := BLOCK_SIZE * BLOCK_FREEMAP_SIZE * BITS_PER_WORD
  const NR_DEVICE_BLOCKS: nat := DATA_BLOCKS_START + NR_DATA_BLOCKS

  /** The eight words of the super block on disk; the last two are the halves of max_fs_blocks. */
  function SuperWords(inodes: nat, blocks: nat, max: nat): (ws: seq<nat>)
    requires inodes < WORD_LIMIT && blocks < WORD_LIMIT && max < WORD_LIMIT * WORD_LIMIT
    ensures |ws| == 8 && forall i | 0 <= i < |ws| :: ws[i] < WORD_LIMIT
  {
    [INODE_FREEMAP_START, BLOCK_FREEMAP_START, INODE_BLOCKS_START, DATA_BLOCKS_START,
     inodes, blocks, max % WORD_LIMIT, max / WORD_LIMIT]
  }

  function SuperImage(inodes: nat, blocks: nat, max: nat): Block
    requires inodes < WORD_LIMIT && blocks < WORD_LIMIT && max < WORD_LIMIT * WORD_LIMIT
  {
    SetWords(ZERO, 0, SuperWords(inodes, blocks, max))
  }

  lemma SuperImageReadsBack(inodes: nat, blocks: nat, max: nat)
    requires inodes < WORD_LIMIT && blocks < WORD_LIMIT && max < WORD_LIMIT * WORD_LIMIT
    ensures var b := SuperImage(inodes, blocks, max);
            Word(b, 4) == inodes && Word(b, 5) == blocks && Word(b, 6) + WORD_LIMIT * Word(b, 7) == max
  {
    forall i: nat | i < 8 ensures Word(SuperImage(inodes, blocks, max), i) == SuperWords(inodes, blocks, max)[i] {
      WordOfSetWords(ZERO, 0, SuperWords(inodes, blocks, max), i);
    }
  }

  function ToByte(w: bv8): byte {
    w as int as byte
  }

  function FromByte(b: byte): bv8 {
    b as int as bv8
  }

  lemma ByteRoundTrip(w: bv8)
    ensures FromByte(ToByte(w)) == w
  {}

  function Bytes(words: seq<bv8>): (bytes: seq<byte>)
    ensures |bytes| == |words|
  {
    seq(|words|, i requires 0 <= i < |words| => ToByte(words[i]))
  }

  /** The r-th disk block of a freemap. */
  function FreemapBlock(words: seq<bv8>, r: nat): (b: Block)
    requires (r + 1) * BLOCK_SIZE <= |words|
  {
    Bytes(words[r * BLOCK_SIZE..(r + 1) * BLOCK_SIZE])
  }

  /** Every disk block of the freemap holds its part of the words. */
  ghost predicate Mirrored(dev: seq<Block>, start: nat, size: nat, words: seq<bv8>) {
    && start + size <= |dev| && |words| == size * BLOCK_SIZE
    && forall r: nat :: BlockMirrored(dev, start, size, words, r)
  }

  ghost predicate BlockMirrored(dev: seq<Block>, start: nat, size: nat, words: seq<bv8>, r: nat)
    requires start + size <= |dev| && |words| == size * BLOCK_SIZE
  {
    r < size ==> dev[start + r] == FreemapBlock(words, r)
  }

  /** After one bit changes, writing the one disk block that holds it brings the device up to date. */
  lemma MirroredAfterWrite(dev: seq<Block>, start: nat, size: nat, words: seq<bv8>, words': seq<bv8>, index: nat, dev': seq<Block>)
    requires Mirrored(dev, start, size, words) && |words'| == |words| && index / BITS_PER_WORD < |words|
    requires forall i: nat | i < |words| && i != index / BITS_PER_WORD :: words'[i] == words[i]
    requires |dev'| == |dev| && index / (BLOCK_SIZE * BITS_PER_WORD) < size
    requires forall c | start <= c < start + size :: dev'[c] ==
               if c == start + index / (BLOCK_SIZE * BITS_PER_WORD)
               then FreemapBlock(words', index / (BLOCK_SIZE * BITS_PER_WORD)) else dev[c]
    ensures Mirrored(dev', start, size, words')
  {
    var nr := index / (BLOCK_SIZE * BITS_PER_WORD);
    forall r: nat ensures BlockMirrored(dev', start, size, words', r) {
      assert BlockMirrored(dev, start, size, words, r);
      if r < size && r != nr {
        assert index / BITS_PER_WORD / BLOCK_SIZE == nr;
        assert words'[r * BLOCK_SIZE..(r + 1) * BLOCK_SIZE] == words[r * BLOCK_SIZE..(r + 1) * BLOCK_SIZE];
      }
    }
  }

  lemma MirroredElsewhere(dev: seq<Block>, start: nat, size: nat, words: seq<bv8>, dev': seq<Block>)
    requires Mirrored(dev, start, size, words) && |dev'| == |dev|
    requires forall c | start <= c < start + size :: dev'[c] == dev[c]
    ensures Mirrored(dev', start, size, words)
  {
    forall r: nat ensures BlockMirrored(dev', start, size, words, r) {
      assert BlockMirrored(dev, start, size, words, r);
    }
  }

  /** The freemap part of the device, read back as words. */
  function FreemapWords(dev: seq<Block>, start: nat, size: nat): (words: seq<bv8>)
    requires start + size <= |dev|
    ensures |words| == size * BLOCK_SIZE
    ensures forall i: nat | i < size * BLOCK_SIZE :: words[i] == FromByte(dev[start + i / BLOCK_SIZE][i % BLOCK_SIZE])
  {
    seq(size * BLOCK_SIZE, i requires 0 <= i < size * BLOCK_SIZE => FromByte(dev[start + i / BLOCK_SIZE][i % BLOCK_SIZE]))
  }

  /** A freemap that was written block by block reads back unchanged. */
  lemma FreemapReadsBack(dev: seq<Block>, start: nat, size: nat, words: seq<bv8>)
    requires Mirrored(dev, start, size, words)
    ensures FreemapWords(dev, start, size) == words
  {
    forall i: nat | i < size * BLOCK_SIZE ensures FreemapWords(dev, start, size)[i] == words[i] {
      var r := i / BLOCK_SIZE;
      assert BlockMirrored(dev, start, size, words, r);
      assert r * BLOCK_SIZE + i % BLOCK_SIZE == i;
      ByteRoundTrip(words[i]);
    }
  }

  // ---------------------------------------------------------------- counting

  lemma {:induction false} BoundedSet(s: set<nat>, n: nat)
    requires forall i | i in s :: i < n
    ensures |s| <= n
    ensures |s| == n <==> forall i: nat | i < n :: i in s
  {
    if n == 0 {
      assert s == {};
    } else {
      var m := n - 1;
      BoundedSet(s - {m}, m);
      if m in s {
        assert s == (s - {m}) + {m};
      } else {
        assert s - {m} == s;
      }
    }
  }

  ghost predicate OwnsBit(owner: map<nat, Ref>, bits: set<nat>, b: nat) {
    b in owner <==> b >= DATA_BLOCKS_START && b - DATA_BLOCKS_START in bits
  }

  /** The owned blocks are the data blocks whose freemap bit is set. */
  ghost predicate OwnsExactly(owner: map<nat, Ref>, bits: set<nat>) {
    forall b: nat :: OwnsBit(owner, bits, b)
  }

  lemma OwnMore(owner: map<nat, Ref>, bits: set<nat>, i: nat, r: Ref)
    requires OwnsExactly(owner, bits) && i !in bits
    ensures var b := DATA_BLOCKS_START + i;
            b !in owner && OwnsExactly(owner[b := r], bits + {i}) && |owner[b := r]| == |owner| + 1
  {
    var b := DATA_BLOCKS_START + i;
    assert OwnsBit(owner, bits, b);
    var owner', bits' := owner[b := r], bits + {i};
    forall c: nat ensures OwnsBit(owner', bits', c) {
      assert OwnsBit(owner, bits, c);
    }
  }

  lemma OwnLess(owner: map<nat, Ref>, bits: set<nat>, b: nat)
    requires OwnsExactly(owner, bits) && b in owner
    ensures b >= DATA_BLOCKS_START
    ensures var i: nat := b - DATA_BLOCKS_START;
            i in bits && OwnsExactly(owner - {b}, bits - {i}) && |owner - {b}| == |owner| - 1
  {
    assert OwnsBit(owner, bits, b);
    var i: nat := b - DATA_BLOCKS_START;
    var owner', bits' := owner - {b}, bits - {i};
    forall c: nat ensures OwnsBit(owner', bits', c) {
      assert OwnsBit(owner, bits, c);
    }
    assert owner.Keys == (owner - {b}).Keys + {b};
  }

  /** The device holds the super block and the freemaps. */
  ghost predicate OnDisk(dev: seq<Block>, inodeWords: seq<bv8>, blockWords: seq<bv8>, inodes: nat, blocks: nat, max: nat) {
    && |dev| == NR_DEVICE_BLOCKS && inodes < WORD_LIMIT && blocks < WORD_LIMIT && max < WORD_LIMIT * WORD_LIMIT
    && dev[0] == SuperImage(inodes, blocks, max)
    && Mirrored(dev, INODE_FREEMAP_START, INODE_FREEMAP_SIZE, inodeWords)
    && Mirrored(dev, BLOCK_FREEMAP_START, BLOCK_FREEMAP_SIZE, blockWords)
  }

  /** The allocation state: counters, freemaps and owners agree, and so do the super block and freemaps on the device. */
  ghost predicate Consistent(dev: seq<Block>, inodeWords: seq<bv8>, blockWords: seq<bv8>, inodes: nat, blocks: nat, max: nat,
                             owner: map<nat, Ref>) {
    && TailMarked(inodeWords, NR_INODE_BITS) && TailMarked(blockWords, NR_DATA_BLOCKS)
    && inodes == |Marked(inodeWords, NR_INODE_BITS)| <= NR_INODE_BITS
    && OwnsExactly(owner, Marked(blockWords, NR_DATA_BLOCKS))
    && blocks == |owner| == |Marked(blockWords, NR_DATA_BLOCKS)| <= NR_DATA_BLOCKS
    && blocks <= max
    && OnDisk(dev, inodeWords, blockWords, inodes, blocks, max)
  }

  class Volume {
    var dev: seq<Block>
    var usedInodeCount: nat
    var usedBlockCount: nat
    const maxFsBlocks: nat
    const inodeFreemap: Bitmap
    const blockFreemap: Bitmap

    /** Which slot of which inode holds each allocated block. */
    ghost var owner: map<nat, Ref>
    /** The current value of every inode, cached or on disk. */
    ghost var table: map<nat, Dinode>

    /** Reads the super block and the freemaps from a device image. The owner and the inode table are not stored anywhere. */
    constructor Mount(image: seq<Block>, ghost owner: map<nat, Ref>, ghost table: map<nat, Dinode>)
      requires |image| == NR_DEVICE_BLOCKS
      ensures dev == image && this.owner == owner && this.table == table
      ensures usedInodeCount == Word(image[0], 4) && usedBlockCount == Word(image[0], 5)
      ensures maxFsBlocks == Word(image[0], 6) + WORD_LIMIT * Word(image[0], 7)
      ensures fresh(inodeFreemap) && fresh(inodeFreemap.v) && fresh(blockFreemap) && fresh(blockFreemap.v)
      ensures inodeFreemap != blockFreemap && inodeFreemap.v != blockFreemap.v
      ensures inodeFreemap.nbits == NR_INODE_BITS && inodeFreemap.Valid()
      ensures blockFreemap.nbits == NR_DATA_BLOCKS && blockFreemap.Valid()
      ensures inodeFreemap.v[..] == FreemapWords(image, INODE_FREEMAP_START, INODE_FREEMAP_SIZE)
      ensures blockFreemap.v[..] == FreemapWords(image, BLOCK_FREEMAP_START, BLOCK_FREEMAP_SIZE)
    {
      var inodes := new Bitmap(NR_INODE_BITS);
      inodes.Load(FreemapWords(image, INODE_FREEMAP_START, INODE_FREEMAP_SIZE));
      var blocks := new Bitmap(NR_DATA_BLOCKS);
      blocks.Load(FreemapWords(image, BLOCK_FREEMAP_START, BLOCK_FREEMAP_SIZE));
      dev := image;
      usedInodeCount := Word(image[0], 4);
      usedBlockCount := Word(image[0], 5);
      maxFsBlocks := Word(image[0], 6) + WORD_LIMIT * Word(image[0], 7);
      inodeFreemap := inodes;
      blockFreemap := blocks;
      this.owner := owner;
      this.table := table;
    }

    /** The data region of the device. */
    ghost function Data(): (data: seq<Block>)
      requires |dev| == NR_DEVICE_BLOCKS
      reads this`dev
      ensures |data| == NR_DATA_BLOCKS
    {
      dev[DATA_BLOCKS_START..]
    }

    /** The part of the device that holds the inodes. */
    ghost function InodeBlocks(): seq<Block>
      requires |dev| == NR_DEVICE_BLOCKS
      reads this`dev
    {
      dev[INODE_BLOCKS_START..DATA_BLOCKS_START]
    }

    ghost predicate Valid()
      reads this, inodeFreemap.v, blockFreemap.v
    {
      && |dev| == NR_DEVICE_BLOCKS
      && inodeFreemap != blockFreemap && inodeFreemap.v != blockFreemap.v
      && inodeFreemap.nbits == NR_INODE_BITS && blockFreemap.nbits == NR_DATA_BLOCKS
      && usedBlockCount <= maxFsBlocks && usedBlockCount <= NR_DATA_BLOCKS
      && Consistent(dev, inodeFreemap.v[..], blockFreemap.v[..], usedInodeCount, usedBlockCount, maxFsBlocks, owner)
    }

    /** How many blocks can still be allocated. */
    ghost function FreeBlocks(): nat
      requires usedBlockCount <= maxFsBlocks && usedBlockCount <= NR_DATA_BLOCKS
      reads this
    {
      (if maxFsBlocks < NR_DATA_BLOCKS then maxFsBlocks else NR_DATA_BLOCKS) - usedBlockCount
    }

    method WriteBlock(b: nat, x: Block)
      requires |dev| == NR_DEVICE_BLOCKS && b < NR_DEVICE_BLOCKS
      modifies this`dev
      ensures dev == old(dev)[b := x]
    {
      dev := dev[b := x];
    }

    /** Brings the super block on the device up to date; the freemaps there stay as they are. */
    method WriteSuperBlock()
      requires |dev| == NR_DEVICE_BLOCKS
      requires usedInodeCount < WORD_LIMIT && usedBlockCount < WORD_LIMIT && maxFsBlocks < WORD_LIMIT * WORD_LIMIT
      requires Mirrored(dev, INODE_FREEMAP_START, INODE_FREEMAP_SIZE, inodeFreemap.v[..])
      requires Mirrored(dev, BLOCK_FREEMAP_START, BLOCK_FREEMAP_SIZE, blockFreemap.v[..])
      modifies this`dev
      ensures OnDisk(dev, inodeFreemap.v[..], blockFreemap.v[..], usedInodeCount, usedBlockCount, maxFsBlocks)
      ensures forall c | 0 < c < |dev| :: dev[c] == old(dev)[c]
    {
      WriteBlock(0, SuperImage(usedInodeCount, usedBlockCount, maxFsBlocks));
      MirroredElsewhere(old(dev), INODE_FREEMAP_START, INODE_FREEMAP_SIZE, inodeFreemap.v[..], dev);
      MirroredElsewhere(old(dev), BLOCK_FREEMAP_START, BLOCK_FREEMAP_SIZE, blockFreemap.v[..], dev);
    }

    method WriteBlockFreemap(blockNr: nat)
      requires |dev| == NR_DEVICE_BLOCKS && blockFreemap.v.Length == BLOCK_FREEMAP_SIZE * BLOCK_SIZE && blockNr < NR_DATA_BLOCKS
      modifies this`dev
      ensures var nr := blockNr / (BLOCK_SIZE * BITS_PER_WORD);
              dev == old(dev)[BLOCK_FREEMAP_START + nr := FreemapBlock(blockFreemap.v[..], nr)]
    {
      var nr := blockNr / (BLOCK_SIZE * BITS_PER_WORD);
      WriteBlock(BLOCK_FREEMAP_START + nr, FreemapBlock(blockFreemap.v[..], nr));
    }

    /** Takes the lowest free bit of the block freemap and writes the changed part of the freemap to the device. */
    method GetBlockFreemap() returns (index: int)
      requires |dev| == NR_DEVICE_BLOCKS && blockFreemap.nbits == NR_DATA_BLOCKS && blockFreemap.Valid()
      requires Mirrored(dev, BLOCK_FREEMAP_START, BLOCK_FREEMAP_SIZE, blockFreemap.v[..])
      modifies this`dev, blockFreemap.v
      ensures blockFreemap.Valid()
      ensures Mirrored(dev, BLOCK_FREEMAP_START, BLOCK_FREEMAP_SIZE, blockFreemap.v[..])
      ensures index < 0 <==> (forall i: nat | i < NR_DATA_BLOCKS :: i in old(blockFreemap.Bits()))
      ensures index < 0 ==> index == -ENOSPC && dev == old(dev) && blockFreemap.v[..] == old(blockFreemap.v[..])
      ensures index >= 0 ==> index < NR_DATA_BLOCKS && index !in old(blockFreemap.Bits())
                             && blockFreemap.Bits() == old(blockFreemap.Bits()) + {index}
                             && (forall i: nat | i < index :: i in old(blockFreemap.Bits()))
      ensures |dev| == |old(dev)| && forall c | 0 <= c < |dev| && !(BLOCK_FREEMAP_START <= c < INODE_BLOCKS_START) :: dev[c] == old(dev)[c]
    {
      index := blockFreemap.Alloc();
      if index < 0 {
        return -ENOSPC;
      }
      WriteBlockFreemap(index);
      MirroredAfterWrite(old(dev), BLOCK_FREEMAP_START, BLOCK_FREEMAP_SIZE, old(blockFreemap.v[..]), blockFreemap.v[..], index, dev);
    }

    method PutBlockFreemap(index: nat)
      requires |dev| == NR_DEVICE_BLOCKS && blockFreemap.nbits == NR_DATA_BLOCKS && blockFreemap.Valid()
      requires Mirrored(dev, BLOCK_FREEMAP_START, BLOCK_FREEMAP_SIZE, blockFreemap.v[..])
      requires index < NR_DATA_BLOCKS && index in blockFreemap.Bits()
      modifies this`dev, blockFreemap.v
      ensures blockFreemap.Valid()
      ensures Mirrored(dev, BLOCK_FREEMAP_START, BLOCK_FREEMAP_SIZE, blockFreemap.v[..])
      ensures blockFreemap.Bits() == old(blockFreemap.Bits()) - {index}
      ensures |dev| == |old(dev)| && forall c | 0 <= c < |dev| && !(BLOCK_FREEMAP_START <= c < INODE_BLOCKS_START) :: dev[c] == old(dev)[c]
    {
      blockFreemap.Unmark(index);
      WriteBlockFreemap(index);
      MirroredAfterWrite(old(dev), BLOCK_FREEMAP_START, BLOCK_FREEMAP_SIZE, old(blockFreemap.v[..]), blockFreemap.v[..], index, dev);
    }

    /** Allocates a block for inode k; fails with ENOSPC exactly when no free block is left. */
    method AllocBlock(ghost k: nat) returns (ret: int)
      requires Valid()
      modifies this`dev, this`usedBlockCount, this`owner, blockFreemap.v
      ensures Valid() && Data() == old(Data())
      ensures ret < 0 <==> old(FreeBlocks()) == 0
      ensures ret < 0 ==> ret == -ENOSPC && owner == old(owner) && dev == old(dev) && usedBlockCount == old(usedBlockCount)
      ensures ret >= 0 ==> InData(Data(), ret) && ret !in old(owner) && owner == old(owner)[ret := Ref(k, Loose)]
                           && FreeBlocks() == old(FreeBlocks()) - 1
      ensures InodeBlocks() == old(InodeBlocks())
    {
      hide Marked, TailMarked, Mirrored, SuperImage, OwnsExactly;
      if usedBlockCount >= maxFsBlocks {
        return -ENOSPC;
      }
      BoundedSet(blockFreemap.Bits(), NR_DATA_BLOCKS);
      var index := GetBlockFreemap();
      if index < 0 {
        return index;
      }
      OwnMore(owner, old(blockFreemap.Bits()), index, Ref(k, Loose));
      BoundedSet(blockFreemap.Bits(), NR_DATA_BLOCKS);
      ret := DATA_BLOCKS_START + index;
      owner := owner[ret := Ref(k, Loose)];
      usedBlockCount := usedBlockCount + 1;
      MirroredElsewhere(old(dev), INODE_FREEMAP_START, INODE_FREEMAP_SIZE, inodeFreemap.v[..], dev);
      assert InodeBlocks() == old(InodeBlocks());
      WriteSuperBlock();
    }

    /** Takes the lowest free inode number. */
    method GetInodeFreemap() returns (index: int)
      requires Valid()
      modifies this`dev, this`usedInodeCount, inodeFreemap.v
      ensures Valid() && Data() == old(Data()) && InodeBlocks() == old(InodeBlocks())
      ensures index < 0 ==> index == -ENOSPC && inodeFreemap.Bits() == old(inodeFreemap.Bits())
      ensures index >= 0 ==> index < NR_INODE_BITS && index !in old(inodeFreemap.Bits())
                             && inodeFreemap.Bits() == old(inodeFreemap.Bits()) + {index}
                             && (forall i: nat | i < index :: i in old(inodeFreemap.Bits()))
      ensures index < 0 <==> (forall i: nat | i < NR_INODE_BITS :: i in old(inodeFreemap.Bits()))
    {
      hide Marked, Mirrored, SuperImage, OwnsExactly;
      index := inodeFreemap.Alloc();
      if index < 0 {
        return -ENOSPC;
      }
      WriteInodeFreemap(index, old(inodeFreemap.v[..]));
      BoundedSet(inodeFreemap.Bits(), NR_INODE_BITS);
      usedInodeCount := usedInodeCount + 1;
      WriteSuperBlock();
    }

    method PutInodeFreemap(index: nat)
      requires Valid() && index in inodeFreemap.Bits()
      modifies this`dev, this`usedInodeCount, inodeFreemap.v
      ensures Valid() && Data() == old(Data()) && InodeBlocks() == old(InodeBlocks())
      ensures inodeFreemap.Bits() == old(inodeFreemap.Bits()) - {index}
    {
      hide Marked, Mirrored, SuperImage, OwnsExactly;
      inodeFreemap.Unmark(index);
      WriteInodeFreemap(index, old(inodeFreemap.v[..]));
      BoundedSet(inodeFreemap.Bits(), NR_INODE_BITS);
      usedInodeCount := usedInodeCount - 1;
      WriteSuperBlock();
    }

    /** Writes the part of the inode freemap that holds bit inodeNr. */
    method WriteInodeFreemap(inodeNr: nat, ghost words: seq<bv8>)
      requires |dev| == NR_DEVICE_BLOCKS && inodeFreemap.v.Length == INODE_FREEMAP_SIZE * BLOCK_SIZE && inodeNr < NR_INODE_BITS
      requires Mirrored(dev, INODE_FREEMAP_START, INODE_FREEMAP_SIZE, words)
      requires forall i: nat | i < |words| && i != inodeNr / BITS_PER_WORD :: inodeFreemap.v[i] == words[i]
      requires Mirrored(dev, BLOCK_FREEMAP_START, BLOCK_FREEMAP_SIZE, blockFreemap.v[..])
      modifies this`dev
      ensures Mirrored(dev, INODE_FREEMAP_START, INODE_FREEMAP_SIZE, inodeFreemap.v[..])
      ensures Mirrored(dev, BLOCK_FREEMAP_START, BLOCK_FREEMAP_SIZE, blockFreemap.v[..])
      ensures |dev| == |old(dev)| && forall c | 0 <= c < |dev| && c != INODE_FREEMAP_START :: dev[c] == old(dev)[c]
    {
      var nr := inodeNr / (BLOCK_SIZE * BITS_PER_WORD);
      WriteBlock(INODE_FREEMAP_START + nr, FreemapBlock(inodeFreemap.v[..], nr));
      MirroredAfterWrite(old(dev), INODE_FREEMAP_START, INODE_FREEMAP_SIZE, words, inodeFreemap.v[..], inodeNr, dev);
      MirroredElsewhere(old(dev), BLOCK_FREEMAP_START, BLOCK_FREEMAP_SIZE, blockFreemap.v[..], dev);
    }

    /** Overwrites the r-th inode block. */
    method WriteInodeBlock(r: nat, x: Block)
      requires Valid() && r < NR_INODE_BLOCKS
      modifies this`dev
      ensures Valid() && Data() == old(Data()) && InodeBlocks() == old(InodeBlocks())[r := x]
    {
      WriteBlock(INODE_BLOCKS_START + r, x);
      MirroredElsewhere(old(dev), INODE_FREEMAP_START, INODE_FREEMAP_SIZE, inodeFreemap.v[..], dev);
      MirroredElsewhere(old(dev), BLOCK_FREEMAP_START, BLOCK_FREEMAP_SIZE, blockFreemap.v[..], dev);
    }

    method ZeroBlock(b: nat)
      requires |dev| == NR_DEVICE_BLOCKS && b < NR_DEVICE_BLOCKS
      modifies this`dev
      ensures dev == old(dev)[b := ZERO]
    {
      WriteBlock(b, ZERO);
    }

    method ReadBlock(b: nat) returns (x: Block)
      requires |dev| == NR_DEVICE_BLOCKS && b < NR_DEVICE_BLOCKS
      ensures x == dev[b] && (InData(Data(), b) ==> x == Blk(Data(), b))
    {
      x := dev[b];
    }

    /** Overwrites a block of the data region; the allocation state and the inode blocks do not change. */
    method WriteDataBlock(b: nat, x: Block)
      requires Valid() && InData(Data(), b)
      modifies this`dev
      ensures Valid() && Data() == Put(old(Data()), b, x) && InodeBlocks() == old(InodeBlocks())
    {
      WriteBlock(b, x);
      MirroredElsewhere(old(dev), INODE_FREEMAP_START, INODE_FREEMAP_SIZE, inodeFreemap.v[..], dev);
      MirroredElsewhere(old(dev), BLOCK_FREEMAP_START, BLOCK_FREEMAP_SIZE, blockFreemap.v[..], dev);
    }

    /** Records that allocated block b is now held by slot r. */
    ghost method Relabel(b: nat, r: Ref)
      requires Valid() && b in owner
      modifies this`owner
      ensures Valid() && owner == old(owner)[b := r]
    {
      ghost var bits := Marked(blockFreemap.v[..], NR_DATA_BLOCKS);
      owner := owner[b := r];
      forall c: nat ensures OwnsBit(owner, bits, c) {
        assert OwnsBit(old(owner), bits, c);
      }
    }

    /** Frees an allocated block: it becomes zero on disk and nobody owns it any more. */
    method FreeBlock(b: nat)
      requires Valid() && b in owner
      modifies this`dev, this`usedBlockCount, this`owner, blockFreemap.v
      ensures Valid() && owner == old(owner) - {b} && FreeBlocks() == old(FreeBlocks()) + 1
      ensures InData(old(Data()), b) && Data() == Put(old(Data()), b, ZERO)
      ensures InodeBlocks() == old(InodeBlocks())
    {
      hide Marked, TailMarked, Mirrored, SuperImage, OwnsExactly;
      OwnLess(owner, blockFreemap.Bits(), b);
      ZeroBlock(b);
      MirroredElsewhere(old(dev), BLOCK_FREEMAP_START, BLOCK_FREEMAP_SIZE, blockFreemap.v[..], dev);
      PutBlockFreemap(b - DATA_BLOCKS_START);
      BoundedSet(blockFreemap.Bits(), NR_DATA_BLOCKS);
      owner := owner - {b};
      usedBlockCount := usedBlockCount - 1;
      MirroredElsewhere(old(dev), INODE_FREEMAP_START, INODE_FREEMAP_SIZE, inodeFreemap.v[..], dev);
      WriteSuperBlock();
    }
  }

  /** Mounting the device of a running volume rebuilds exactly its allocation state. */
  method Remount(v: Volume) returns (w: Volume)
    requires v.Valid()
    ensures fresh(w) && fresh(w.inodeFreemap.v) && fresh(w.blockFreemap.v)
    ensures w.Valid() && w.dev == v.dev && w.owner == v.owner && w.table == v.table
    ensures w.usedInodeCount == v.usedInodeCount && w.usedBlockCount == v.usedBlockCount && w.maxFsBlocks == v.maxFsBlocks
    ensures w.inodeFreemap.Bits() == v.inodeFreemap.Bits() && w.blockFreemap.Bits() == v.blockFreemap.Bits()
  {
    SuperImageReadsBack(v.usedInodeCount, v.usedBlockCount, v.maxFsBlocks);
    FreemapReadsBack(v.dev, INODE_FREEMAP_START, INODE_FREEMAP_SIZE, v.inodeFreemap.v[..]);
    FreemapReadsBack(v.dev, BLOCK_FREEMAP_START, BLOCK_FREEMAP_SIZE, v.blockFreemap.v[..]);
    w := new Volume.Mount(v.dev, v.owner, v.table);
  }

  predicate AllZero(words: seq<bv8>) {
    forall i | 0 <= i < |words| :: words[i] == 0
  }

  lemma ZeroWordsRead(dev: seq<Block>, start: nat, size: nat)
    requires start + size <= |dev| && forall c | start <= c < start + size :: dev[c] == ZERO
    ensures AllZero(FreemapWords(dev, start, size))
  {}

  lemma ZeroWordsMirrored(dev: seq<Block>, start: nat, size: nat, words: seq<bv8>)
    requires start + size <= |dev| && forall c | start <= c < start + size :: dev[c] == ZERO
    requires |words| == size * BLOCK_SIZE && AllZero(words)
    ensures Mirrored(dev, start, size, words)
  {
    forall r: nat ensures BlockMirrored(dev, start, size, words, r) {
      if r < size {
        assert AllZero(words[r * BLOCK_SIZE..(r + 1) * BLOCK_SIZE]);
        assert FreemapBlock(words, r) == ZERO;
      }
    }
  }

  lemma ZeroWordsUnmarked(words: seq<bv8>, nbits: nat)
    requires AllZero(words) && nbits == BITS_PER_WORD * |words|
    ensures TailMarked(words, nbits) && Marked(words, nbits) == {}
  {
    forall i: nat | i < nbits ensures !BitSet(words, i) {
      HasMask(0, i % BITS_PER_WORD);
    }
  }

  /** Makes an empty file system with room for `max` blocks: everything but the super block is zero. */
  method Format(max: nat, ghost table: map<nat, Dinode>) returns (v: Volume)
    requires max < WORD_LIMIT * WORD_LIMIT
    ensures fresh(v) && fresh(v.inodeFreemap) && fresh(v.inodeFreemap.v) && fresh(v.blockFreemap) && fresh(v.blockFreemap.v)
    ensures v.Valid() && v.owner == map[] && v.table == table && v.maxFsBlocks == max && v.usedBlockCount == 0
    ensures v.inodeFreemap.Bits() == {} && v.blockFreemap.Bits() == {}
    ensures forall c | 0 < c < NR_DEVICE_BLOCKS :: v.dev[c] == ZERO
  {
    var image := seq(NR_DEVICE_BLOCKS, _ => ZERO)[0 := SuperImage(0, 0, max)];
    SuperImageReadsBack(0, 0, max);
    v := new Volume.Mount(image, map[], table);
    ghost var inodeWords, blockWords := v.inodeFreemap.v[..], v.blockFreemap.v[..];
    ZeroWordsRead(image, INODE_FREEMAP_START, INODE_FREEMAP_SIZE);
    ZeroWordsRead(image, BLOCK_FREEMAP_START, BLOCK_FREEMAP_SIZE);
    ZeroWordsMirrored(image, INODE_FREEMAP_START, INODE_FREEMAP_SIZE, inodeWords);
    ZeroWordsMirrored(image, BLOCK_FREEMAP_START, BLOCK_FREEMAP_SIZE, blockWords);
    ZeroWordsUnmarked(inodeWords, NR_INODE_BITS);
    ZeroWordsUnmarked(blockWords, NR_DATA_BLOCKS);
    ghost var bits := Marked(blockWords, NR_DATA_BLOCKS);
    forall b: nat ensures OwnsBit(v.owner, bits, b) {}
  }
}
