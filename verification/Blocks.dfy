/** Disk blocks: BLOCK_SIZE bytes that the file system reads either as file data or as little-endian 32-bit words. */
module Blocks {
  const BLOCK_SIZE: nat := 8192
  /** How many block numbers fit in one block (the fan-out of an indirect block). */
  const NR_INDIRECT_BLOCKS: nat := 2048
  const WORD_LIMIT: nat := 0x1_0000_0000

  newtype byte = x: int | 0 <= x < 256

  type Block = b: seq<byte> | |b| == BLOCK_SIZE witness seq(BLOCK_SIZE, _ => 0)

  const ZERO: Block := ZeroBlock()

  function ZeroBlock(): (b: Block)
    ensures forall i | 0 <= i < BLOCK_SIZE :: b[i] == 0
  {
    seq(BLOCK_SIZE, _ => 0)
  }

  /** The i-th word of a block. */
  function Word(b: Block, i: nat): (w: nat)
    requires i < NR_INDIRECT_BLOCKS
    ensures w < WORD_LIMIT
  {
    b[4 * i] as int + 0x100 * b[4 * i + 1] as int + 0x1_0000 * b[4 * i + 2] as int + 0x100_0000 * b[4 * i + 3] as int
  }

  /** The block with its i-th word overwritten. */
  function SetWord(b: Block, i: nat, w: nat): Block
    requires i < NR_INDIRECT_BLOCKS && w < WORD_LIMIT
  {
    b[4 * i := (w % 0x100) as byte]
     [4 * i + 1 := (w / 0x100 % 0x100) as byte]
     [4 * i + 2 := (w / 0x1_0000 % 0x100) as byte]
     [4 * i + 3 := (w / 0x100_0000) as byte]
  }

  lemma WordSplit(w: nat)
    requires w < WORD_LIMIT
    ensures w == w % 0x100 + 0x100 * (w / 0x100 % 0x100) + 0x1_0000 * (w / 0x1_0000 % 0x100) + 0x100_0000 * (w / 0x100_0000)
  {
    assert w / 0x100 / 0x100 == w / 0x1_0000 && w / 0x1_0000 / 0x100 == w / 0x100_0000;
  }

  /** A word that was written reads back, and no other word of the block changes. */
  lemma WordOfSetWord(b: Block, i: nat, w: nat, j: nat)
    requires i < NR_INDIRECT_BLOCKS && w < WORD_LIMIT && j < NR_INDIRECT_BLOCKS
    ensures Word(SetWord(b, i, w), j) == if i == j then w else Word(b, j)
  {
    if i == j {
      WordSplit(w);
    } else {
      var c := SetWord(b, i, w);
      assert c[4 * j] == b[4 * j] && c[4 * j + 1] == b[4 * j + 1] && c[4 * j + 2] == b[4 * j + 2] && c[4 * j + 3] == b[4 * j + 3];
    }
  }

  /** The block with consecutive words overwritten, starting at word `base`. */
  function SetWords(b: Block, base: nat, ws: seq<nat>): Block
    requires base + |ws| <= NR_INDIRECT_BLOCKS && forall i | 0 <= i < |ws| :: ws[i] < WORD_LIMIT
  {
    if ws == [] then b
    else var last := |ws| - 1; SetWord(SetWords(b, base, ws[..last]), base + last, ws[last])
  }

  lemma {:induction false} WordOfSetWords(b: Block, base: nat, ws: seq<nat>, j: nat)
    requires base + |ws| <= NR_INDIRECT_BLOCKS && j < NR_INDIRECT_BLOCKS
    requires forall i | 0 <= i < |ws| :: ws[i] < WORD_LIMIT
    ensures Word(SetWords(b, base, ws), j) == if base <= j < base + |ws| then ws[j - base] else Word(b, j)
  {
    if ws != [] {
      var last := |ws| - 1;
      WordOfSetWord(SetWords(b, base, ws[..last]), base + last, ws[last], j);
      WordOfSetWords(b, base, ws[..last], j);
    }
  }

  lemma ZeroWord(i: nat)
    requires i < NR_INDIRECT_BLOCKS
    ensures Word(ZERO, i) == 0
  {
    assert ZERO[4 * i] == ZERO[4 * i + 1] == ZERO[4 * i + 2] == ZERO[4 * i + 3] == 0;
  }
}
