/** Disk blocks (fs.h) and the little-endian 32-bit words stored in them. */
module Blocks {

  const BSIZE: nat := 512
  const WORDS: nat := 128  // NINDIRECT == BSIZE / sizeof(uint)

  type Byte = b: int | 0 <= b < 256
  type Word = w: int | 0 <= w < 0x1_0000_0000
  datatype Bytes = Bytes(at: seq<Byte>)

  /** One disk block: BSIZE bytes. */
  type Block = b: Bytes | |b.at| == 512 witness Bytes(seq(512, _ => 0))

  /** A whole disk, one entry per block number. */
  type Image = seq<Block>

  const ZERO_BLOCK: Block := Bytes(seq(512, _ => 0))

  /** Word `i` of a block, as `((uint*)bp->data)[i]` reads it. */
  function GetWord(b: Block, i: nat): (w: Word)
    requires i < WORDS
  {
    var b0: int, b1: int, b2: int, b3: int := b.at[4 * i], b.at[4 * i + 1], b.at[4 * i + 2], b.at[4 * i + 3];
    b0 + 0x100 * b1 + 0x1_0000 * b2 + 0x100_0000 * b3
  }

  /** The block after `((uint*)bp->data)[i] = w`. */
  function PutWord(b: Block, i: nat, w: Word): (r: Block)
    requires i < WORDS
  {
    Bytes(b.at[4 * i := w % 0x100]
              [4 * i + 1 := w / 0x100 % 0x100]
              [4 * i + 2 := w / 0x1_0000 % 0x100]
              [4 * i + 3 := w / 0x100_0000 % 0x100])
  }

  lemma WordSplit(w: Word)
    ensures w == w % 0x100 + 0x100 * (w / 0x100 % 0x100) + 0x1_0000 * (w / 0x1_0000 % 0x100)
                 + 0x100_0000 * (w / 0x100_0000 % 0x100)
  {
    var a := w / 0x100;
    var b := a / 0x100;
    assert b == w / 0x1_0000 && b / 0x100 == w / 0x100_0000 < 0x100;
  }

  /** The number in the two bytes from `at` on, the lower byte first. */
  function Two(b: Block, at: nat): nat
    requires at + 1 < BSIZE
  {
    var lo: int, hi: int := b.at[at], b.at[at + 1];
    lo + 0x100 * hi
  }

  /** A word lies in the block with its lower half first. */
  lemma WordBytes(b: Block, i: nat)
    requires i < WORDS
    ensures GetWord(b, i) % 0x1_0000 == Two(b, 4 * i) && GetWord(b, i) / 0x1_0000 == Two(b, 4 * i + 2)
  {
    var lo, hi := Two(b, 4 * i), Two(b, 4 * i + 2);
    assert GetWord(b, i) == lo + 0x1_0000 * hi && lo < 0x1_0000;
    hide GetWord, Two;
  }

  /** Writing one word and reading the words back. */
  lemma GetPut(b: Block, i: nat, w: Word, j: nat)
    requires i < WORDS && j < WORDS
    ensures GetWord(PutWord(b, i, w), j) == if i == j then w else GetWord(b, j)
  {
    WordSplit(w);
  }

  lemma ZeroWord(i: nat)
    requires i < WORDS
    ensures GetWord(ZERO_BLOCK, i) == 0
  {
  }
}
