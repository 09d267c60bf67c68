/** The inodes as bytes of the inode blocks: the table that iupdate writes and ilock reads, 64 bytes an inode. */
module FsInodes {
  import opened Blocks
  import opened FsSpec

  const INODE_WORDS: nat := 16   // sizeof(struct dinode) / sizeof(uint)

  /** The words of a struct dinode: type and major, minor and nlink, size, addrs. */
  function InodeWords(d: Dinode): (ws: seq<Word>)
    requires d.Fits()
    ensures |ws| == INODE_WORDS
  {
    [d.ftype + 0x1_0000 * d.major, d.minor + 0x1_0000 * d.nlink, d.size] +
    seq(NDIRECT + 1, (j: nat) requires j < |d.addrs| => d.addrs[j])
  }

  /** The first k of these words stored from word `at` on. */
  function PutWords(b: Block, at: nat, ws: seq<Word>, k: nat): Block
    requires at + |ws| <= WORDS && k <= |ws|
  {
    if k == 0 then b else PutWord(PutWords(b, at, ws, k - 1), at + k - 1, ws[k - 1])
  }

  lemma {:induction false} GetPutWords(b: Block, at: nat, ws: seq<Word>, k: nat, i: nat)
    requires at + |ws| <= WORDS && k <= |ws| && i < WORDS
    ensures GetWord(PutWords(b, at, ws, k), i) == if at <= i < at + k then ws[i - at] else GetWord(b, i)
  {
    hide GetWord, PutWord;
    if k > 0 {
      GetPutWords(b, at, ws, k - 1, i);
      GetPut(PutWords(b, at, ws, k - 1), at + k - 1, ws[k - 1], i);
    }
  }

  /** iupdate: the inode block after entry k becomes d. */
  function PutInode(b: Block, k: nat, d: Dinode): Block
    requires k < IPB && d.Fits()
  {
    PutWords(b, INODE_WORDS * k, InodeWords(d), INODE_WORDS)
  }

  /** Word i of entry k of an inode block. */
  function InodeWord(b: Block, k: nat, i: nat): Word
    requires k < IPB && i < INODE_WORDS
  {
    GetWord(b, INODE_WORDS * k + i)
  }

  /** ilock: entry k of an inode block. */
  function GetInode(b: Block, k: nat): Dinode
    requires k < IPB
  {
    var w, v := InodeWord(b, k, 0), InodeWord(b, k, 1);
    Dinode(w % 0x1_0000, w / 0x1_0000, v % 0x1_0000, v / 0x1_0000, InodeWord(b, k, 2),
           seq<nat>(NDIRECT + 1, (s: nat) requires s <= NDIRECT => InodeWord(b, k, 3 + s)))
  }

  /** The bytes of entry k as struct dinode lays them out. */
  lemma InodeBytes(b: Block, k: nat)
    requires k < IPB
    ensures var d, at := GetInode(b, k), 64 * k;
      && d.ftype == Two(b, at) && d.major == Two(b, at + 2) && d.minor == Two(b, at + 4) && d.nlink == Two(b, at + 6)
      && d.size == Two(b, at + 8) + 0x1_0000 * Two(b, at + 10) && |d.addrs| == 13
    ensures forall s :: 0 <= s < 13 ==>
      GetInode(b, k).addrs[s] == Two(b, 64 * k + 12 + 4 * s) + 0x1_0000 * Two(b, 64 * k + 12 + 4 * s + 2)
  {
    hide GetWord, Two;
    WordBytes(b, 16 * k);
    WordBytes(b, 16 * k + 1);
    WordBytes(b, 16 * k + 2);
    Joined(InodeWord(b, k, 2));
    forall s | 0 <= s < 13
      ensures GetInode(b, k).addrs[s] == Two(b, 64 * k + 12 + 4 * s) + 0x1_0000 * Two(b, 64 * k + 12 + 4 * s + 2)
    {
      WordBytes(b, 16 * k + 3 + s);
      Joined(InodeWord(b, k, 3 + s));
    }
  }

  lemma Joined(w: nat)
    ensures w == w % 0x1_0000 + 0x1_0000 * (w / 0x1_0000)
  {
  }

  lemma WordsOfEntry(b: Block, k: nat, d: Dinode, j: nat, i: nat)
    requires k < IPB && j < IPB && d.Fits() && i < INODE_WORDS
    ensures InodeWord(PutInode(b, k, d), j, i) == if j == k then InodeWords(d)[i] else InodeWord(b, j, i)
  {
    hide GetWord, InodeWords;
    GetPutWords(b, INODE_WORDS * k, InodeWords(d), INODE_WORDS, INODE_WORDS * j + i);
  }

  lemma GetPutInode(b: Block, k: nat, d: Dinode, j: nat)
    requires k < IPB && j < IPB && d.Fits()
    ensures GetInode(PutInode(b, k, d), j) == if j == k then d else GetInode(b, j)
  {
    hide InodeWord, PutInode;
    var r := PutInode(b, k, d);
    WordsOfEntry(b, k, d, j, 0);
    WordsOfEntry(b, k, d, j, 1);
    WordsOfEntry(b, k, d, j, 2);
    Halves(d.ftype, d.major);
    Halves(d.minor, d.nlink);
    forall s | 0 <= s <= NDIRECT
      ensures GetInode(r, j).addrs[s] == if j == k then d.addrs[s] else GetInode(b, j).addrs[s]
    {
      WordsOfEntry(b, k, d, j, 3 + s);
    }
    assert GetInode(r, j).addrs == if j == k then d.addrs else GetInode(b, j).addrs;
  }

  lemma Halves(lo: Short, hi: Short)
    ensures (lo + 0x1_0000 * hi) % 0x1_0000 == lo && (lo + 0x1_0000 * hi) / 0x1_0000 == hi
  {
  }

  /** The inodes on a disk. */
  function TableOf(sb: Super, blocks: Image): (t: Table)
    requires sb.Valid() && |blocks| == sb.size
    ensures |t| == sb.ninodes
  {
    seq(sb.ninodes, (i: nat) requires i < sb.ninodes => InodeAt(sb, blocks, i))
  }

  function InodeAt(sb: Super, blocks: Image, i: nat): Dinode
    requires sb.Valid() && |blocks| == sb.size && i < sb.ninodes
  {
    sb.IBlockIsInode(i);
    GetInode(blocks[sb.IBlock(i)], i % IPB)
  }

  /** Eight inodes to a block, from block inodestart on. */
  lemma InodeOnDisk(sb: Super, blocks: Image, i: nat)
    requires sb.Valid() && |blocks| == sb.size && i < sb.ninodes
    ensures sb.inodestart + i / 8 < |blocks|
    ensures TableOf(sb, blocks)[i] == GetInode(blocks[sb.inodestart + i / 8], i % 8)
  {
    sb.IBlockIsInode(i);
    hide GetInode;
  }

  ghost predicate Stored(sb: Super, blocks: Image, inodes: Table) {
    && sb.Valid() && |blocks| == sb.size && |inodes| == sb.ninodes
    && forall i {:trigger inodes[i]} :: 0 <= i < |inodes| ==> InodeAt(sb, blocks, i) == inodes[i]
  }

  /** A write outside the inode blocks does not touch the table. */
  lemma StoredElsewhere(sb: Super, blocks: Image, inodes: Table, x: nat, data: Block)
    requires Stored(sb, blocks, inodes) && x < |blocks| && !sb.IsInodeBlock(x)
    ensures Stored(sb, blocks[x := data], inodes)
  {
    hide GetInode;
    forall i | 0 <= i < |inodes| ensures InodeAt(sb, blocks[x := data], i) == InodeAt(sb, blocks, i) {
      sb.IBlockIsInode(i);
    }
  }

  /** iupdate changes one entry of the table. */
  lemma StoredUpdate(sb: Super, blocks: Image, inodes: Table, i: nat, d: Dinode)
    requires Stored(sb, blocks, inodes) && i < |inodes| && d.Fits()
    ensures var x := sb.IBlock(i);
      x < |blocks| && Stored(sb, blocks[x := PutInode(blocks[x], i % IPB, d)], inodes[i := d])
  {
    hide GetInode, PutInode;
    var x := sb.IBlock(i);
    sb.IBlockIsInode(i);
    var after := blocks[x := PutInode(blocks[x], i % IPB, d)];
    forall j | 0 <= j < |inodes| ensures InodeAt(sb, after, j) == inodes[i := d][j] {
      sb.IBlockIsInode(j);
      GetPutInode(blocks[x], i % IPB, d, j % IPB);
      SamePlace(i, j);
    }
  }

  lemma SamePlace(i: nat, j: nat)
    ensures i == j <==> i / IPB == j / IPB && i % IPB == j % IPB
  {
    assert i == 8 * (i / 8) + i % 8 && j == 8 * (j / 8) + j % 8;
  }

  /** The inodes of a consistent file system have 32-bit block numbers. */
  lemma OwnedFits(sb: Super, blocks: Image, inodes: Table, owner: seq<Owner>, i: nat)
    requires Owned(sb, blocks, inodes, owner) && i < |inodes|
    ensures inodes[i].Fits()
  {
    var d := inodes[i];
    forall s | 0 <= s <= NDIRECT ensures d.addrs[s] < 0x1_0000_0000 {
      assert Ref(blocks, d, s) == d.addrs[s];
    }
  }

  /** Writing an inode block does not change who owns what: no bit and no reference lies in it. */
  lemma InodeWriteOwned(sb: Super, blocks: Image, inodes: Table, owner: seq<Owner>, x: nat, data: Block)
    requires Owned(sb, blocks, inodes, owner) && x < |blocks| && sb.IsInodeBlock(x)
    ensures Owned(sb, blocks[x := data], inodes, owner)
    ensures forall b :: 0 <= b < sb.size ==> Bit(sb, blocks[x := data], b) == Bit(sb, blocks, b)
    ensures forall i :: 0 <= i < |inodes| ==> Untouched(blocks, blocks[x := data], inodes[i])
  {
    var after := blocks[x := data];
    assert owner[x] == Meta;
    forall i | 0 <= i < |inodes| ensures inodes[i].addrs[NDIRECT] != x {
      NotIndirect(sb, blocks, inodes, owner, x, i);
    }
    forall b | 0 <= b < sb.size ensures Bit(sb, after, b) == Bit(sb, blocks, b) {
      sb.BBlockIsBitmap(b);
    }
    SameRefsOwned(blocks, after, inodes, owner);
    forall i | 0 <= i < |inodes| ensures Untouched(blocks, after, inodes[i]) {
      OthersUntouched(sb, blocks, inodes, owner, x, data, i);
    }
  }

  /** Nor does it change any file. */
  lemma InodeWriteFiles(sb: Super, blocks: Image, inodes: Table, owner: seq<Owner>, x: nat, data: Block)
    requires Owned(sb, blocks, inodes, owner) && x < |blocks| && sb.IsInodeBlock(x)
    requires forall i :: 0 <= i < |inodes| ==> Mapped(blocks, inodes[i])
    ensures forall i :: 0 <= i < |inodes| ==>
      && Mapped(blocks[x := data], inodes[i]) && inodes[i].Valid()
      && Content(blocks[x := data], inodes[i]) == Content(blocks, inodes[i])
  {
    InodeWriteOwned(sb, blocks, inodes, owner, x, data);
    hide Ref, Content;
    forall i | 0 <= i < |inodes|
      ensures Mapped(blocks[x := data], inodes[i])
      ensures Content(blocks[x := data], inodes[i]) == Content(blocks, inodes[i])
    {
      UntouchedContent(blocks, blocks[x := data], inodes[i]);
    }
  }
}
