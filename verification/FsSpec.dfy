/**
 The on-disk structures of fs.c and who owns each block.

 `owner` records for every block whether it is free, metadata, referenced by one slot of one inode,
 or just allocated and not linked yet (`Held`). `Owned` ties it to the bitmap bits and to the block
 numbers stored in inodes and indirect blocks.
 */
module FsSpec {
  import opened Blocks

  const NDIRECT: nat := 12
  const NINDIRECT: nat := 128
  const MAXFILE: nat := 140
  const NSLOTS: nat := 141   // direct blocks, the indirect block itself, its entries
  const BPB: nat := 4096     // bitmap bits per block
  const IPB: nat := 8        // inodes per block
  const T_DEV: nat := 3

  /** The superblock fields used here; blocks below nmeta are boot, super, log, inodes and bitmap. */
  datatype Super = Super(size: nat, inodestart: nat, bmapstart: nat, nmeta: nat, ninodes: nat) {
    predicate Valid() {
      && 0 < nmeta <= size < 0x1_0000_0000 && 0 < bmapstart && 0 < inodestart
      && bmapstart + (size - 1) / BPB < nmeta
      && inodestart + ninodes / IPB < bmapstart
    }

    /** Number of blocks that hold the bits of the blocks below size. */
    function BitmapBlocks(): nat {
      if size == 0 then 0 else (size - 1) / BPB + 1
    }

    predicate IsBitmap(x: nat) {
      bmapstart <= x < bmapstart + BitmapBlocks()
    }

    function BBlock(b: nat): nat {
      b / BPB + bmapstart
    }

    lemma BBlockIsBitmap(b: nat)
      requires b < size
      ensures IsBitmap(BBlock(b))
    {
    }

    function IBlock(inum: nat): nat {
      inum / IPB + inodestart
    }

    predicate IsInodeBlock(x: nat) {
      inodestart <= x <= inodestart + ninodes / IPB
    }

    lemma IBlockIsInode(inum: nat)
      requires Valid() && inum < ninodes
      ensures IsInodeBlock(IBlock(inum)) && IBlock(inum) < nmeta
    {
      assert inum / IPB <= ninodes / IPB;
    }
  }

  type Short = x: nat | x < 0x1_0000

  datatype Dinode = Dinode(ftype: Short, major: Short, minor: Short, nlink: Short, size: nat, addrs: seq<nat>) {
    predicate Valid() {
      |addrs| == NDIRECT + 1 && size <= MAXFILE * BSIZE
    }

    /** Every field fits its bytes. */
    predicate Fits() {
      && |addrs| == NDIRECT + 1 && size < 0x1_0000_0000
      && forall s :: 0 <= s <= NDIRECT ==> addrs[s] < 0x1_0000_0000
    }
  }

  type Table = seq<Dinode>

  ghost predicate GoodTable(inodes: Table) {
    forall i :: 0 <= i < |inodes| ==> inodes[i].Valid()
  }

  // ----- bitmap bits -----

  /** (x & (1 << k)) != 0, one shift at a time. */
  predicate TestBit(x: nat, k: nat) {
    if k == 0 then x % 2 == 1 else TestBit(x / 2, k - 1)
  }

  /** x | (1 << k) if `on`, else x & ~(1 << k). */
  function PutBitIn(x: nat, k: nat, on: bool): (r: nat)
    ensures forall j: nat :: TestBit(r, j) == if j == k then on else TestBit(x, j)
  {
    if k == 0 then
      var r := x - x % 2 + (if on then 1 else 0);
      assert r / 2 == x / 2;
      r
    else
      var r := 2 * PutBitIn(x / 2, k - 1, on) + x % 2;
      assert r / 2 == PutBitIn(x / 2, k - 1, on) && r % 2 == x % 2;
      r
  }

  lemma {:induction false} PutBitStaysIn(x: nat, k: nat, on: bool, w: nat, bound: nat)
    requires x < bound && k < w && bound == Pow2(w)
    ensures PutBitIn(x, k, on) < bound
  {
    if k > 0 {
      PutBitStaysIn(x / 2, k - 1, on, w - 1, bound / 2);
    }
  }

  function Pow2(w: nat): nat {
    if w == 0 then 1 else 2 * Pow2(w - 1)
  }

  lemma PutBitByte(x: Byte, k: nat, on: bool)
    requires k < 8
    ensures PutBitIn(x, k, on) < 256
  {
    assert Pow2(8) == 256 by {
      assert Pow2(2) == 4;
      assert Pow2(4) == 16;
      assert Pow2(6) == 64;
    }
    PutBitStaysIn(x, k, on, 8, 256);
  }

  /** Bit k of a byte has the value 1 << k. */
  lemma {:induction false} BitValue(x: nat, k: nat)
    requires k < 8
    ensures TestBit(x, k) <==> x / [1, 2, 4, 8, 16, 32, 64, 128][k] % 2 == 1
  {
    if k > 0 {
      BitValue(x / 2, k - 1);
      assert x / 2 / 2 == x / 4 && x / 2 / 4 == x / 8 && x / 2 / 8 == x / 16;
      assert x / 2 / 16 == x / 32 && x / 2 / 32 == x / 64 && x / 2 / 64 == x / 128;
    }
  }

  // ----- arithmetic of bit positions -----

  lemma WithinBitmapBlock(b: nat, bi: nat)
    requires b % BPB == 0 && bi < BPB
    ensures (b + bi) / BPB == b / BPB && (b + bi) % BPB == bi && (b + bi) % 8 == bi % 8
  {
    var q := b / BPB;
    assert b == 4096 * q;
    SplitByBlock(q, bi);
    SplitByByte(512 * q, bi);
    assert 8 * (512 * q) == b;
  }

  lemma SplitByBlock(q: nat, bi: nat)
    requires bi < 4096
    ensures (4096 * q + bi) / 4096 == q && (4096 * q + bi) % 4096 == bi
  {
  }

  lemma SplitByByte(q: nat, bi: nat)
    ensures (8 * q + bi) % 8 == bi % 8
  {
    var v := bi / 8;
    assert 8 * q + bi == 8 * (q + v) + bi % 8;
  }

  /** Block, byte and bit number determine the block that a bitmap bit stands for. */
  lemma BitPlace(b: nat, c: nat)
    ensures b == c <==> b / BPB == c / BPB && b % BPB / 8 == c % BPB / 8 && b % 8 == c % 8
    ensures b % BPB / 8 < BSIZE
  {
    BitParts(b);
    BitParts(c);
  }

  lemma BitParts(b: nat)
    ensures b == 4096 * (b / BPB) + 8 * (b % BPB / 8) + b % 8 && b % BPB / 8 < 512
  {
    var q, r := b / BPB, b % BPB;
    assert b == 4096 * q + r;
    SplitByByte(512 * q, r);
    assert 8 * (512 * q) == 4096 * q;
  }

  predicate Bit(sb: Super, blocks: Image, b: nat)
    requires sb.Valid() && |blocks| == sb.size && b < sb.size
  {
    TestBit(blocks[sb.BBlock(b)].at[b % BPB / 8], b % 8)
  }

  /** The bitmap on the disk: a bit for each block, 4096 to a bitmap block, the lowest bit of a byte first. */
  lemma BitOnDisk(sb: Super, blocks: Image, b: nat)
    requires sb.Valid() && |blocks| == sb.size && b < sb.size
    ensures sb.bmapstart + b / 4096 < |blocks|
    ensures Bit(sb, blocks, b) <==>
      blocks[sb.bmapstart + b / 4096].at[b % 4096 / 8] / [1, 2, 4, 8, 16, 32, 64, 128][b % 8] % 2 == 1
  {
    BitValue(blocks[sb.BBlock(b)].at[b % BPB / 8], b % 8);
    hide TestBit;
  }

  /** The disk after bit b of the bitmap is set or cleared. */
  function PutBit(sb: Super, blocks: Image, b: nat, on: bool): (r: Image)
    requires sb.Valid() && |blocks| == sb.size && b < sb.size
    ensures |r| == |blocks|
    ensures forall x :: 0 <= x < |blocks| && x != sb.BBlock(b) ==> r[x] == blocks[x]
  {
    var bb := sb.BBlock(b);
    var i := b % BPB / 8;
    PutBitByte(blocks[bb].at[i], b % 8, on);
    blocks[bb := Bytes(blocks[bb].at[i := PutBitIn(blocks[bb].at[i], b % 8, on)])]
  }

  lemma PutBitBits(sb: Super, blocks: Image, b: nat, on: bool, c: nat)
    requires sb.Valid() && |blocks| == sb.size && b < sb.size && c < sb.size
    ensures Bit(sb, PutBit(sb, blocks, b, on), c) == if c == b then on else Bit(sb, blocks, c)
  {
    hide TestBit;
    BitPlace(b, c);
  }

  // ----- block references -----

  /** Slot s of an inode: a direct block, the indirect block (s == NDIRECT), or an entry of the latter. */
  function Ref(blocks: Image, d: Dinode, s: nat): nat
    requires |d.addrs| == NDIRECT + 1 && s < NSLOTS
  {
    if s <= NDIRECT then d.addrs[s]
    else if d.addrs[NDIRECT] == 0 || d.addrs[NDIRECT] >= |blocks| then 0
    else GetWord(blocks[d.addrs[NDIRECT]], s - NDIRECT - 1)
  }

  /** The slot that holds file block bn. */
  function Slot(bn: nat): nat {
    if bn < NDIRECT then bn else bn + 1
  }

  datatype Owner = Free | Meta | Held | By(i: nat, s: nat)

  ghost predicate BitsMatch(sb: Super, blocks: Image, owner: seq<Owner>) {
    && sb.Valid() && |blocks| == |owner| == sb.size
    && forall b :: 0 <= b < sb.size ==> (Bit(sb, blocks, b) <==> owner[b] != Free)
  }

  ghost predicate MetaFirst(sb: Super, owner: seq<Owner>) {
    && |owner| == sb.size
    && forall b :: 0 <= b < |owner| ==> (owner[b] == Meta <==> b < sb.nmeta)
  }

  /** Every reference is recorded, so no block is referenced twice. */
  ghost predicate RefsOwned(blocks: Image, inodes: Table, owner: seq<Owner>) {
    && GoodTable(inodes)
    && forall i, s {:trigger Ref(blocks, inodes[i], s)} ::
         0 <= i < |inodes| && 0 <= s < NSLOTS && Ref(blocks, inodes[i], s) != 0 ==>
         Ref(blocks, inodes[i], s) < |owner| && owner[Ref(blocks, inodes[i], s)] == By(i, s)
  }

  /** Every recorded owner does refer to its block, so no block leaks. */
  ghost predicate OwnersRefer(blocks: Image, inodes: Table, owner: seq<Owner>) {
    && GoodTable(inodes)
    && forall b :: 0 <= b < |owner| && owner[b].By? ==>
         owner[b].i < |inodes| && owner[b].s < NSLOTS && Ref(blocks, inodes[owner[b].i], owner[b].s) == b
  }

  ghost predicate Owned(sb: Super, blocks: Image, inodes: Table, owner: seq<Owner>) {
    && |inodes| == sb.ninodes
    && BitsMatch(sb, blocks, owner)
    && MetaFirst(sb, owner)
    && RefsOwned(blocks, inodes, owner)
    && OwnersRefer(blocks, inodes, owner)
  }

  ghost predicate NoneHeld(owner: seq<Owner>) {
    forall b :: 0 <= b < |owner| ==> owner[b] != Held
  }

  lemma SameAddrsRefs(b: Image, d: Dinode, d': Dinode)
    requires d.addrs == d'.addrs && |d.addrs| == NDIRECT + 1
    ensures forall s :: 0 <= s < NSLOTS ==> Ref(b, d', s) == Ref(b, d, s)
  {
  }

  // ----- effect of single block writes -----

  lemma RefFrame(blocks: Image, x: nat, data: Block, d: Dinode, s: nat)
    requires |d.addrs| == NDIRECT + 1 && s < NSLOTS && x < |blocks| && x != d.addrs[NDIRECT]
    ensures Ref(blocks[x := data], d, s) == Ref(blocks, d, s)
  {
  }

  /** Only the owner of an indirect block reads block numbers from it. */
  lemma NotIndirect(sb: Super, blocks: Image, inodes: Table, owner: seq<Owner>, x: nat, i: nat)
    requires Owned(sb, blocks, inodes, owner) && x < |blocks| && i < |inodes| && 0 < x
    requires owner[x] != By(i, NDIRECT)
    ensures inodes[i].addrs[NDIRECT] != x
  {
    var r := Ref(blocks, inodes[i], NDIRECT);
  }

  ghost predicate IsIndirect(o: Owner) {
    o.By? && o.s == NDIRECT
  }

  /** Writing a block that is neither metadata nor indirect keeps the ownership. */
  lemma DataWriteOwned(sb: Super, blocks: Image, inodes: Table, owner: seq<Owner>, x: nat, data: Block)
    requires Owned(sb, blocks, inodes, owner) && x < |blocks| && owner[x] != Meta && !IsIndirect(owner[x])
    ensures Owned(sb, blocks[x := data], inodes, owner)
  {
    var after := blocks[x := data];
    forall i | 0 <= i < |inodes| ensures inodes[i].addrs[NDIRECT] != x {
      NotIndirect(sb, blocks, inodes, owner, x, i);
    }
    forall b | 0 <= b < sb.size ensures Bit(sb, after, b) == Bit(sb, blocks, b) {
      assert owner[sb.BBlock(b)] == Meta;
    }
    SameRefsOwned(blocks, after, inodes, owner);
  }

  lemma SameRefsOwned(blocks: Image, after: Image, inodes: Table, owner: seq<Owner>)
    requires RefsOwned(blocks, inodes, owner) && OwnersRefer(blocks, inodes, owner)
    requires forall i, s {:trigger Ref(blocks, inodes[i], s)} {:trigger Ref(after, inodes[i], s)} ::
      0 <= i < |inodes| && 0 <= s < NSLOTS ==> Ref(after, inodes[i], s) == Ref(blocks, inodes[i], s)
    ensures RefsOwned(after, inodes, owner) && OwnersRefer(after, inodes, owner)
  {
  }

  /** Allocating a free block or freeing a held one: the bitmap bit and the owner change together. */
  lemma PutBitOwned(sb: Super, blocks: Image, inodes: Table, owner: seq<Owner>, b: nat, on: bool)
    requires Owned(sb, blocks, inodes, owner) && b < sb.size && owner[b] == if on then Free else Held
    ensures Owned(sb, PutBit(sb, blocks, b, on), inodes, owner[b := if on then Held else Free])
    ensures forall i :: 0 <= i < |inodes| ==> inodes[i].addrs[NDIRECT] != sb.BBlock(b)
  {
    var after, owner' := PutBit(sb, blocks, b, on), owner[b := if on then Held else Free];
    var bb := sb.BBlock(b);
    assert owner[bb] == Meta;
    forall i | 0 <= i < |inodes| ensures inodes[i].addrs[NDIRECT] != bb {
      NotIndirect(sb, blocks, inodes, owner, bb, i);
    }
    forall c | 0 <= c < sb.size ensures Bit(sb, after, c) <==> owner'[c] != Free {
      PutBitBits(sb, blocks, b, on, c);
    }
    SameRefsOwned(blocks, after, inodes, owner);
  }

  /** bmap stores a freshly allocated block in the inode. */
  lemma LinkDirect(sb: Super, blocks: Image, inodes: Table, owner: seq<Owner>, i: nat, s: nat, b: nat)
    requires Owned(sb, blocks, inodes, owner) && i < |inodes| && s <= NDIRECT && 0 < b < sb.size
    requires owner[b] == Held && inodes[i].addrs[s] == 0
    requires s == NDIRECT ==> blocks[b] == ZERO_BLOCK
    ensures Owned(sb, blocks, inodes[i := inodes[i].(addrs := inodes[i].addrs[s := b])], owner[b := By(i, s)])
    ensures forall t :: 0 <= t < NSLOTS ==>
      Ref(blocks, inodes[i].(addrs := inodes[i].addrs[s := b]), t) == if t == s then b else Ref(blocks, inodes[i], t)
  {
    var d := inodes[i].(addrs := inodes[i].addrs[s := b]);
    forall t | 0 <= t < NSLOTS ensures Ref(blocks, d, t) == if t == s then b else Ref(blocks, inodes[i], t) {
      if s == NDIRECT && t > NDIRECT {
        ZeroWord(t - NDIRECT - 1);
      }
    }
  }

  /** bmap stores a freshly allocated block in entry j of the inode's indirect block. */
  lemma LinkIndirect(sb: Super, blocks: Image, inodes: Table, owner: seq<Owner>, i: nat, j: nat, b: nat)
    requires Owned(sb, blocks, inodes, owner) && i < |inodes| && j < NINDIRECT && 0 < b < sb.size
    requires owner[b] == Held && inodes[i].addrs[NDIRECT] != 0 && Ref(blocks, inodes[i], NDIRECT + 1 + j) == 0
    ensures var x := inodes[i].addrs[NDIRECT];
      && x < |blocks| && owner[x] == By(i, NDIRECT)
      && var after := blocks[x := PutWord(blocks[x], j, b)];
      && Owned(sb, after, inodes, owner[b := By(i, NDIRECT + 1 + j)])
      && (forall t :: 0 <= t < NSLOTS ==>
            Ref(after, inodes[i], t) == if t == NDIRECT + 1 + j then b else Ref(blocks, inodes[i], t))
      && forall k, t {:trigger Ref(after, inodes[k], t)} :: 0 <= k < |inodes| && k != i && 0 <= t < NSLOTS ==>
            Ref(after, inodes[k], t) == Ref(blocks, inodes[k], t)
  {
    hide Ref, Bit;
    EntryRefs(sb, blocks, inodes, owner, i, j, b);
    var x := inodes[i].addrs[NDIRECT];
    var after := blocks[x := PutWord(blocks[x], j, b)];
    OneMoreRef(blocks, after, inodes, owner, i, NDIRECT + 1 + j, b);
    DataKeepsBits(sb, blocks, owner, x, PutWord(blocks[x], j, b));
  }

  lemma DataKeepsBits(sb: Super, blocks: Image, owner: seq<Owner>, x: nat, data: Block)
    requires BitsMatch(sb, blocks, owner) && MetaFirst(sb, owner) && x < |blocks| && owner[x] != Meta
    ensures BitsMatch(sb, blocks[x := data], owner)
  {
    forall c | 0 <= c < sb.size ensures Bit(sb, blocks[x := data], c) == Bit(sb, blocks, c) {
      assert owner[sb.BBlock(c)] == Meta;
    }
  }

  /** A number stored in an entry of the indirect block of inode i: no other reference changes. */
  lemma EntryRefs(sb: Super, blocks: Image, inodes: Table, owner: seq<Owner>, i: nat, j: nat, b: nat)
    requires Owned(sb, blocks, inodes, owner) && i < |inodes| && j < NINDIRECT && b < sb.size
    requires inodes[i].addrs[NDIRECT] != 0
    ensures var x := inodes[i].addrs[NDIRECT];
      && x < |blocks| && owner[x] == By(i, NDIRECT)
      && var after := blocks[x := PutWord(blocks[x], j, b)];
      && (forall t :: 0 <= t < NSLOTS ==>
            Ref(after, inodes[i], t) == if t == NDIRECT + 1 + j then b else Ref(blocks, inodes[i], t))
      && forall k, t {:trigger Ref(after, inodes[k], t)} :: 0 <= k < |inodes| && k != i && 0 <= t < NSLOTS ==>
            Ref(after, inodes[k], t) == Ref(blocks, inodes[k], t)
  {
    var x := inodes[i].addrs[NDIRECT];
    assert Ref(blocks, inodes[i], NDIRECT) == x;
    var after := blocks[x := PutWord(blocks[x], j, b)];
    forall t | 0 <= t < NSLOTS
      ensures Ref(after, inodes[i], t) == if t == NDIRECT + 1 + j then b else Ref(blocks, inodes[i], t)
    {
      if t > NDIRECT {
        GetPut(blocks[x], j, b, t - NDIRECT - 1);
      }
    }
    forall k, t {:trigger Ref(after, inodes[k], t)} | 0 <= k < |inodes| && k != i && 0 <= t < NSLOTS
      ensures Ref(after, inodes[k], t) == Ref(blocks, inodes[k], t)
    {
      NotIndirect(sb, blocks, inodes, owner, x, k);
      RefFrame(blocks, x, PutWord(blocks[x], j, b), inodes[k], t);
    }
  }

  lemma OneMoreRef(blocks: Image, after: Image, inodes: Table, owner: seq<Owner>, i: nat, s: nat, b: nat)
    requires RefsOwned(blocks, inodes, owner) && OwnersRefer(blocks, inodes, owner) && 0 < b < |owner|
    requires owner[b] == Held && owner[0] == Meta
    requires i < |inodes| && s < NSLOTS && Ref(blocks, inodes[i], s) == 0
    requires forall t :: 0 <= t < NSLOTS ==> Ref(after, inodes[i], t) == if t == s then b else Ref(blocks, inodes[i], t)
    requires forall k, t {:trigger Ref(after, inodes[k], t)} :: 0 <= k < |inodes| && k != i && 0 <= t < NSLOTS ==>
      Ref(after, inodes[k], t) == Ref(blocks, inodes[k], t)
    ensures RefsOwned(after, inodes, owner[b := By(i, s)]) && OwnersRefer(after, inodes, owner[b := By(i, s)])
  {
    hide Ref;
  }

  /** The owners after inode i gives up all its blocks, before any of them is freed. */
  ghost function Released(owner: seq<Owner>, i: nat): seq<Owner> {
    seq(|owner|, (b: nat) requires b < |owner| => if owner[b].By? && owner[b].i == i then Held else owner[b])
  }

  ghost function NoAddrs(d: Dinode): Dinode {
    d.(addrs := seq(NDIRECT + 1, _ => 0))
  }

  lemma Detach(sb: Super, blocks: Image, inodes: Table, owner: seq<Owner>, i: nat)
    requires Owned(sb, blocks, inodes, owner) && i < |inodes|
    ensures Owned(sb, blocks, inodes[i := NoAddrs(inodes[i])], Released(owner, i))
  {
    var inodes', owner' := inodes[i := NoAddrs(inodes[i])], Released(owner, i);
    forall k, s {:trigger Ref(blocks, inodes'[k], s)} | 0 <= k < |inodes'| && 0 <= s < NSLOTS &&
      Ref(blocks, inodes'[k], s) != 0
      ensures Ref(blocks, inodes'[k], s) < |owner'| && owner'[Ref(blocks, inodes'[k], s)] == By(k, s)
    {
      assert k != i && inodes'[k] == inodes[k];
    }
  }

  /** Fields other than the addresses do not matter to ownership. */
  lemma SameAddrsOwned(sb: Super, blocks: Image, inodes: Table, owner: seq<Owner>, i: nat, d: Dinode)
    requires Owned(sb, blocks, inodes, owner) && i < |inodes| && d.Valid() && d.addrs == inodes[i].addrs
    ensures Owned(sb, blocks, inodes[i := d], owner)
  {
    var inodes' := inodes[i := d];
    forall k, s {:trigger Ref(blocks, inodes'[k], s)} | 0 <= k < |inodes'| && 0 <= s < NSLOTS
      ensures Ref(blocks, inodes'[k], s) == Ref(blocks, inodes[k], s)
    {
    }
  }

  // ----- file contents -----

  /** Byte k of a file. */
  function FileByte(blocks: Image, d: Dinode, k: nat): Byte
    requires d.Valid() && k < MAXFILE * BSIZE
  {
    var r := Ref(blocks, d, Slot(k / BSIZE));
    if r < |blocks| then blocks[r].at[k % BSIZE] else 0
  }

  /** What reading the whole file gives. */
  ghost function Content(blocks: Image, d: Dinode): (c: seq<Byte>)
    requires d.Valid()
    ensures |c| == d.size
  {
    seq(d.size, (k: nat) requires k < d.size => FileByte(blocks, d, k))
  }

  /** A file on the disk: twelve blocks in the inode, and the others in the words of the indirect block, in order. */
  lemma FileOnDisk(blocks: Image, d: Dinode, k: nat)
    requires d.Valid() && k < d.size
    ensures k / 512 < 12 && d.addrs[k / 512] < |blocks| ==>
      Content(blocks, d)[k] == blocks[d.addrs[k / 512]].at[k % 512]
    ensures 12 <= k / 512 < 140 && 0 < d.addrs[12] < |blocks| ==>
      var r := GetWord(blocks[d.addrs[12]], k / 512 - 12);
      r < |blocks| ==> Content(blocks, d)[k] == blocks[r].at[k % 512]
  {
    hide GetWord;
    assert Content(blocks, d)[k] == FileByte(blocks, d, k);
  }

  /** Files have no holes: every block below the size is allocated. */
  ghost predicate Mapped(blocks: Image, d: Dinode) {
    d.Valid() && forall bn {:trigger Slot(bn)} :: 0 <= bn < MAXFILE && bn * BSIZE < d.size ==>
      Ref(blocks, d, Slot(bn)) != 0
  }

  /** Nothing that belongs to the inode changed: same blocks, same data. */
  ghost predicate Untouched(blocks: Image, after: Image, d: Dinode) {
    && d.Valid() && |after| == |blocks|
    && forall s {:trigger Ref(after, d, s)} {:trigger Ref(blocks, d, s)} :: 0 <= s < NSLOTS ==>
         && Ref(after, d, s) == Ref(blocks, d, s)
         && (s != NDIRECT && 0 < Ref(blocks, d, s) < |blocks| ==> after[Ref(blocks, d, s)] == blocks[Ref(blocks, d, s)])
  }

  lemma UntouchedContent(blocks: Image, after: Image, d: Dinode)
    requires Untouched(blocks, after, d) && Mapped(blocks, d)
    ensures Mapped(after, d) && Content(after, d) == Content(blocks, d)
  {
    forall k | 0 <= k < d.size ensures FileByte(after, d, k) == FileByte(blocks, d, k) {
      assert Ref(blocks, d, Slot(k / BSIZE)) == Ref(after, d, Slot(k / BSIZE)) != 0;
    }
  }

  /** The inode keeps every block it had, with its data; it may have gained some. */
  ghost predicate Extends(blocks: Image, d: Dinode, after: Image, d': Dinode) {
    && d.Valid() && d'.Valid() && |after| == |blocks|
    && d'.(addrs := d.addrs) == d
    && forall s {:trigger Ref(after, d', s)} {:trigger Ref(blocks, d, s)} ::
         0 <= s < NSLOTS && Ref(blocks, d, s) != 0 ==>
         && Ref(after, d', s) == Ref(blocks, d, s)
         && (s != NDIRECT && Ref(blocks, d, s) < |blocks| ==> after[Ref(blocks, d, s)] == blocks[Ref(blocks, d, s)])
  }

  /** A write of one block that no other inode refers to leaves the other inodes untouched. */
  lemma OthersUntouched(sb: Super, blocks: Image, inodes: Table, owner: seq<Owner>, x: nat, data: Block, i: nat)
    requires Owned(sb, blocks, inodes, owner) && 0 < x < |blocks| && i < |inodes|
    requires !(owner[x].By? && owner[x].i == i)
    ensures Untouched(blocks, blocks[x := data], inodes[i])
  {
    NotIndirect(sb, blocks, inodes, owner, x, i);
  }

  // ----- what mapping a range of file blocks takes -----

  /** How many of the file blocks lo, ..., hi - 1 are not mapped. */
  ghost function Holes(b: Image, d: Dinode, lo: nat, hi: nat): nat
    requires |d.addrs| == NDIRECT + 1 && hi <= MAXFILE
    decreases hi
  {
    if lo >= hi then 0 else Holes(b, d, lo, hi - 1) + if Ref(b, d, Slot(hi - 1)) == 0 then 1 else 0
  }

  /** The free blocks that mapping these file blocks takes: one for each hole, and one for a missing indirect block. */
  ghost function Needed(b: Image, d: Dinode, lo: nat, hi: nat): nat
    requires |d.addrs| == NDIRECT + 1 && hi <= MAXFILE
  {
    Holes(b, d, lo, hi) + if lo < hi && NDIRECT < hi && d.addrs[NDIRECT] == 0 then 1 else 0
  }

  /** The inode became d1 by mapping the file blocks lo, ..., hi - 1 and no other; it kept what it had. */
  ghost predicate Grew(b0: Image, d0: Dinode, b1: Image, d1: Dinode, lo: nat, hi: nat) {
    && |d0.addrs| == |d1.addrs| == NDIRECT + 1 && hi <= MAXFILE
    && (d1.addrs[NDIRECT] == 0 <==> d0.addrs[NDIRECT] == 0 && !(lo < hi && NDIRECT < hi))
    && (d0.addrs[NDIRECT] != 0 ==> d1.addrs[NDIRECT] == d0.addrs[NDIRECT])
    && forall bn {:trigger Slot(bn)} :: 0 <= bn < MAXFILE ==>
         && (Ref(b1, d1, Slot(bn)) == 0 <==> Ref(b0, d0, Slot(bn)) == 0 && !(lo <= bn < hi))
         && (Ref(b0, d0, Slot(bn)) != 0 ==> Ref(b1, d1, Slot(bn)) == Ref(b0, d0, Slot(bn)))
  }

  lemma GrewNothing(b: Image, d: Dinode, lo: nat, hi: nat)
    requires |d.addrs| == NDIRECT + 1 && hi <= lo && hi <= MAXFILE
    ensures Grew(b, d, b, d, lo, hi)
  {
  }

  lemma GrewTwice(b0: Image, d0: Dinode, b1: Image, d1: Dinode, b2: Image, d2: Dinode, lo: nat, start: nat,
                  mid: nat, hi: nat)
    requires Grew(b0, d0, b1, d1, lo, mid) && Grew(b1, d1, b2, d2, start, hi) && lo <= start <= mid <= hi
    ensures Grew(b0, d0, b2, d2, lo, hi)
  {
    hide Ref;
  }

  lemma GrewSameRefs(b0: Image, d0: Dinode, b1: Image, d1: Dinode, b2: Image, d2: Dinode, lo: nat, hi: nat)
    requires Grew(b0, d0, b1, d1, lo, hi) && |d2.addrs| == NDIRECT + 1
    requires forall s :: 0 <= s < NSLOTS ==> Ref(b2, d2, s) == Ref(b1, d1, s)
    ensures Grew(b0, d0, b2, d2, lo, hi)
  {
    assert d2.addrs[NDIRECT] == Ref(b2, d2, NDIRECT) && d1.addrs[NDIRECT] == Ref(b1, d1, NDIRECT);
    hide Ref;
  }

  lemma {:induction false} HolesAfter(b0: Image, d0: Dinode, b1: Image, d1: Dinode, lo: nat, start: nat, mid: nat,
                                      hi: nat)
    requires Grew(b0, d0, b1, d1, lo, mid) && lo <= start <= mid <= hi <= MAXFILE
    ensures Holes(b0, d0, lo, hi) == Holes(b0, d0, lo, mid) + Holes(b1, d1, start, hi)
    decreases hi
  {
    if mid < hi {
      HolesAfter(b0, d0, b1, d1, lo, start, mid, hi - 1);
      assert Ref(b1, d1, Slot(hi - 1)) == 0 <==> Ref(b0, d0, Slot(hi - 1)) == 0;
    } else {
      NoHoles(b1, d1, start, hi);
    }
    hide Ref;
  }

  lemma {:induction false} NoHoles(b: Image, d: Dinode, lo: nat, hi: nat)
    requires |d.addrs| == NDIRECT + 1 && hi <= MAXFILE
    requires forall bn {:trigger Slot(bn)} :: lo <= bn < hi ==> Ref(b, d, Slot(bn)) != 0
    ensures Holes(b, d, lo, hi) == 0
    decreases hi
  {
    if lo < hi {
      NoHoles(b, d, lo, hi - 1);
    }
  }

  /** Mapping a range in two steps, the second starting inside the first or just behind it, takes as much as in one. */
  lemma NeededSplit(b0: Image, d0: Dinode, b1: Image, d1: Dinode, lo: nat, start: nat, mid: nat, hi: nat)
    requires Grew(b0, d0, b1, d1, lo, mid) && lo <= start <= mid <= hi <= MAXFILE
    ensures Needed(b0, d0, lo, hi) == Needed(b0, d0, lo, mid) + Needed(b1, d1, start, hi)
  {
    HolesAfter(b0, d0, b1, d1, lo, start, mid, hi);
    hide Ref;
  }

  lemma {:induction false} HolesAtMost(b: Image, d: Dinode, lo: nat, hi: nat)
    requires |d.addrs| == NDIRECT + 1 && lo <= hi <= MAXFILE
    ensures Holes(b, d, lo, hi) <= hi - lo
    ensures lo < hi && Ref(b, d, Slot(lo)) != 0 ==> Holes(b, d, lo, hi) < hi - lo
    decreases hi
  {
    if lo < hi {
      HolesAtMost(b, d, lo, hi - 1);
    }
  }

  // ----- writing file data -----

  /** memmove(bp->data + at, t, |t|) */
  function PutBytes(b: Block, at: nat, t: seq<Byte>): (r: Block)
    requires at + |t| <= BSIZE
  {
    Bytes(b.at[..at] + t + b.at[at + |t|..])
  }

  /** A byte sequence overwritten from `at` on, and extended if t goes beyond its end. */
  function Splice(s: seq<Byte>, at: nat, t: seq<Byte>): (r: seq<Byte>)
    requires at <= |s|
  {
    s[..at] + t + (if at + |t| < |s| then s[at + |t|..] else [])
  }

  lemma SpliceMeans(s: seq<Byte>, at: nat, t: seq<Byte>)
    requires at <= |s|
    ensures var r := Splice(s, at, t);
      && |r| == (if at + |t| < |s| then |s| else at + |t|)
      && forall k :: 0 <= k < |r| ==> r[k] == if at <= k < at + |t| then t[k - at] else s[k]
  {
  }

  lemma SpliceTwice(s: seq<Byte>, at: nat, t: seq<Byte>, u: seq<Byte>)
    requires at <= |s|
    ensures Splice(Splice(s, at, t), at + |t|, u) == Splice(s, at, t + u)
  {
  }

  /** Inode d0 became d while the first `tot` bytes of src were stored from `off` on; the size is not updated yet. */
  ghost predicate Wrote(b0: Image, d0: Dinode, b: Image, d: Dinode, off: nat, src: seq<Byte>, tot: nat) {
    && d0.Valid() && d.Valid() && Mapped(b0, d0)
    && d.(addrs := d0.addrs) == d0
    && off <= d0.size && tot <= |src| && off + |src| <= MAXFILE * BSIZE
    && (forall bn {:trigger Slot(bn)} :: 0 <= bn < MAXFILE && Ref(b0, d0, Slot(bn)) != 0 ==> Ref(b, d, Slot(bn)) != 0)
    && (forall k :: 0 <= k < d0.size && !(off <= k < off + tot) ==> FileByte(b, d, k) == FileByte(b0, d0, k))
    && (forall k :: off <= k < off + tot ==> Ref(b, d, Slot(k / BSIZE)) != 0 && FileByte(b, d, k) == src[k - off])
    && (d.addrs == d0.addrs || off + tot > d0.size)
  }

  lemma WroteNothing(b: Image, d: Dinode, off: nat, src: seq<Byte>)
    requires d.Valid() && Mapped(b, d) && off <= d.size && off + |src| <= MAXFILE * BSIZE
    ensures Wrote(b, d, b, d, off, src, 0)
  {
  }

  /** The data block of a file block is referenced from nowhere else. */
  lemma OneSlotPerBlock(sb: Super, b: Image, inodes: Table, owner: seq<Owner>, i: nat, s: nat, t: nat)
    requires Owned(sb, b, inodes, owner) && i < |inodes| && s < NSLOTS && t < NSLOTS && s != t
    requires Ref(b, inodes[i], s) != 0
    ensures Ref(b, inodes[i], s) != Ref(b, inodes[i], t)
  {
  }

  /** Byte k of a file lies among the `len` bytes at offset `at` of file block bn. */
  ghost predicate InRange(k: nat, bn: nat, at: nat, len: nat) {
    k / BSIZE == bn && at <= k % BSIZE < at + len
  }

  /** Storing bytes in the block of file block bn changes exactly those bytes of the file. */
  lemma StoreChangesBytes(sb: Super, b: Image, inodes: Table, owner: seq<Owner>, i: nat, bn: nat, at: nat,
                          t: seq<Byte>, k: nat)
    requires Owned(sb, b, inodes, owner) && i < |inodes| && bn < MAXFILE && at + |t| <= BSIZE && k < MAXFILE * BSIZE
    requires Ref(b, inodes[i], Slot(bn)) != 0
    ensures var addr := Ref(b, inodes[i], Slot(bn));
      && addr < |b|
      && var after := b[addr := PutBytes(b[addr], at, t)];
      && Ref(after, inodes[i], Slot(k / BSIZE)) == Ref(b, inodes[i], Slot(k / BSIZE))
      && (Ref(b, inodes[i], Slot(k / BSIZE)) != 0 ==>
            FileByte(after, inodes[i], k) ==
            if InRange(k, bn, at, |t|) then t[k % BSIZE - at] else FileByte(b, inodes[i], k))
  {
    var d := inodes[i];
    var addr := Ref(b, d, Slot(bn));
    OneSlotPerBlock(sb, b, inodes, owner, i, Slot(bn), NDIRECT);
    RefFrame(b, addr, PutBytes(b[addr], at, t), d, Slot(k / BSIZE));
    if k / BSIZE != bn {
      OneSlotPerBlock(sb, b, inodes, owner, i, Slot(bn), Slot(k / BSIZE));
    }
  }

  lemma ExtendKeepsBytes(b: Image, d: Dinode, b1: Image, d1: Dinode, k: nat)
    requires Extends(b, d, b1, d1) && k < MAXFILE * BSIZE && Ref(b, d, Slot(k / BSIZE)) != 0
    ensures Ref(b1, d1, Slot(k / BSIZE)) == Ref(b, d, Slot(k / BSIZE)) && FileByte(b1, d1, k) == FileByte(b, d, k)
  {
    assert Slot(k / BSIZE) != NDIRECT;
  }

  /** Bounds of one iteration of writei: the bytes that fit in the current block. */
  ghost predicate Chunk(pos: nat, left: nat, m: nat) {
    m == if left < BSIZE - pos % BSIZE then left else BSIZE - pos % BSIZE
  }

  /** min(left, BSIZE - pos % BSIZE) */
  function ChunkSize(pos: nat, left: nat): (m: nat)
    ensures Chunk(pos, left, m)
  {
    if left < BSIZE - pos % BSIZE then left else BSIZE - pos % BSIZE
  }

  lemma ChunkBytes(pos: nat, left: nat, m: nat, k: nat)
    requires Chunk(pos, left, m) && left > 0
    ensures 0 < m <= left && pos % BSIZE + m <= BSIZE
    ensures pos <= k < pos + m <==> k / BSIZE == pos / BSIZE && pos % BSIZE <= k % BSIZE < pos % BSIZE + m
    ensures pos <= k < pos + m ==> k % BSIZE - pos % BSIZE == k - pos
  {
    assert pos == BSIZE * (pos / BSIZE) + pos % BSIZE && k == BSIZE * (k / BSIZE) + k % BSIZE;
  }

  /** One iteration of writei: bmap extends the inode from d to d1, then m bytes go into the block. */
  lemma WroteStep(sb: Super, b0: Image, d0: Dinode, b: Image, d: Dinode, b1: Image, inodes: Table,
                  owner: seq<Owner>, i: nat,
                  off: nat, src: seq<Byte>, tot: nat, m: nat)
    requires Wrote(b0, d0, b, d, off, src, tot) && tot < |src| && Chunk(off + tot, |src| - tot, m)
    requires i < |inodes| && Owned(sb, b1, inodes, owner) && Extends(b, d, b1, inodes[i])
    requires var bn := (off + tot) / BSIZE;
      && Ref(b1, inodes[i], Slot(bn)) != 0
      && (Ref(b, d, Slot(bn)) != 0 ==> inodes[i] == d)
    ensures var addr := Ref(b1, inodes[i], Slot((off + tot) / BSIZE));
      && tot + m <= |src| && (off + tot) % BSIZE + m <= BSIZE && addr < |b1|
      && Wrote(b0, d0, b1[addr := PutBytes(b1[addr], (off + tot) % BSIZE, src[tot..tot + m])], inodes[i], off, src,
        tot + m)
  {
    hide Ref, FileByte, Owned, PutBytes, Chunk;
    var pos, d1 := off + tot, inodes[i];
    var bn, at := pos / BSIZE, pos % BSIZE;
    ChunkBytes(pos, |src| - tot, m, 0);
    var t := src[tot..tot + m];
    var addr := Ref(b1, d1, Slot(bn));
    StoreChangesBytes(sb, b1, inodes, owner, i, bn, at, t, 0);
    var b2 := b1[addr := PutBytes(b1[addr], at, t)];
    forall n {:trigger Slot(n)} | 0 <= n < MAXFILE && Ref(b0, d0, Slot(n)) != 0 ensures Ref(b2, d1, Slot(n)) != 0 {
      StaysMapped(sb, b, d, b1, inodes, owner, i, bn, at, t, n);
    }
    forall k | 0 <= k < d0.size && !(off <= k < off + tot + m) ensures FileByte(b2, d1, k) == FileByte(b0, d0, k) {
      assert Ref(b0, d0, Slot(k / BSIZE)) != 0;
      StoredOutside(sb, b, d, b1, inodes, owner, i, pos, |src| - tot, m, t, k);
    }
    forall k | off <= k < off + tot + m
      ensures Ref(b2, d1, Slot(k / BSIZE)) != 0 && FileByte(b2, d1, k) == src[k - off]
    {
      if k < pos {
        StoredOutside(sb, b, d, b1, inodes, owner, i, pos, |src| - tot, m, t, k);
      } else {
        ChunkBytes(pos, |src| - tot, m, k);
        StoreChangesBytes(sb, b1, inodes, owner, i, bn, at, t, k);
      }
    }
    if Ref(b, d, Slot(bn)) == 0 {
      // an unmapped block lies at or beyond the end of the file
      assert Ref(b0, d0, Slot(bn)) == 0;
      assert bn * BSIZE >= d0.size;
    }
  }

  lemma StaysMapped(sb: Super, b: Image, d: Dinode, b1: Image, inodes: Table, owner: seq<Owner>, i: nat,
                    bn: nat, at: nat, t: seq<Byte>, n: nat)
    requires i < |inodes| && Owned(sb, b1, inodes, owner) && Extends(b, d, b1, inodes[i])
    requires bn < MAXFILE && at + |t| <= BSIZE && Ref(b1, inodes[i], Slot(bn)) != 0
    requires n < MAXFILE && Ref(b, d, Slot(n)) != 0
    ensures var addr := Ref(b1, inodes[i], Slot(bn));
      addr < |b1| && Ref(b1[addr := PutBytes(b1[addr], at, t)], inodes[i], Slot(n)) != 0
  {
    hide Owned, Extends, PutBytes, Ref;
    ExtendKeepsBytes(b, d, b1, inodes[i], n * BSIZE);
    StoreChangesBytes(sb, b1, inodes, owner, i, bn, at, t, n * BSIZE);
  }

  lemma StoredOutside(sb: Super, b: Image, d: Dinode, b1: Image, inodes: Table, owner: seq<Owner>, i: nat,
                      pos: nat, left: nat, m: nat, t: seq<Byte>, k: nat)
    requires i < |inodes| && Owned(sb, b1, inodes, owner) && Extends(b, d, b1, inodes[i])
    requires Chunk(pos, left, m) && left > 0 && |t| == m && pos + left <= MAXFILE * BSIZE
    requires k < MAXFILE * BSIZE && !(pos <= k < pos + m) && Ref(b, d, Slot(k / BSIZE)) != 0
    requires Ref(b1, inodes[i], Slot(pos / BSIZE)) != 0
    ensures var addr := Ref(b1, inodes[i], Slot(pos / BSIZE));
      && addr < |b1| && pos % BSIZE + m <= BSIZE
      && var b2 := b1[addr := PutBytes(b1[addr], pos % BSIZE, t)];
      && FileByte(b2, inodes[i], k) == FileByte(b, d, k)
      && Ref(b2, inodes[i], Slot(k / BSIZE)) != 0
  {
    ChunkBytes(pos, left, m, k);
    ExtendKeepsBytes(b, d, b1, inodes[i], k);
    StoreChangesBytes(sb, b1, inodes, owner, i, pos / BSIZE, pos % BSIZE, t, k);
  }

  /** When all bytes are stored and the size is updated, the file is the old one spliced. */
  lemma WroteAll(b0: Image, d0: Dinode, b: Image, d: Dinode, off: nat, src: seq<Byte>)
    requires Wrote(b0, d0, b, d, off, src, |src|)
    ensures var d' := d.(size := if off + |src| > d.size then off + |src| else d.size);
      && d'.Valid() && Mapped(b, d')
      && Content(b, d') == Splice(Content(b0, d0), off, src)
      && (off + |src| <= d.size ==> d' == d0)
  {
    var end := off + |src|;
    var d' := d.(size := if end > d.size then end else d.size);
    forall s | 0 <= s < NSLOTS ensures Ref(b, d', s) == Ref(b, d, s) {
    }
    forall bn {:trigger Slot(bn)} | 0 <= bn < MAXFILE && bn * BSIZE < d'.size ensures Ref(b, d', Slot(bn)) != 0 {
      if bn * BSIZE >= d0.size {
        // the block was written: it contains the byte at off or starts inside the written range
        var k := if bn * BSIZE < off then off else bn * BSIZE;
        assert off <= k < end && k / BSIZE == bn;
      }
    }
    forall k | 0 <= k < d'.size ensures Content(b, d')[k] == Splice(Content(b0, d0), off, src)[k] {
      assert FileByte(b, d', k) == FileByte(b, d, k);
    }
  }
}
