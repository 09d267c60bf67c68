/**
 mkfs.c: the image that it makes block by block is a sound file system.

 mkfs hands out blocks by counting up `freeblock` and writes the bitmap only at the end. `shadow` is the image as it
 would be if every block were marked when it is handed out; only the bitmap blocks differ.
 */
module Mkfs {
  import opened Blocks
  import opened FsSpec
  import opened FsImages
  import opened FsInodes
  import opened FileSystems
  import opened FsCrash
  import opened LogSpec

  /** All other inodes are as they were, with their blocks and data. */
  ghost predicate OthersKept(before: Image, after: Image, t: Table, i: nat) {
    forall k :: 0 <= k < |t| && k != i ==> Untouched(before, after, t[k])
  }

  ghost predicate NoneTouched(before: Image, after: Image, t: Table) {
    forall k :: 0 <= k < |t| ==> Untouched(before, after, t[k])
  }

  lemma OthersKeptTwice(a: Image, b: Image, c: Image, t: Table, i: nat)
    requires OthersKept(a, b, t, i) && OthersKept(b, c, t, i)
    ensures OthersKept(a, c, t, i)
  {
    hide Ref, Untouched;
    forall k | 0 <= k < |t| && k != i ensures Untouched(a, c, t[k]) {
      UntouchedTwice(a, b, c, t[k]);
    }
  }

  /** In the blocks of the file every byte from this one on is zero. */
  ghost predicate ZeroFrom(s: Image, d: Dinode, from: nat) {
    d.Valid() && forall k {:trigger FileByte(s, d, k)} ::
      from <= k < MAXFILE * BSIZE && Ref(s, d, Slot(k / BSIZE)) != 0 ==> FileByte(s, d, k) == 0
  }

  lemma ZeroStays(a: Image, b: Image, d: Dinode, from: nat)
    requires Untouched(a, b, d) && ZeroFrom(a, d, from)
    ensures ZeroFrom(b, d, from)
  {
    forall k | from <= k < MAXFILE * BSIZE && Ref(b, d, Slot(k / BSIZE)) != 0 ensures FileByte(b, d, k) == 0 {
      assert Ref(b, d, Slot(k / BSIZE)) == Ref(a, d, Slot(k / BSIZE)) && FileByte(a, d, k) == 0;
    }
  }

  lemma ZeroResized(s: Image, d: Dinode, size: nat, from: nat)
    requires ZeroFrom(s, d, from) && size <= MAXFILE * BSIZE
    ensures ZeroFrom(s, d.(size := size), from)
  {
    var d1 := d.(size := size);
    SameAddrsRefs(s, d, d1);
    forall k | from <= k < MAXFILE * BSIZE && Ref(s, d1, Slot(k / BSIZE)) != 0 ensures FileByte(s, d1, k) == 0 {
      assert FileByte(s, d1, k) == FileByte(s, d, k);
    }
  }

  /** A new block is zero, and the bytes that go to its beginning move the end. */
  lemma ZeroStep(sb: Super, s0: Image, d0: Dinode, s1: Image, u: Table, owner: seq<Owner>, i: nat, pos: nat, left: nat,
                 m: nat, t: seq<Byte>)
    requires ZeroFrom(s0, d0, pos) && i < |u| && Owned(sb, s1, u, owner) && Extends(s0, d0, s1, u[i])
    requires left > 0 && Chunk(pos, left, m) && |t| == m && pos + left <= MAXFILE * BSIZE
    requires Grew(s0, d0, s1, u[i], pos / BSIZE, pos / BSIZE + 1)
    requires var b := Ref(s1, u[i], Slot(pos / BSIZE));
      b != 0 && b < |s1| && (Ref(s0, d0, Slot(pos / BSIZE)) == 0 ==> s1[b] == ZERO_BLOCK)
    ensures pos % BSIZE + m <= BSIZE
    ensures var b := Ref(s1, u[i], Slot(pos / BSIZE));
      ZeroFrom(s1[b := PutBytes(s1[b], pos % BSIZE, t)], u[i], pos + m)
  {
    hide Owned, Extends, Chunk, PutBytes, Ref, ZeroFrom;
    ChunkBytes(pos, left, m, 0);
    ExtendedValid(s0, d0, s1, u[i]);
    var d, bn, at := u[i], pos / BSIZE, pos % BSIZE;
    var b := Ref(s1, d, Slot(bn));
    var s2 := s1[b := PutBytes(s1[b], at, t)];
    forall k {:trigger FileByte(s2, d, k)} | pos + m <= k < MAXFILE * BSIZE && Ref(s2, d, Slot(k / BSIZE)) != 0
      ensures FileByte(s2, d, k) == 0
    {
      StoreChangesBytes(sb, s1, u, owner, i, bn, at, t, k);
      ChunkBytes(pos, left, m, k);
      assert !InRange(k, bn, at, m);
      if Ref(s0, d0, Slot(k / BSIZE)) != 0 {
        ExtendKeepsBytes(s0, d0, s1, d, k);
        ZeroAt(s0, d0, pos, k);
      }
    }
    AllZero(s2, d, pos + m);
  }

  lemma ZeroAt(s: Image, d: Dinode, from: nat, k: nat)
    requires ZeroFrom(s, d, from) && from <= k < MAXFILE * BSIZE && Ref(s, d, Slot(k / BSIZE)) != 0
    ensures FileByte(s, d, k) == 0
  {
  }

  lemma AllZero(s: Image, d: Dinode, from: nat)
    requires d.Valid() && forall k {:trigger FileByte(s, d, k)} ::
      from <= k < MAXFILE * BSIZE && Ref(s, d, Slot(k / BSIZE)) != 0 ==> FileByte(s, d, k) == 0
    ensures ZeroFrom(s, d, from)
  {
  }

  lemma ExtendedValid(s0: Image, d0: Dinode, s1: Image, d: Dinode)
    requires Extends(s0, d0, s1, d)
    ensures d.Valid()
  {
  }

  /** No block and no byte other than zero lies behind the end, and there is no indirect block without need. */
  ghost predicate Tidy(s: Image, d: Dinode) {
    && |d.addrs| == NDIRECT + 1 && (d.addrs[NDIRECT] != 0 ==> d.size > NDIRECT * BSIZE)
    && ZeroFrom(s, d, d.size)
    && forall bn {:trigger Slot(bn)} :: 0 <= bn < MAXFILE && bn * BSIZE >= d.size ==> Ref(s, d, Slot(bn)) == 0
  }

  /** An inode block is zero at first. */
  function NoInode(): Dinode {
    Dinode(0, 0, 0, 0, 0, seq(NDIRECT + 1, _ => 0))
  }

  ghost predicate SameKind(d: Dinode, d1: Dinode) {
    d1.(size := d.size, addrs := d.addrs) == d
  }

  /** A file of the host: the name as strncpy leaves it in a directory entry, and the bytes. */
  datatype HostFile = HostFile(name: seq<Byte>, content: seq<Byte>)

  const DIRSIZ: nat := 14
  const T_DIR: Short := 1
  const T_FILE: Short := 2
  const ROOTINO: nat := 1

  /** A struct dirent. */
  function Dirent(inum: nat, name: seq<Byte>): (r: seq<Byte>)
    requires |name| == DIRSIZ
    ensures |r| == 16
  {
    [inum % 0x100, inum / 0x100 % 0x100] + name
  }

  /** The name that begins with `dots` dots and is zero behind them. */
  function Dots(dots: nat): (r: seq<Byte>)
    requires dots <= DIRSIZ
    ensures |r| == DIRSIZ
  {
    seq<Byte>(DIRSIZ, (k: nat) requires k < DIRSIZ => if k < dots then 46 else 0)
  }

  /** The root directory after the first n files. */
  function Entries(files: seq<HostFile>, n: nat): (r: seq<Byte>)
    requires n <= |files| && forall k :: 0 <= k < |files| ==> |files[k].name| == DIRSIZ
    ensures |r| == 16 * (n + 2)
  {
    if n == 0 then Dirent(ROOTINO, Dots(1)) + Dirent(ROOTINO, Dots(2))
    else Entries(files, n - 1) + Dirent(n + 1, files[n - 1].name)
  }

  ghost function Blank(sb: Super): (t: Table)
    ensures |t| == sb.ninodes && forall i :: 0 <= i < |t| ==> t[i] == NoInode()
  {
    seq(sb.ninodes, _ => NoInode())
  }

  lemma BlankStored(sb: Super, img: Image)
    requires sb.Valid() && |img| == sb.size && forall x :: 0 <= x < sb.size && x != 1 ==> img[x] == ZERO_BLOCK
    requires 1 < sb.inodestart
    ensures Stored(sb, img, Blank(sb))
  {
    forall i | 0 <= i < sb.ninodes ensures InodeAt(sb, img, i) == NoInode() {
      sb.IBlockIsInode(i);
      forall w | 0 <= w < INODE_WORDS ensures InodeWord(ZERO_BLOCK, i % IPB, w) == 0 {
        ZeroWord(INODE_WORDS * (i % IPB) + w);
      }
      assert GetInode(ZERO_BLOCK, i % IPB).addrs == NoInode().addrs;
    }
  }

  class Maker {
    const sb: Super
    var blocks: Image
    var freeblock: nat
    var freeinode: nat
    ghost var shadow: Image
    ghost var owner: seq<Owner>

    /** An image of zeros with the superblock in block 1. */
    constructor (sb: Super, super: Block)
      requires sb.Valid() && 1 < sb.inodestart
      ensures this.sb == sb && freeinode == 1 && freeblock == sb.nmeta && Made(Blank(sb))
    {
      var zero: Image := seq(sb.size, _ => ZERO_BLOCK);
      var img := zero[1 := super];
      ghost var marked := FirstBits(sb, img, sb.nmeta);
      ghost var who := seq(sb.size, (b: nat) => if b < sb.nmeta then Meta else Free);
      EmptyOwned(sb, marked, Blank(sb), who);
      BlankStored(sb, img);
      this.sb, blocks, freeblock, freeinode, shadow, owner := sb, img, sb.nmeta, 1, marked, who;
    }

    /** The image in the making, with the inodes t; inodes may be ahead of the inode blocks. */
    ghost predicate Base(t: Table)
      reads this
    {
      && sb.Valid() && |blocks| == |owner| == sb.size && sb.nmeta <= freeblock <= sb.size
      && SameButBits(sb, blocks, shadow) && Owned(sb, shadow, t, owner)
      && (forall b :: 0 <= b < sb.size ==> (owner[b] == Free <==> freeblock <= b))
      && (forall b :: freeblock <= b < sb.size ==> blocks[b] == ZERO_BLOCK)
      && (forall x :: 0 <= x < sb.size && sb.IsBitmap(x) ==> blocks[x] == ZERO_BLOCK)
      && (forall x :: 1 < x < sb.inodestart ==> blocks[x] == ZERO_BLOCK)
    }

    /** The next block, marked in the shadow image only. */
    method Take(ghost t: Table) returns (b: nat)
      requires Base(t) && NoneHeld(owner) && freeblock < sb.size
      modifies this`freeblock, this`shadow, this`owner
      ensures Base(t) && b == old(freeblock) && freeblock == b + 1 && 0 < b && owner == old(owner)[b := Held]
      ensures NoneTouched(old(shadow), shadow, t) && shadow[b] == ZERO_BLOCK
    {
      hide Ref, Untouched, Bit;
      b := freeblock;
      ghost var bb, after := sb.BBlock(b), PutBit(sb, shadow, b, true);
      sb.BBlockIsBitmap(b);
      PutBitOwned(sb, shadow, t, owner, b, true);
      assert owner[bb] == Meta;
      assert after == shadow[bb := after[bb]];
      forall k | 0 <= k < |t| ensures Untouched(shadow, after, t[k]) {
        OthersUntouched(sb, shadow, t, owner, bb, after[bb], k);
      }
      freeblock := freeblock + 1;
      shadow := after;
      owner := owner[b := Held];
    }

    /** In the middle of iappend: inode i is in memory as d, the inode blocks hold the table t. */
    ghost predicate Mid(t: Table, i: nat, d: Dinode)
      reads this
    {
      d.Valid() && i < |t| && Base(t[i := d]) && Stored(sb, blocks, t) && NoneHeld(owner)
    }

    /** Between two calls: the inode blocks hold the inodes, and no file has a hole. */
    ghost predicate Made(t: Table)
      reads this
    {
      && Base(t) && Stored(sb, blocks, t) && NoneHeld(owner)
      && (forall k :: 0 <= k < |t| ==> Mapped(shadow, t[k]))
      && (forall k :: freeinode <= k < |t| ==> t[k] == NoInode())
    }

    /** A number in addrs[s], counted up if there is none; ok == false if the image is full. */
    method MapSlot(ghost t: Table, i: nat, din: Dinode, s: nat) returns (ok: bool, d: Dinode, b: nat)
      requires Mid(t, i, din) && s <= NDIRECT
      modifies this`freeblock, this`shadow, this`owner
      ensures ok <==> din.addrs[s] != 0 || old(freeblock) < sb.size
      ensures if ok then |din.addrs| == NDIRECT + 1 && b != 0 && d == din.(addrs := din.addrs[s := b]) else d == din
      ensures Mid(t, i, d) && OthersKept(old(shadow), shadow, t, i) && Extends(old(shadow), din, shadow, d)
      ensures ok ==> forall k :: 0 <= k < NSLOTS && k != s ==> Ref(shadow, d, k) == Ref(old(shadow), din, k)
      ensures freeblock == old(freeblock) + if ok && din.addrs[s] == 0 then 1 else 0
      ensures !ok || din.addrs[s] != 0 ==> shadow == old(shadow) && owner == old(owner) && d == din
      ensures ok && din.addrs[s] == 0 ==> b < |shadow| && shadow[b] == ZERO_BLOCK
    {
      hide Ref, Untouched, Extends, Owned, OthersKept;
      ValidNow(t, i, din);
      KeptNow(t, i, din);
      ok, d, b := true, din, din.addrs[s];
      if b == 0 {
        if freeblock >= sb.size {
          return false, din, 0;
        }
        ghost var before, u := shadow, t[i := din];
        assert u[i] == din;
        b := Take(u);
        d := din.(addrs := din.addrs[s := b]);
        OwnedOf(u);
        DirectLinked(sb, before, shadow, u, owner, i, s, b);
        TakenOthers(before, shadow, u, t, i);
        owner := owner[b := By(i, s)];
        assert u[i := d] == t[i := d];
      }
    }

    /** A number in entry j of the indirect block x, counted up if there is none. */
    method MapEntry(ghost t: Table, i: nat, din: Dinode, j: nat, x: nat) returns (ok: bool, b: nat)
      requires Mid(t, i, din) && j < NINDIRECT && x == din.addrs[NDIRECT] != 0
      modifies this`blocks, this`freeblock, this`shadow, this`owner
      ensures ok <==> Ref(old(shadow), din, NDIRECT + 1 + j) != 0 || old(freeblock) < sb.size
      ensures ok ==> b == Ref(shadow, din, NDIRECT + 1 + j) != 0
      ensures Mid(t, i, din) && OthersKept(old(shadow), shadow, t, i) && Extends(old(shadow), din, shadow, din)
      ensures ok ==> forall k :: 0 <= k < NSLOTS && k != NDIRECT + 1 + j ==>
        Ref(shadow, din, k) == Ref(old(shadow), din, k)
      ensures freeblock == old(freeblock) + if ok && Ref(old(shadow), din, NDIRECT + 1 + j) == 0 then 1 else 0
      ensures !ok || Ref(old(shadow), din, NDIRECT + 1 + j) != 0 ==> shadow == old(shadow) && owner == old(owner)
      ensures ok && Ref(old(shadow), din, NDIRECT + 1 + j) == 0 ==> b < |shadow| && shadow[b] == ZERO_BLOCK
    {
      hide Ref, Untouched, Extends, Owned, OthersKept, Stored, PutWord;
      KeptNow(t, i, din);
      IndirectPlace(t, i, din, j);
      ok, b := true, GetWord(blocks[x], j);
      if b == 0 {
        if freeblock >= sb.size {
          return false, 0;
        }
        ghost var before, u := shadow, t[i := din];
        assert u[i] == din;
        b := Take(u);
        TakenOthers(before, shadow, u, t, i);
        StoreEntry(t, i, din, j, x, b, before);
      }
    }

    /** wsect of the indirect block with its new entry. */
    method StoreEntry(ghost t: Table, ghost i: nat, ghost din: Dinode, j: nat, x: nat, b: nat, ghost before: Image)
      requires din.Valid() && i < |t| && Base(t[i := din]) && Stored(sb, blocks, t) && j < NINDIRECT
      requires x == din.addrs[NDIRECT] != 0 && 0 < b < sb.size && owner[b] == Held
      requires forall c :: 0 <= c < |owner| && c != b ==> owner[c] != Held
      requires OthersKept(before, shadow, t, i) && Untouched(before, shadow, din)
      requires Ref(before, din, NDIRECT + 1 + j) == 0
      modifies this`blocks, this`shadow, this`owner
      ensures Mid(t, i, din) && OthersKept(before, shadow, t, i) && Extends(before, din, shadow, din)
      ensures forall k :: 0 <= k < NSLOTS ==>
        Ref(shadow, din, k) == if k == NDIRECT + 1 + j then b else Ref(before, din, k)
      ensures |shadow| == |old(shadow)| && b < |shadow| && shadow[b] == old(shadow)[b]
    {
      hide Ref, Untouched, Extends, Owned, OthersKept, Stored, PutWord;
      ghost var u, s1 := t[i := din], shadow;
      assert u[i] == din;
      OwnedOf(u);
      EntryLinked(sb, before, shadow, u, owner, i, j, b);
      IndirectOwned(u, i);
      ghost var data := PutWord(blocks[x], j, b);
      OthersStay(t, u, i, x, data);
      StoredElsewhere(sb, blocks, t, x, data);
      blocks := blocks[x := PutWord(blocks[x], j, b)];
      shadow := shadow[x := data];
      owner := owner[b := By(i, NDIRECT + 1 + j)];
      OthersKeptTwice(before, s1, shadow, t, i);
    }

    /** A write to a block of inode i leaves the other inodes untouched. */
    lemma OthersStay(t: Table, u: Table, i: nat, x: nat, data: Block)
      requires i < |t| && |u| == |t| && (forall k :: 0 <= k < |t| && k != i ==> u[k] == t[k]) && Base(u)
      requires 0 < x < sb.size && owner[x].By? && owner[x].i == i
      ensures OthersKept(shadow, shadow[x := data], t, i)
    {
      hide Untouched, Ref;
      forall k | 0 <= k < |t| && k != i ensures Untouched(shadow, shadow[x := data], t[k]) {
        OthersUntouched(sb, shadow, u, owner, x, data, k);
      }
    }

    lemma IndirectOwned(u: Table, i: nat)
      requires Base(u) && i < |u| && u[i].Valid() && u[i].addrs[NDIRECT] != 0
      ensures var x := u[i].addrs[NDIRECT];
        && 0 < x < sb.size && owner[x] == By(i, NDIRECT) && sb.nmeta <= x < freeblock
        && !sb.IsBitmap(x) && !sb.IsInodeBlock(x)
        && blocks[x] == shadow[x]
    {
      var x := u[i].addrs[NDIRECT];
      assert Ref(shadow, u[i], NDIRECT) == x;
    }

    lemma IndirectPlace(t: Table, i: nat, din: Dinode, j: nat)
      requires Mid(t, i, din) && din.addrs[NDIRECT] != 0 && j < NINDIRECT
      ensures din.addrs[NDIRECT] < |blocks|
      ensures GetWord(blocks[din.addrs[NDIRECT]], j) == Ref(shadow, din, NDIRECT + 1 + j)
    {
      assert t[i := din][i] == din;
      IndirectOwned(t[i := din], i);
    }

    /** The block of file block fbn, as iappend finds or makes it. */
    method MapBlock(ghost t: Table, i: nat, din: Dinode, fbn: nat) returns (ok: bool, d: Dinode, b: nat)
      requires Mid(t, i, din) && fbn < MAXFILE
      modifies this`blocks, this`freeblock, this`shadow, this`owner
      ensures Mid(t, i, d) && OthersKept(old(shadow), shadow, t, i) && Extends(old(shadow), din, shadow, d)
      ensures ok <==> old(freeblock) + Needed(old(shadow), din, fbn, fbn + 1) <= sb.size
      ensures ok ==> freeblock == old(freeblock) + Needed(old(shadow), din, fbn, fbn + 1)
      ensures ok ==> b == Ref(shadow, d, Slot(fbn)) != 0 && Grew(old(shadow), din, shadow, d, fbn, fbn + 1)
      ensures ok && Ref(old(shadow), din, Slot(fbn)) != 0 ==> d == din
      ensures ok && Ref(old(shadow), din, Slot(fbn)) == 0 ==> b < |shadow| && shadow[b] == ZERO_BLOCK
    {
      hide Ref, Untouched, Extends, Owned, OthersKept, Stored, Needed, Grew, Base, NoneHeld;
      ghost var s0 := shadow;
      ValidNow(t, i, din);
      OneBlock(s0, din, fbn);
      RefsOf(s0, din, fbn);
      if fbn < NDIRECT {
        ok, d, b := MapSlot(t, i, din, fbn);
      } else {
        var x;
        ok, d, x := MapSlot(t, i, din, NDIRECT);
        if !ok {
          return false, d, 0;
        }
        ghost var s1 := shadow;
        ok, b := MapEntry(t, i, d, fbn - NDIRECT, x);
        ExtendsTwice(s0, din, s1, d, shadow, d);
        OthersKeptTwice(s0, s1, shadow, t, i);
      }
      if ok {
        RefsOf(shadow, d, fbn);
        OneMapped(s0, din, shadow, d, fbn);
      }
    }

    /** wsect of a data block of inode i. */
    method StoreBytes(ghost t: Table, ghost i: nat, ghost d: Dinode, ghost bn: nat, x: nat, at: nat, p: seq<Byte>,
                      ghost b0: Image)
      requires Mid(t, i, d) && bn < MAXFILE && x == Ref(shadow, d, Slot(bn)) != 0 && at + |p| <= BSIZE
      requires OthersKept(b0, shadow, t, i)
      modifies this`blocks, this`shadow
      ensures Mid(t, i, d) && OthersKept(b0, shadow, t, i)
      ensures x < |old(shadow)| && shadow == old(shadow)[x := PutBytes(old(shadow)[x], at, p)]
      ensures forall s :: 0 <= s < NSLOTS ==> Ref(shadow, d, s) == Ref(old(shadow), d, s)
    {
      hide Ref, Untouched, Owned, OthersKept, Stored, PutBytes;
      ghost var u, s0 := t[i := d], shadow;
      assert u[i] == d;
      DataPlace(u, i, bn);
      ghost var data := PutBytes(blocks[x], at, p);
      OthersStay(t, u, i, x, data);
      StoredElsewhere(sb, blocks, t, x, data);
      DataWriteOwned(sb, shadow, u, owner, x, data);
      SameRefsAfter(u, i, x, data);
      blocks := blocks[x := PutBytes(blocks[x], at, p)];
      shadow := shadow[x := data];
      OthersKeptTwice(b0, s0, shadow, t, i);
    }

    lemma DataPlace(u: Table, i: nat, bn: nat)
      requires Base(u) && i < |u| && u[i].Valid() && bn < MAXFILE && Ref(shadow, u[i], Slot(bn)) != 0
      ensures var x := Ref(shadow, u[i], Slot(bn));
        && 0 < x < sb.size && owner[x] == By(i, Slot(bn)) && sb.nmeta <= x < freeblock
        && !sb.IsBitmap(x) && !sb.IsInodeBlock(x)
        && blocks[x] == shadow[x]
    {
    }

    lemma SameRefsAfter(u: Table, i: nat, x: nat, data: Block)
      requires Base(u) && i < |u| && u[i].Valid() && 0 < x < |shadow| && owner[x] != By(i, NDIRECT)
      ensures forall s :: 0 <= s < NSLOTS ==> Ref(shadow[x := data], u[i], s) == Ref(shadow, u[i], s)
    {
      NotIndirect(sb, shadow, u, owner, x, i);
    }

    /** One turn of iappend's loop, at byte off + tot of the file. */
    method AppendBlock(ghost t: Table, i: nat, din: Dinode, off: nat, p: seq<Byte>, tot: nat, bn: nat, m: nat,
                       ghost q: seq<Byte>, ghost b0: Image, ghost d0: Dinode)
      returns (ok: bool, d: Dinode)
      requires Mid(t, i, din) && OthersKept(b0, shadow, t, i) && Wrote(b0, d0, shadow, din, off, q, tot)
      requires q <= p && tot < |q| && off + |q| <= MAXFILE * BSIZE && bn == (off + tot) / BSIZE < MAXFILE
      requires Chunk(off + tot, |q| - tot, m) && tot + m <= |q|
      modifies this`blocks, this`freeblock, this`shadow, this`owner
      ensures Mid(t, i, d) && OthersKept(b0, shadow, t, i)
      ensures ok <==> old(freeblock) + Needed(old(shadow), din, bn, bn + 1) <= sb.size
      ensures ok ==> freeblock == old(freeblock) + Needed(old(shadow), din, bn, bn + 1)
      ensures ok ==> Wrote(b0, d0, shadow, d, off, q, tot + m) && Grew(old(shadow), din, shadow, d, bn, bn + 1)
      ensures ok && ZeroFrom(old(shadow), din, off + tot) ==> ZeroFrom(shadow, d, off + tot + m)
    {
      hide Ref, Untouched, Extends, Owned, OthersKept, Stored, Needed, Grew, Base, NoneHeld, Wrote, PutBytes, Chunk,
        ZeroFrom;
      ghost var s0 := shadow;
      var x;
      ok, d, x := MapBlock(t, i, din, bn);
      OthersKeptTwice(b0, s0, shadow, t, i);
      if ok {
        ChunkBytes(off + tot, |q| - tot, m, 0);
        ghost var u, s1 := t[i := d], shadow;
        assert u[i] == d;
        OwnedOf(u);
        WroteStep(sb, b0, d0, s0, din, shadow, u, owner, i, off, q, tot, m);
        assert p[tot..tot + m] == q[tot..tot + m];
        if ZeroFrom(s0, din, off + tot) {
          DataPlace(u, i, bn);
          ZeroStep(sb, s0, din, shadow, u, owner, i, off + tot, |q| - tot, m, p[tot..tot + m]);
        }
        StoreBytes(t, i, d, bn, x, (off + tot) % BSIZE, p[tot..tot + m], b0);
        GrewSameRefs(s0, din, s1, d, shadow, d, bn, bn + 1);
      }
    }

    /** winode: d goes to its place in its inode block; no file notices. */
    method WriteInode(ghost t: Table, i: nat, d: Dinode)
      requires Mid(t, i, d)
      modifies this`blocks, this`shadow
      ensures Mid(t[i := d], i, d) && Base(t[i := d])
      ensures NoneTouched(old(shadow), shadow, t[i := d])
    {
      hide Ref, Untouched, Owned, Stored, PutInode, Bit;
      var x := sb.IBlock(i);
      ghost var u := t[i := d];
      InodePlace(t, i, d);
      OwnedFits(sb, shadow, u, owner, i);
      StoredUpdate(sb, blocks, t, i, d);
      ghost var data := PutInode(blocks[x], i % IPB, d);
      InodeWriteOwned(sb, shadow, u, owner, x, data);
      assert u[i := d] == u;
      blocks := blocks[x := PutInode(blocks[x], i % IPB, d)];
      shadow := shadow[x := data];
    }

    /** winode of an inode whose file has no hole. */
    method Winode(ghost t: Table, i: nat, d: Dinode)
      requires Mid(t, i, d) && Mapped(shadow, d) && i < freeinode
      requires forall k :: 0 <= k < |t| && k != i ==> Mapped(shadow, t[k])
      requires forall k :: freeinode <= k < |t| ==> t[k] == NoInode()
      modifies this`blocks, this`shadow
      ensures Made(t[i := d]) && NoneTouched(old(shadow), shadow, t[i := d])
      ensures Content(shadow, d) == Content(old(shadow), d)
    {
      hide Ref, Untouched, Owned, Stored, Mapped, Content;
      ghost var s0, u := shadow, t[i := d];
      WriteInode(t, i, d);
      forall k | 0 <= k < |u|
        ensures u[k].Valid() && Mapped(shadow, u[k]) && Content(shadow, u[k]) == Content(s0, u[k])
      {
        UntouchedContent(s0, shadow, u[k]);
      }
      assert u[i] == d;
    }

    lemma InodePlace(t: Table, i: nat, d: Dinode)
      requires Mid(t, i, d)
      ensures |t| == sb.ninodes && sb.IsInodeBlock(sb.IBlock(i)) && sb.IBlock(i) < sb.nmeta
      ensures !sb.IsBitmap(sb.IBlock(i)) && t[i := d][i] == d
    {
      sb.IBlockIsInode(i);
    }

    /** ialloc: the next inode, of this type, with one link and no data. */
    method Ialloc(ghost t: Table, ftype: Short) returns (inum: nat, ghost t1: Table)
      requires Made(t) && freeinode < sb.ninodes
      modifies this`blocks, this`shadow, this`freeinode
      ensures Made(t1) && inum == old(freeinode) && freeinode == inum + 1
      ensures inum < |t| && t1 == t[inum := NoInode().(ftype := ftype, nlink := 1)]
      ensures
        var d := t1[inum];
        && d.ftype == ftype && d.nlink == 1 && d.major == d.minor == 0 && d.size == 0
        && |d.addrs| == 13 && forall s :: 0 <= s < 13 ==> d.addrs[s] == 0
      ensures NoneTouched(old(shadow), shadow, t1)
    {
      hide Ref, Untouched, Owned, Stored, Mapped, Content;
      SizeOf(t);
      inum := freeinode;
      freeinode := freeinode + 1;
      var d := NoInode().(ftype := ftype, nlink := 1);
      t1 := t[inum := d];
      NewInode(t, inum, d);
      Winode(t, inum, d);
    }

    lemma SizeOf(t: Table)
      requires Base(t)
      ensures |t| == sb.ninodes
    {
    }

    lemma NewInode(t: Table, i: nat, d: Dinode)
      requires Base(t) && i < |t| && t[i] == NoInode() && d == NoInode().(ftype := d.ftype, nlink := d.nlink)
      ensures Base(t[i := d]) && d.Valid() && Mapped(shadow, d)
    {
      SameAddrsOwned(sb, shadow, t, owner, i, d);
    }

    /** Made is Mid with the inode as it is on the disk. */
    lemma MidOf(t: Table, i: nat)
      requires Made(t) && i < |t|
      ensures Mid(t, i, t[i]) && t[i].Valid() && Mapped(shadow, t[i])
      ensures |t| == sb.ninodes && sb.IBlock(i) < |blocks| && GetInode(blocks[sb.IBlock(i)], i % IPB) == t[i]
    {
      assert t[i := t[i]] == t;
      assert InodeAt(sb, blocks, i) == t[i];
    }

    /**
     iappend: the bytes go to the end of the file. It stops at its assertion exactly when the file would get too
     large; ok == false is that, or that the image has no more blocks, which mkfs does not notice.
     */
    method Iappend(ghost t: Table, inum: nat, p: seq<Byte>) returns (ok: bool, ghost t1: Table)
      requires Made(t) && inum < |t| && inum < freeinode
      modifies this`blocks, this`freeblock, this`shadow, this`owner
      ensures t[inum].Valid()
      ensures ok <==>
        && t[inum].size + |p| <= MAXFILE * BSIZE
        && old(freeblock) + Needs(old(shadow), t[inum], t[inum].size, |p|) <= sb.size
      ensures ok ==> freeblock == old(freeblock) + Needs(old(shadow), t[inum], t[inum].size, |p|)
      ensures ok ==> Made(t1) && |t1| == |t| && t1 == t[inum := t1[inum]] && SameKind(t[inum], t1[inum])
      ensures ok ==> Content(shadow, t1[inum]) == Content(old(shadow), t[inum]) + p
      ensures ok ==> OthersKept(old(shadow), shadow, t, inum)
      ensures ok && Tidy(old(shadow), t[inum]) ==> Tidy(shadow, t1[inum])
    {
      hide Ref, Untouched, Owned, OthersKept, Stored, Needed, Grew, Base, NoneHeld, Wrote, Content, Mapped, EndBlock;
      hide Tidy, Made, SameKind, Needs, GetInode, Filled, ChunkSize, Chunk, ZeroFrom;
      MidOf(t, inum);
      MadeMeans(t);
      var din := GetInode(blocks[sb.IBlock(inum)], inum % IPB);
      ghost var s0, d0, f0 := shadow, din, freeblock;
      var off := din.size;
      ghost var q := if off + |p| <= MAXFILE * BSIZE then p else p[..MAXFILE * BSIZE - off];
      var tot := 0;
      t1 := t;
      ok := true;
      KeptNow(t, inum, din);
      ValidNow(t, inum, din);
      StartAppend(s0, d0, off, q, f0);
      TidyEnd(s0, d0);
      while tot < |p|
        invariant tot <= |q| && Mid(t, inum, din) && OthersKept(s0, shadow, t, inum)
        invariant Wrote(s0, d0, shadow, din, off, q, tot)
        invariant Filled(s0, d0, shadow, din, off, tot, f0, freeblock)
        invariant tot == 0 || tot == |q| || (off + tot) % BSIZE == 0
        invariant freeblock <= sb.size && (Tidy(s0, d0) ==> ZeroFrom(shadow, din, off + tot))
      {
        var bn := (off + tot) / BSIZE;
        if bn >= MAXFILE {
          return false, t;
        }
        var m := ChunkSize(off + tot, |p| - tot);
        NextAppend(off, |p|, |q|, tot, m);
        FilledSoFar(s0, d0, shadow, din, off, tot, f0, freeblock, |q|, sb.size);
        ghost var s1, d1, f1 := shadow, din, freeblock;
        ok, din := AppendBlock(t, inum, din, off, p, tot, bn, m, q, s0, d0);
        if !ok {
          return false, t;
        }
        FilledMore(s0, d0, s1, d1, shadow, din, off, tot, m, |q|, f0, f1, freeblock);
        tot := tot + m;
      }
      assert q == p;
      FilledMeans(s0, d0, shadow, din, off, |p|, f0, freeblock);
      t1 := EndAppend(t, inum, din, off, p, s0, d0);
    }

    /** The end of iappend: the inode gets its new size and goes to its block. */
    method EndAppend(ghost t: Table, inum: nat, din: Dinode, off: nat, p: seq<Byte>, ghost s0: Image, ghost d0: Dinode)
      returns (ghost t1: Table)
      requires Mid(t, inum, din) && OthersKept(s0, shadow, t, inum) && off == d0.size && inum < freeinode
      requires forall k :: 0 <= k < |t| ==> Mapped(s0, t[k])
      requires forall k :: freeinode <= k < |t| ==> t[k] == NoInode()
      requires Wrote(s0, d0, shadow, din, off, p, |p|)
      requires EndBlock(off, |p|) <= MAXFILE && Grew(s0, d0, shadow, din, off / BSIZE, EndBlock(off, |p|))
      requires Tidy(s0, d0) ==> ZeroFrom(shadow, din, off + |p|)
      modifies this`blocks, this`shadow
      ensures Made(t1) && |t1| == |t| && t1 == t[inum := t1[inum]] && SameKind(d0, t1[inum]) && d0.Valid()
      ensures Content(shadow, t1[inum]) == Content(s0, d0) + p && OthersKept(s0, shadow, t, inum)
      ensures Tidy(s0, d0) ==> Tidy(shadow, t1[inum])
    {
      hide Ref, Untouched, Owned, OthersKept, Stored, Needed, Grew, Base, NoneHeld, Wrote, Content, Mapped, EndBlock,
        Tidy, SameKind, NoneTouched, ZeroFrom;
      BytesAppended(s0, d0, shadow, din, off, p);
      GrownMid(t, inum, din, off + |p|, s0);
      ghost var s1 := shadow;
      var d := din.(size := off + |p|);
      t1 := t[inum := d];
      Winode(t, inum, d);
      assert t1[inum] == d;
      KeptThen(s0, s1, shadow, t, inum, d);
      if Tidy(s0, d0) {
        TidyAfter(s0, d0, s1, din, shadow, d, off, |p|);
      }
    }

    lemma MadeMeans(t: Table)
      requires Made(t)
      ensures forall k :: 0 <= k < |t| ==> Mapped(shadow, t[k])
      ensures forall k :: freeinode <= k < |t| ==> t[k] == NoInode()
    {
    }

    lemma GrownMid(t: Table, i: nat, d: Dinode, size: nat, s0: Image)
      requires Mid(t, i, d) && OthersKept(s0, shadow, t, i) && size <= MAXFILE * BSIZE
      requires forall k :: 0 <= k < |t| ==> Mapped(s0, t[k])
      ensures Mid(t, i, d.(size := size))
      ensures forall k :: 0 <= k < |t| && k != i ==> Mapped(shadow, t[k])
    {
      hide Ref, Content;
      var u, g := t[i := d], d.(size := size);
      assert u[i] == d && u[i := g] == t[i := g];
      SameAddrsOwned(sb, shadow, u, owner, i, g);
      forall k | 0 <= k < |t| && k != i ensures Mapped(shadow, t[k]) {
        UntouchedContent(s0, shadow, t[k]);
      }
    }

    /** balloc of Assignment1: one bitmap block, which its assertion makes sure is enough. */
    method Balloc() returns (ok: bool)
      requires sb.Valid() && |blocks| == sb.size && freeblock <= sb.size
      requires forall x :: 0 <= x < sb.size && sb.IsBitmap(x) ==> blocks[x] == ZERO_BLOCK
      modifies this`blocks
      ensures ok <==> freeblock < BPB
      ensures SameButBits(sb, old(blocks), blocks)
      ensures ok ==> forall b :: 0 <= b < sb.size ==> (Bit(sb, blocks, b) <==> b < freeblock)
    {
      if freeblock >= BPB {
        return false;
      }
      var buf := MarkBits(freeblock);
      sb.BBlockIsBitmap(0);
      blocks := blocks[sb.bmapstart := buf];
      NoMarks();
      forall j: nat | j < sb.BitmapBlocks() ensures Marks(blocks[sb.bmapstart + j], InBlock(freeblock, j)) {
        assert j > 0 ==> blocks[sb.bmapstart + j] == ZERO_BLOCK;
      }
      MarksAre(sb, blocks, freeblock);
      ok := true;
    }

    /** balloc of Assignment3: as many bitmap blocks as it takes, from block `first` on. */
    method BallocAt(first: nat)
      requires sb.Valid() && |blocks| == sb.size && sb.nmeta <= freeblock <= sb.size
      requires first + (freeblock - 1) / BPB < sb.size
      modifies this`blocks
      ensures |blocks| == |old(blocks)|
      ensures forall x :: 0 <= x < |blocks| && !(first <= x <= first + (freeblock - 1) / BPB) ==>
        blocks[x] == old(blocks)[x]
      ensures forall j: nat :: j <= (freeblock - 1) / BPB ==> Marks(blocks[first + j], InBlock(freeblock, j))
    {
      var j := 0;
      while j * BPB < freeblock
        invariant |blocks| == |old(blocks)| && j <= (freeblock - 1) / BPB + 1
        invariant forall x :: 0 <= x < |blocks| && !(first <= x < first + j) ==> blocks[x] == old(blocks)[x]
        invariant forall i: nat :: i < j ==> Marks(blocks[first + i], InBlock(freeblock, i))
        decreases freeblock - j * BPB
      {
        var chunk := if freeblock - j * BPB < BPB then freeblock - j * BPB else BPB;
        var buf := MarkBits(chunk);
        assert chunk == InBlock(freeblock, j);
        blocks := blocks[first + j := buf];
        j := j + 1;
      }
    }

    /** Inode inum, new in t, has the first tot bytes of p in t1; the others are the same. */
    ghost predicate Partly(t: Table, t1: Table, inum: nat, p: seq<Byte>, tot: nat)
      reads this
    {
      && Made(t1) && |t1| == |t| && inum < |t| && inum < freeinode && t1 == t[inum := t1[inum]]
      && SameKind(t[inum], t1[inum])
      && t1[inum].Valid() && tot <= |p| && Content(shadow, t1[inum]) == p[..tot] && Tidy(shadow, t1[inum])
    }

    lemma PartlyAtFirst(t: Table, inum: nat, p: seq<Byte>)
      requires Made(t) && inum < |t| && inum < freeinode && t[inum].Valid() && Content(shadow, t[inum]) == []
      requires Tidy(shadow, t[inum])
      ensures Partly(t, t, inum, p, 0)
    {
      hide Made, Content, Tidy;
      SameKindSelf(t[inum]);
    }

    lemma PartlyMeans(t: Table, t1: Table, inum: nat, p: seq<Byte>, tot: nat)
      requires Partly(t, t1, inum, p, tot)
      ensures Made(t1) && |t1| == |t| && inum < |t| && t1 == t[inum := t1[inum]] && SameKind(t[inum], t1[inum])
      ensures t1[inum].Valid() && tot <= |p| && Content(shadow, t1[inum]) == p[..tot] && t1[inum].size == tot
    {
      SizeOfContent(shadow, t1[inum]);
    }

    /** One turn of that loop. */
    method AppendPiece(ghost t: Table, ghost t0: Table, inum: nat, p: seq<Byte>, tot: nat, cc: nat)
      returns (ok: bool, ghost t1: Table)
      requires Partly(t, t0, inum, p, tot) && tot + cc <= |p| && 0 < cc
      modifies this`blocks, this`freeblock, this`shadow, this`owner
      ensures BlocksFor(tot) <= BlocksFor(tot + cc)
      ensures ok <==>
        tot + cc <= MAXFILE * BSIZE && old(freeblock) + (BlocksFor(tot + cc) - BlocksFor(tot)) <= sb.size
      ensures ok ==> freeblock == old(freeblock) + (BlocksFor(tot + cc) - BlocksFor(tot))
      ensures ok ==> Partly(t, t1, inum, p, tot + cc) && OthersKept(old(shadow), shadow, t, inum)
    {
      hide Made, Content, OthersKept, SameKind, Tidy, Needs, BlocksFor, Mid, Mapped;
      PartlyMeans(t, t0, inum, p, tot);
      MidOf(t0, inum);
      BlocksForMore(tot, tot + cc);
      if tot + cc <= MAXFILE * BSIZE {
        NeedsTidy(shadow, t0[inum], cc);
      }
      ghost var s0 := shadow;
      ok, t1 := Iappend(t0, inum, p[tot..tot + cc]);
      if ok {
        SliceMore(p, tot, cc);
        SameKindTwice(t[inum], t0[inum], t1[inum]);
        MidOf(t1, inum);
        KeptAlso(s0, shadow, t0, t, inum);
      }
    }

    /** The loop of main that reads a file of the host block by block. */
    method AppendAll(ghost t: Table, inum: nat, p: seq<Byte>) returns (ok: bool, ghost t1: Table)
      requires Made(t) && inum < |t| && inum < freeinode && t[inum].Valid() && Content(shadow, t[inum]) == []
      requires Tidy(shadow, t[inum])
      modifies this`blocks, this`freeblock, this`shadow, this`owner
      ensures ok <==> |p| <= MAXFILE * BSIZE && old(freeblock) + BlocksFor(|p|) <= sb.size
      ensures ok ==> freeblock == old(freeblock) + BlocksFor(|p|)
      ensures ok ==> Made(t1) && |t1| == |t| && t1 == t[inum := t1[inum]] && SameKind(t[inum], t1[inum])
      ensures ok ==> Content(shadow, t1[inum]) == p && OthersKept(old(shadow), shadow, t, inum)
    {
      hide Made, Content, OthersKept, SameKind, Tidy, Needs, BlocksFor, Partly;
      PartlyAtFirst(t, inum, p);
      NoBlocks();
      EnoughNow(t);
      SizeOfContent(shadow, t[inum]);
      var tot := 0;
      t1 := t;
      ok := true;
      MidOf(t, inum);
      KeptNow(t, inum, t[inum]);
      while tot < |p|
        invariant tot <= |p| && tot <= MAXFILE * BSIZE && Partly(t, t1, inum, p, tot)
        invariant OthersKept(old(shadow), shadow, t, inum) && freeblock == old(freeblock) + BlocksFor(tot) <= sb.size
      {
        var cc := if |p| - tot < BSIZE then |p| - tot else BSIZE;
        ghost var s0 := shadow;
        BlocksForMore(tot + cc, |p|);
        ok, t1 := AppendPiece(t, t1, inum, p, tot, cc);
        if !ok {
          return;
        }
        OthersKeptTwice(old(shadow), s0, shadow, t, inum);
        tot := tot + cc;
      }
      PartlyMeans(t, t1, inum, p, tot);
      assert p[..tot] == p;
    }

    /** One file of the host: a new inode, its entry in the root directory, its bytes. */
    method AddFile(ghost t: Table, f: HostFile) returns (ok: bool, ghost t3: Table)
      requires Made(t) && ROOTINO < freeinode < sb.ninodes && |f.name| == DIRSIZ
      requires |t| == sb.ninodes && Tidy(shadow, t[ROOTINO])
      modifies this`blocks, this`freeblock, this`freeinode, this`shadow, this`owner
      ensures t[ROOTINO].Valid()
      ensures
        var size := t[ROOTINO].size;
        var after := old(freeblock) + (BlocksFor(size + 16) - BlocksFor(size)) + BlocksFor(|f.content|);
        && (ok <==> size + 16 <= MAXFILE * BSIZE && |f.content| <= MAXFILE * BSIZE && after <= sb.size)
        && (ok ==> freeblock == after)
      ensures ok ==> Made(t3) && |t3| == |t| && freeinode == old(freeinode) + 1
      ensures ok ==> Tidy(shadow, t3[ROOTINO]) && SameKind(t[ROOTINO], t3[ROOTINO]) && t3[ROOTINO].Valid()
      ensures ok ==>
        Content(shadow, t3[ROOTINO]) == Content(old(shadow), t[ROOTINO]) + Dirent(old(freeinode), f.name)
      ensures ok ==>
        var c0, c, inum := Content(old(shadow), t[1]), Content(shadow, t3[1]), old(freeinode);
        && |c| == |c0| + 16 && c[..|c0|] == c0
        && c[|c0|] == inum % 0x100 && c[|c0| + 1] == inum / 0x100 % 0x100 && c[|c0| + 2..] == f.name
      ensures ok ==>
        var d := t3[old(freeinode)];
        Mapped(shadow, d) && d.ftype == 2 && d.nlink == 1 && Content(shadow, d) == f.content
      ensures ok ==> HasFile(shadow, t3, old(freeinode), f)
      ensures ok ==> forall k :: 0 <= k < old(freeinode) && k != ROOTINO ==>
        t3[k] == t[k] && Untouched(old(shadow), shadow, t[k])
    {
      hide Made, Content, OthersKept, NoneTouched, Untouched, Tidy, Mapped, Dirent, Needs, Mid, BlocksFor;
      MidOf(t, ROOTINO);
      t3 := t;
      ghost var s0 := shadow;
      var inum;
      ghost var t1, t2;
      inum, t1 := Ialloc(t, T_FILE);
      ghost var s1 := shadow;
      RootAfter(s0, s1, t, t1, inum);
      MidOf(t1, ROOTINO);
      if t[ROOTINO].size + 16 <= MAXFILE * BSIZE {
        NeedsTidy(s1, t1[ROOTINO], 16);
      }
      ok, t2 := Iappend(t1, ROOTINO, Dirent(inum, f.name));
      if !ok {
        return;
      }
      ghost var s2 := shadow;
      EmptyStill(s1, s2, t1, t2, inum);
      MidOf(t2, ROOTINO);
      ok, t3 := AppendAll(t2, inum, f.content);
      if !ok {
        return;
      }
      MidOf(t3, ROOTINO);
      MidOf(t3, inum);
      RootKept(s2, shadow, t2, inum);
      forall k | 0 <= k < inum && k != ROOTINO ensures t3[k] == t[k] && Untouched(s0, shadow, t[k]) {
        FileKept(s0, s1, s2, shadow, t, t1, t2, inum, k);
      }
      EntryBytes(Content(s0, t[ROOTINO]), inum, f.name);
    }

    /** A new inode changes neither the root directory nor its content. */
    lemma RootAfter(s0: Image, s1: Image, t: Table, t1: Table, inum: nat)
      requires |t1| == |t| && ROOTINO < inum < |t| && t1 == t[inum := t1[inum]] && NoneTouched(s0, s1, t1)
      requires Mapped(s0, t[ROOTINO]) && Made(t1) && s1 == shadow && t1[inum] == NoInode().(ftype := T_FILE, nlink := 1)
      ensures t1[ROOTINO] == t[ROOTINO] && Content(s1, t1[ROOTINO]) == Content(s0, t[ROOTINO])
      ensures Tidy(s0, t[ROOTINO]) ==> Tidy(s1, t1[ROOTINO])
      ensures Content(s1, t1[inum]) == [] && t1[inum].Valid()
    {
      hide Made, Base;
      assert Untouched(s0, s1, t1[ROOTINO]);
      if Tidy(s0, t[ROOTINO]) {
        ZeroStays(s0, s1, t[ROOTINO], t[ROOTINO].size);
      }
      UntouchedContent(s0, s1, t[ROOTINO]);
      UntouchedRefs(s0, s1, t[ROOTINO]);
      hide Ref;
    }

    lemma EmptyStill(s1: Image, s2: Image, t1: Table, t2: Table, inum: nat)
      requires |t2| == |t1| && ROOTINO < inum < |t1| && t2 == t1[ROOTINO := t2[ROOTINO]]
      requires OthersKept(s1, s2, t1, ROOTINO) && t1[inum] == NoInode().(ftype := T_FILE, nlink := 1)
      ensures t2[inum] == t1[inum] && t2[inum].Valid() && Content(s2, t2[inum]) == [] && Tidy(s2, t2[inum])
    {
    }

    lemma RootKept(s2: Image, s3: Image, t2: Table, inum: nat)
      requires OthersKept(s2, s3, t2, inum) && ROOTINO < inum && ROOTINO < |t2| && Mapped(s2, t2[ROOTINO])
      ensures Content(s3, t2[ROOTINO]) == Content(s2, t2[ROOTINO])
      ensures Tidy(s2, t2[ROOTINO]) ==> Tidy(s3, t2[ROOTINO])
    {
      assert Untouched(s2, s3, t2[ROOTINO]);
      if Tidy(s2, t2[ROOTINO]) {
        ZeroStays(s2, s3, t2[ROOTINO], t2[ROOTINO].size);
      }
      UntouchedContent(s2, s3, t2[ROOTINO]);
      UntouchedRefs(s2, s3, t2[ROOTINO]);
      hide Ref;
    }

    lemma FileKept(s0: Image, s1: Image, s2: Image, s3: Image, t: Table, t1: Table, t2: Table, inum: nat, k: nat)
      requires |t2| == |t1| == |t| && ROOTINO < inum < |t| && k < inum && k != ROOTINO
      requires t1 == t[inum := t1[inum]] && t2 == t1[ROOTINO := t2[ROOTINO]]
      requires NoneTouched(s0, s1, t1) && OthersKept(s1, s2, t1, ROOTINO) && OthersKept(s2, s3, t2, inum)
      ensures t2[k] == t[k] && Untouched(s0, s3, t[k])
    {
      hide Untouched, Ref;
      assert t1[k] == t[k] && t2[k] == t[k];
      UntouchedTwice(s0, s1, s2, t[k]);
      UntouchedTwice(s0, s2, s3, t[k]);
    }

    /** The root directory with its first two entries. */
    method MakeRoot() returns (ok: bool, ghost t2: Table)
      requires Made(Blank(sb)) && freeinode == ROOTINO < sb.ninodes
      modifies this`blocks, this`freeblock, this`freeinode, this`shadow, this`owner
      ensures ok <==> old(freeblock) + BlocksFor(32) <= sb.size
      ensures ok ==> freeblock == old(freeblock) + BlocksFor(32)
      ensures ok ==> Made(t2) && |t2| == sb.ninodes && freeinode == 2 && RootHolds(shadow, t2, [], 0)
      ensures ok ==>
        var d := t2[1];
        && d.Valid() && d.ftype == 1 && d.nlink == 1 && d.size == 32
        && var c := Content(shadow, d);
        && c[0] == 1 && c[1] == 0 && c[2] == 46 && (forall j :: 3 <= j < 16 ==> c[j] == 0)
        && c[16] == 1 && c[17] == 0 && c[18] == 46 && c[19] == 46 && (forall j :: 20 <= j < 32 ==> c[j] == 0)
    {
      hide Made, Content, Tidy, NoneTouched, Dirent, Mid, Needs, BlocksFor;
      ghost var t, t1;
      var root;
      root, t := Ialloc(Blank(sb), T_DIR);
      MidOf(t, ROOTINO);
      NothingYet(shadow, t[ROOTINO]);
      NoBlocks();
      BlocksForMore(16, 32);
      NeedsTidy(shadow, t[ROOTINO], 16);
      ok, t1 := Iappend(t, ROOTINO, Dirent(ROOTINO, Dots(1)));
      t2 := t1;
      if ok {
        MidOf(t1, ROOTINO);
        SizeOfContent(shadow, t1[ROOTINO]);
        NeedsTidy(shadow, t1[ROOTINO], 16);
        ok, t2 := Iappend(t1, ROOTINO, Dirent(ROOTINO, Dots(2)));
        if ok {
          MidOf(t2, ROOTINO);
          SizeOfContent(shadow, t2[ROOTINO]);
          FirstEntries([], 0);
        }
      }
    }

    /** main up to the rounding of the root directory. */
    method Populate(files: seq<HostFile>) returns (ok: bool, ghost t: Table)
      requires Made(Blank(sb)) && freeinode == ROOTINO && 2 + |files| <= sb.ninodes
      requires forall k :: 0 <= k < |files| ==> |files[k].name| == DIRSIZ
      modifies this`blocks, this`freeblock, this`freeinode, this`shadow, this`owner
      ensures ok <==> SmallFiles(files) && FreeAfter(old(freeblock), files, |files|) <= sb.size
      ensures ok ==> freeblock == FreeAfter(old(freeblock), files, |files|)
      ensures ok ==> Made(t) && |t| == sb.ninodes && RootHolds(shadow, t, files, |files|)
      ensures ok ==> freeinode == 2 + |files|
      ensures ok ==> forall k :: 0 <= k < |files| ==> HasFile(shadow, t, 2 + k, files[k])
    {
      hide Made, RootHolds, HasFile, BlocksFor, FreeAfter, Content, Mapped, Untouched, Tidy, Dirent, SameKind;
      RootFirst(freeblock, files);
      ok, t := MakeRoot();
      if !ok {
        return;
      }
      NoFilesYet(shadow, t, files);
      var n := 0;
      while n < |files|
        invariant n <= |files| && Made(t) && |t| == sb.ninodes && freeinode == 2 + n && RootHolds(shadow, t, files, n)
        invariant forall k :: 0 <= k < n ==> HasFile(shadow, t, 2 + k, files[k])
        invariant forall k :: 0 <= k < n ==> |files[k].content| <= MAXFILE * BSIZE
        invariant 16 * (n + 2) <= MAXFILE * BSIZE && freeblock == FreeAfter(old(freeblock), files, n) <= sb.size
      {
        ghost var t0, s0 := t, shadow;
        FreeAfterMore(old(freeblock), files, n);
        RootIs(shadow, t, files, n);
        ok, t := AddFile(t, files[n]);
        if !ok {
          return;
        }
        OneMoreEntry(s0, t0, shadow, t, files, n);
        forall k | 0 <= k < n ensures HasFile(shadow, t, 2 + k, files[k]) {
          FileStays(s0, t0, shadow, t, 2 + k, files[k]);
        }
        n := n + 1;
      }
    }

    /** The rounding of the root directory's size. */
    method FixRoot(ghost t: Table) returns (ghost u: Table)
      requires Made(t) && ROOTINO < |t| && t[ROOTINO].Valid() && t[ROOTINO].size < MAXFILE * BSIZE
      requires ROOTINO < freeinode
      modifies this`blocks, this`shadow
      ensures u == t[ROOTINO := Rounded(t[ROOTINO])] && Base(u) && Stored(sb, blocks, u) && NoneHeld(owner)
      ensures NoneTouched(old(shadow), shadow, u) && freeblock == old(freeblock)
    {
      MidOf(t, ROOTINO);
      var d := GetInode(blocks[sb.IBlock(ROOTINO)], ROOTINO % IPB);
      RoundedMid(t, d);
      u := t[ROOTINO := Rounded(d)];
      hide Made, NoneTouched, GetInode, Base, Stored, NoneHeld;
      WriteInode(t, ROOTINO, Rounded(d));
      assert u[ROOTINO := Rounded(d)] == u;
      MidMeans(u, ROOTINO, Rounded(d));
    }

    lemma MidMeans(u: Table, i: nat, d: Dinode)
      requires Mid(u, i, d)
      ensures Stored(sb, blocks, u) && NoneHeld(owner)
    {
    }

    lemma RoundedMid(t: Table, d: Dinode)
      requires Mid(t, ROOTINO, d) && d.size < MAXFILE * BSIZE
      ensures Mid(t, ROOTINO, Rounded(d))
    {
      var u := t[ROOTINO := d];
      assert u[ROOTINO] == d && u[ROOTINO := Rounded(d)] == t[ROOTINO := Rounded(d)];
      SameAddrsOwned(sb, shadow, u, owner, ROOTINO, Rounded(d));
    }

    /**
     The end of main: the image is a sound file system if and only if the entries do not fill whole blocks of the
     root directory. ok == false is the assertion of balloc.
     */
    method Finish(ghost t: Table) returns (ok: bool, ghost u: Table)
      requires Made(t) && ROOTINO < |t| && t[ROOTINO].Valid() && t[ROOTINO].size < MAXFILE * BSIZE
      requires ROOTINO < freeinode && Tidy(shadow, t[ROOTINO])
      modifies this`blocks, this`shadow
      ensures u == t[ROOTINO := Rounded(t[ROOTINO])]
      ensures ok <==> freeblock < BPB
      ensures ok ==> sb.Valid() && |blocks| == sb.size && TableOf(sb, blocks) == u
      ensures ok ==> (SoundDisk(sb, blocks) <==> t[ROOTINO].size % BSIZE != 0)
      ensures ok ==> NoneTouched(old(shadow), blocks, u)
      ensures ok ==> forall x :: 1 < x < sb.inodestart ==> blocks[x] == ZERO_BLOCK
    {
      hide Made, NoneTouched, Base, Stored, NoneHeld, SoundDisk, Tidy, Mapped;
      MadeMeans(t);
      ghost var s0 := shadow;
      u := FixRoot(t);
      BaseMeans(u);
      ghost var before := blocks;
      ok := Balloc();
      if ok {
        MarkedImage(sb, before, shadow, blocks, u, owner, freeblock);
        NoneTouchedTwice(s0, shadow, blocks, u);
        SoundUnlessHole(sb, s0, blocks, t, u, owner);
      }
    }

    /**
     The end of main of Assignment3, whose balloc writes the bits from block `first` on: 2 there, a swap block. The
     image is a sound file system if and only if that is where the bitmap is, and the root directory has no hole.
     */
    method FinishAt(ghost t: Table, first: nat)
      requires Made(t) && ROOTINO < |t| && t[ROOTINO].Valid() && t[ROOTINO].size < MAXFILE * BSIZE
      requires ROOTINO < freeinode && Tidy(shadow, t[ROOTINO])
      requires first == sb.bmapstart || first + (freeblock - 1) / BPB < sb.inodestart
      modifies this`blocks, this`shadow
      ensures SoundDisk(sb, blocks) <==> first == sb.bmapstart && t[ROOTINO].size % BSIZE != 0
    {
      hide Made, NoneTouched, Base, Stored, NoneHeld, SoundDisk, Tidy, Mapped;
      MadeMeans(t);
      MadeLayout(t);
      ghost var s0 := shadow;
      ghost var u := FixRoot(t);
      BaseMeans(u);
      ghost var before := blocks;
      BallocAt(first);
      if first == sb.bmapstart {
        BitsAt(sb, before, blocks, freeblock);
        MarkedImage(sb, before, shadow, blocks, u, owner, freeblock);
        NoneTouchedTwice(s0, shadow, blocks, u);
        SoundUnlessHole(sb, s0, blocks, t, u, owner);
      } else {
        MisplacedBitmap(sb, before, blocks, first, first + (freeblock - 1) / BPB);
      }
    }

    lemma MadeLayout(t: Table)
      requires Made(t)
      ensures sb.Valid() && sb.nmeta <= freeblock <= sb.size
    {
    }

    lemma EnoughNow(t: Table)
      requires Made(t)
      ensures freeblock <= sb.size
    {
    }

    lemma BaseMeans(u: Table)
      requires Base(u)
      ensures Owned(sb, shadow, u, owner) && forall b :: 0 <= b < sb.size ==> (owner[b] == Free <==> freeblock <= b)
      ensures sb.Valid() && |blocks| == sb.size && sb.nmeta <= freeblock <= sb.size && |u| == sb.ninodes
      ensures forall x :: 0 <= x < sb.size && sb.IsBitmap(x) ==> blocks[x] == ZERO_BLOCK
      ensures forall x :: 1 < x < sb.inodestart ==> blocks[x] == ZERO_BLOCK
      ensures SameButBits(sb, blocks, shadow)
    {
    }

    lemma OwnedOf(t: Table)
      requires Base(t)
      ensures Owned(sb, shadow, t, owner)
    {
    }

    lemma ValidNow(t: Table, i: nat, d: Dinode)
      requires Mid(t, i, d)
      ensures d.Valid() && |t| == sb.ninodes && freeblock <= sb.size
      ensures forall k :: 0 <= k < |t| && k != i ==> t[k].Valid()
    {
      assert t[i := d][i] == d;
      forall k | 0 <= k < |t| && k != i ensures t[k].Valid() {
        assert t[i := d][k] == t[k];
      }
    }

    lemma KeptNow(t: Table, i: nat, d: Dinode)
      requires Mid(t, i, d)
      ensures OthersKept(shadow, shadow, t, i) && Extends(shadow, d, shadow, d)
    {
      ValidNow(t, i, d);
      hide Owned;
      SelfUntouched(shadow, d);
    }
  }

  // ----- the bitmap -----

  /** The bits of the first n blocks that this bitmap block stands for are set, the others are clear. */
  ghost predicate Marks(buf: Block, n: nat) {
    forall k: nat :: k < BPB ==> TestBit(buf.at[k / 8], k % 8) == (k < n)
  }

  lemma NoMarks()
    ensures Marks(ZERO_BLOCK, 0)
  {
    forall k: nat | k < BPB ensures !TestBit(ZERO_BLOCK.at[k / 8], k % 8) {
      ZeroBits(k % 8);
    }
  }

  lemma OneMoreMark(buf: Block, i: nat)
    requires Marks(buf, i) && i < BPB
    ensures PutBitIn(buf.at[i / 8], i % 8, true) < 256
    ensures Marks(Bytes(buf.at[i / 8 := PutBitIn(buf.at[i / 8], i % 8, true)]), i + 1)
  {
    hide TestBit;
    PutBitByte(buf.at[i / 8], i % 8, true);
    var r := Bytes(buf.at[i / 8 := PutBitIn(buf.at[i / 8], i % 8, true)]);
    forall k: nat | k < BPB ensures TestBit(r.at[k / 8], k % 8) == (k < i + 1) {
      assert k == 8 * (k / 8) + k % 8 && i == 8 * (i / 8) + i % 8;
    }
  }

  /** balloc's loop over the bits of one bitmap block. */
  method MarkBits(n: nat) returns (buf: Block)
    requires n <= BPB
    ensures Marks(buf, n)
  {
    buf := ZERO_BLOCK;
    NoMarks();
    var i := 0;
    while i < n
      invariant i <= n && Marks(buf, i)
    {
      OneMoreMark(buf, i);
      buf := Bytes(buf.at[i / 8 := PutBitIn(buf.at[i / 8], i % 8, true)]);
      i := i + 1;
    }
  }

  /** How many of the first n blocks have their bits in bitmap block j. */
  function InBlock(n: nat, j: nat): nat {
    if n <= j * BPB then 0 else if n >= (j + 1) * BPB then BPB else n - j * BPB
  }

  lemma MarksAre(sb: Super, img: Image, n: nat)
    requires sb.Valid() && |img| == sb.size
    requires forall j: nat :: j < sb.BitmapBlocks() ==> Marks(img[sb.bmapstart + j], InBlock(n, j))
    ensures forall b :: 0 <= b < sb.size ==> (Bit(sb, img, b) <==> b < n)
  {
    hide TestBit;
    forall b | 0 <= b < sb.size ensures Bit(sb, img, b) <==> b < n {
      var j, k := b / BPB, b % BPB;
      assert b == BPB * j + k;
      sb.BBlockIsBitmap(b);
      assert Marks(img[sb.bmapstart + j], InBlock(n, j));
      SplitByByte(512 * j, k);
      assert 8 * (512 * j) + k == b;
    }
  }

  // ----- the loop of iappend -----

  /** The first n bytes behind byte `off` are mapped, and freeblock went from f0 to f for that. */
  ghost predicate Filled(s0: Image, d0: Dinode, s: Image, d: Dinode, off: nat, n: nat, f0: nat, f: nat) {
    && |d0.addrs| == NDIRECT + 1 && EndBlock(off, n) <= MAXFILE
    && Grew(s0, d0, s, d, off / BSIZE, EndBlock(off, n))
    && f == f0 + Needed(s0, d0, off / BSIZE, EndBlock(off, n))
  }

  lemma StartAppend(s: Image, d: Dinode, off: nat, q: seq<Byte>, f: nat)
    requires d.Valid() && Mapped(s, d) && off == d.size && off + |q| <= MAXFILE * BSIZE
    ensures Wrote(s, d, s, d, off, q, 0) && Filled(s, d, s, d, off, 0, f, f)
  {
    WroteNothing(s, d, off, q);
    GrewNothing(s, d, off / BSIZE, off / BSIZE);
    NeededNothing(s, d, off / BSIZE);
    hide Ref, Wrote, Grew, Needed;
  }

  /** Cutting the data at the largest file size does not change what goes into a block of the file. */
  lemma NextAppend(off: nat, n: nat, nq: nat, tot: nat, m: nat)
    requires tot < n && tot <= nq <= n && (off + tot) / BSIZE < MAXFILE && Chunk(off + tot, n - tot, m)
    requires nq == n || off + nq == MAXFILE * BSIZE
    ensures tot < nq && Chunk(off + tot, nq - tot, m) && tot + m <= nq
  {
    var pos := off + tot;
    assert pos == BSIZE * (pos / BSIZE) + pos % BSIZE;
  }

  lemma FilledSoFar(s0: Image, d0: Dinode, s: Image, d: Dinode, off: nat, tot: nat, f0: nat, f: nat, n: nat, size: nat)
    requires Filled(s0, d0, s, d, off, tot, f0, f) && tot < n && off + n <= MAXFILE * BSIZE
    requires tot == 0 || (off + tot) % BSIZE == 0
    ensures var bn := (off + tot) / BSIZE;
      && bn < MAXFILE && |d.addrs| == NDIRECT + 1
      && (f + Needed(s, d, bn, bn + 1) > size ==> f0 + Needs(s0, d0, off, n) > size)
  {
    NextBlock(off, tot, n);
    EndInFile(off, n);
    var bn, end := (off + tot) / BSIZE, EndBlock(off, n);
    NeededSplit(s0, d0, s, d, off / BSIZE, bn, bn, end);
    NeededGrows(s, d, bn, bn + 1, end);
    hide Ref, Needed, EndBlock;
  }

  lemma FilledMore(s0: Image, d0: Dinode, s1: Image, d1: Dinode, s2: Image, d2: Dinode, off: nat, tot: nat, m: nat,
                   n: nat, f0: nat, f1: nat, f2: nat)
    requires Filled(s0, d0, s1, d1, off, tot, f0, f1) && tot < n && Chunk(off + tot, n - tot, m)
    requires tot == 0 || (off + tot) % BSIZE == 0
    requires (off + tot) / BSIZE < MAXFILE
    requires Grew(s1, d1, s2, d2, (off + tot) / BSIZE, (off + tot) / BSIZE + 1)
    requires f2 == f1 + Needed(s1, d1, (off + tot) / BSIZE, (off + tot) / BSIZE + 1)
    ensures Filled(s0, d0, s2, d2, off, tot + m, f0, f2)
    ensures tot + m == n || (off + tot + m) % BSIZE == 0
  {
    NextBlock(off, tot, n);
    SpanAfter(off, tot, n, m);
    var bn := (off + tot) / BSIZE;
    GrewTwice(s0, d0, s1, d1, s2, d2, off / BSIZE, bn, bn, bn + 1);
    NeededSplit(s0, d0, s1, d1, off / BSIZE, bn, bn, bn + 1);
    hide Ref, Needed, EndBlock, Grew, Chunk;
  }

  lemma TidyEnd(s: Image, d: Dinode)
    ensures Tidy(s, d) ==> ZeroFrom(s, d, d.size)
  {
  }

  lemma KeptThen(a: Image, b: Image, c: Image, t: Table, i: nat, d: Dinode)
    requires OthersKept(a, b, t, i) && i < |t| && NoneTouched(b, c, t[i := d])
    ensures OthersKept(a, c, t, i) && Untouched(b, c, d)
  {
    hide Untouched;
    assert t[i := d][i] == d;
    forall k | 0 <= k < |t| && k != i ensures Untouched(b, c, t[k]) {
      assert t[i := d][k] == t[k];
    }
    OthersKeptTwice(a, b, c, t, i);
  }

  lemma TidyAfter(s0: Image, d0: Dinode, s1: Image, d1: Dinode, s2: Image, d2: Dinode, off: nat, n: nat)
    requires off == d0.size && Grew(s0, d0, s1, d1, off / BSIZE, EndBlock(off, n)) && Untouched(s1, s2, d2)
    requires d2 == d1.(size := off + n) && off + n <= MAXFILE * BSIZE && Tidy(s0, d0) && ZeroFrom(s1, d1, off + n)
    ensures Tidy(s2, d2)
  {
    SameAddrsRefs(s1, d1, d2);
    UntouchedRefs(s1, s2, d2);
    ZeroResized(s1, d1, off + n, off + n);
    ZeroStays(s1, s2, d2, off + n);
    hide Ref, ZeroFrom;
    if d0.addrs[NDIRECT] == 0 && d2.addrs[NDIRECT] != 0 {
      assert NDIRECT < EndBlock(off, n) && off / BSIZE < EndBlock(off, n);
    }
    forall bn {:trigger Slot(bn)} | 0 <= bn < MAXFILE && bn * BSIZE >= d2.size ensures Ref(s2, d2, Slot(bn)) == 0 {
      assert Ref(s0, d0, Slot(bn)) == 0;
      Behind(off, n, bn);
    }
  }

  /** The blocks of a file of this size, with its indirect block. */
  function BlocksFor(size: nat): nat {
    var c := (size + BSIZE - 1) / BSIZE;
    c + if c > NDIRECT then 1 else 0
  }

  lemma BlocksForMore(a: nat, b: nat)
    requires a <= b
    ensures BlocksFor(a) <= BlocksFor(b)
  {
  }

  lemma {:induction false} HolesBehind(s: Image, d: Dinode, lo: nat, c: nat, hi: nat)
    requires |d.addrs| == NDIRECT + 1 && lo <= c && hi <= MAXFILE
    requires forall bn {:trigger Slot(bn)} :: 0 <= bn < MAXFILE ==> (Ref(s, d, Slot(bn)) == 0 <==> c <= bn)
    ensures Holes(s, d, lo, hi) == if hi > c then hi - c else 0
    decreases hi
  {
    hide Ref;
    if lo < hi {
      HolesBehind(s, d, lo, c, hi - 1);
      assert Ref(s, d, Slot(hi - 1)) == 0 <==> c <= hi - 1;
    }
  }

  /** What appending to a tidy file takes depends on the sizes only. */
  lemma NeedsTidy(s: Image, d: Dinode, n: nat)
    requires Mapped(s, d) && Tidy(s, d) && d.size + n <= MAXFILE * BSIZE
    ensures BlocksFor(d.size + n) == BlocksFor(d.size) + Needs(s, d, d.size, n)
  {
    var c := (d.size + BSIZE - 1) / BSIZE;
    if n > 0 {
      forall bn {:trigger Slot(bn)} | 0 <= bn < MAXFILE ensures Ref(s, d, Slot(bn)) == 0 <==> c <= bn {
      }
      HolesBehind(s, d, d.size / BSIZE, c, EndBlock(d.size, n));
      if d.size > NDIRECT * BSIZE {
        RefsOf(s, d, NDIRECT);
      }
      hide Ref;
      assert EndBlock(d.size, n) == (d.size + n + BSIZE - 1) / BSIZE;
    }
  }

  /** The blocks that the first n files take. */
  ghost function Uses(files: seq<HostFile>, n: nat): nat
    requires n <= |files|
  {
    if n == 0 then 0 else Uses(files, n - 1) + BlocksFor(|files[n - 1].content|)
  }

  lemma {:induction false} UsesMore(files: seq<HostFile>, n: nat, m: nat)
    requires n <= m <= |files|
    ensures Uses(files, n) <= Uses(files, m)
    decreases m
  {
    if n < m {
      UsesMore(files, n, m - 1);
    }
  }

  /** The first free block once the root directory and the files are there. */
  ghost function FreeAfter(from: nat, files: seq<HostFile>, n: nat): nat
    requires n <= |files|
  {
    from + BlocksFor(16 * (n + 2)) + Uses(files, n)
  }

  lemma FreeAfterMore(from: nat, files: seq<HostFile>, n: nat)
    requires n < |files|
    ensures FreeAfter(from, files, n + 1) ==
            FreeAfter(from, files, n) + (BlocksFor(16 * (n + 2) + 16) - BlocksFor(16 * (n + 2))) +
            BlocksFor(|files[n].content|)
    ensures FreeAfter(from, files, n + 1) <= FreeAfter(from, files, |files|)
  {
    hide BlocksFor;
    BlocksForMore(16 * (n + 3), 16 * (|files| + 2));
    UsesMore(files, n + 1, |files|);
  }

  /** No file is too large. */
  ghost predicate SmallFiles(files: seq<HostFile>) {
    && 16 * (|files| + 2) <= MAXFILE * BSIZE
    && forall k :: 0 <= k < |files| ==> |files[k].content| <= MAXFILE * BSIZE
  }

  lemma Behind(off: nat, n: nat, bn: nat)
    requires bn * BSIZE >= off + n
    ensures !(off / BSIZE <= bn < EndBlock(off, n))
  {
  }

  lemma SameKindSelf(d: Dinode)
    ensures SameKind(d, d)
  {
  }

  lemma SameKindTwice(a: Dinode, b: Dinode, c: Dinode)
    requires SameKind(a, b) && SameKind(b, c)
    ensures SameKind(a, c)
  {
  }

  lemma SliceMore(p: seq<Byte>, tot: nat, n: nat)
    requires tot + n <= |p|
    ensures p[..tot] + p[tot..tot + n] == p[..tot + n]
  {
  }

  /** An inode with the bytes of a file of the host. */
  ghost predicate HasFile(s: Image, t: Table, i: nat, f: HostFile) {
    && i < |t| && Mapped(s, t[i]) && t[i].ftype == T_FILE && t[i].nlink == 1 && Content(s, t[i]) == f.content
  }

  lemma NothingYet(s: Image, d: Dinode)
    requires d == NoInode().(ftype := d.ftype, nlink := d.nlink)
    ensures d.Valid() && Content(s, d) == [] && Tidy(s, d)
  {
  }

  /** The root directory lists the first n files. */
  ghost predicate RootHolds(s: Image, t: Table, files: seq<HostFile>, n: nat) {
    && n <= |files| && (forall k :: 0 <= k < |files| ==> |files[k].name| == DIRSIZ)
    && ROOTINO < |t| && t[ROOTINO].Valid() && t[ROOTINO].ftype == T_DIR && t[ROOTINO].nlink == 1
    && Content(s, t[ROOTINO]) == Entries(files, n) && Tidy(s, t[ROOTINO])
  }

  lemma NoFilesYet(s: Image, t: Table, files: seq<HostFile>)
    requires RootHolds(s, t, [], 0) && forall k :: 0 <= k < |files| ==> |files[k].name| == DIRSIZ
    ensures RootHolds(s, t, files, 0)
  {
  }

  lemma RootIs(s: Image, t: Table, files: seq<HostFile>, n: nat)
    requires RootHolds(s, t, files, n)
    ensures ROOTINO < |t| && t[ROOTINO].Valid() && Tidy(s, t[ROOTINO]) && t[ROOTINO].size == 16 * (n + 2)
  {
    SizeOfContent(s, t[ROOTINO]);
  }

  lemma RootFirst(from: nat, files: seq<HostFile>)
    ensures FreeAfter(from, files, 0) == from + BlocksFor(32) <= FreeAfter(from, files, |files|)
  {
    BlocksForMore(32, 16 * (|files| + 2));
    UsesMore(files, 0, |files|);
    hide BlocksFor;
  }

  lemma NoBlocks()
    ensures BlocksFor(0) == 0
  {
  }

  lemma OneMoreEntry(s0: Image, t0: Table, s: Image, t: Table, files: seq<HostFile>, n: nat)
    requires RootHolds(s0, t0, files, n) && n < |files| && |t| == |t0|
    requires SameKind(t0[ROOTINO], t[ROOTINO]) && t[ROOTINO].Valid() && Tidy(s, t[ROOTINO])
    requires Content(s, t[ROOTINO]) == Content(s0, t0[ROOTINO]) + Dirent(n + 2, files[n].name)
    ensures RootHolds(s, t, files, n + 1)
  {
  }

  lemma FileStays(s0: Image, t0: Table, s: Image, t: Table, i: nat, f: HostFile)
    requires HasFile(s0, t0, i, f) && i < |t| && t[i] == t0[i] && Untouched(s0, s, t[i])
    ensures HasFile(s, t, i, f)
  {
    UntouchedContent(s0, s, t[i]);
  }

  function Rounded(d: Dinode): Dinode {
    d.(size := (d.size / BSIZE + 1) * BSIZE)
  }

  lemma KeptAlso(a: Image, b: Image, u: Table, t: Table, i: nat)
    requires OthersKept(a, b, u, i) && |u| == |t| && i < |t| && u == t[i := u[i]]
    ensures OthersKept(a, b, t, i)
  {
    hide Untouched;
    forall k | 0 <= k < |t| && k != i ensures Untouched(a, b, t[k]) {
      assert u[k] == t[k];
    }
  }

  lemma WroteKind(s0: Image, d0: Dinode, s: Image, d: Dinode, off: nat, p: seq<Byte>)
    requires Wrote(s0, d0, s, d, off, p, |p|)
    ensures SameKind(d0, d.(size := off + |p|)) && d0.Valid() && d.size == d0.size
  {
  }

  lemma BytesAppended(s0: Image, d0: Dinode, s: Image, d: Dinode, off: nat, p: seq<Byte>)
    requires Wrote(s0, d0, s, d, off, p, |p|) && off == d0.size
    ensures SameKind(d0, d.(size := off + |p|)) && d0.Valid() && off + |p| <= MAXFILE * BSIZE
    ensures Mapped(s, d.(size := off + |p|)) && Content(s, d.(size := off + |p|)) == Content(s0, d0) + p
  {
    hide Wrote, Mapped, Content, Ref;
    WroteKind(s0, d0, s, d, off, p);
    FileWritten(s0, d0, s, d, off, p);
    assert |Content(s0, d0)| == off by {
      SizeOfContent(s0, d0);
    }
    SpliceAtEnd(Content(s0, d0), p);
    assert Resized(d, off + |p|) == d.(size := off + |p|);
  }

  lemma SizeOfContent(s: Image, d: Dinode)
    requires d.Valid()
    ensures |Content(s, d)| == d.size
  {
  }

  lemma SpliceAtEnd(c: seq<Byte>, p: seq<Byte>)
    ensures Splice(c, |c|, p) == c + p
  {
  }

  lemma FilledMeans(s0: Image, d0: Dinode, s: Image, d: Dinode, off: nat, n: nat, f0: nat, f: nat)
    requires Filled(s0, d0, s, d, off, n, f0, f) && (n == 0 || off + n <= MAXFILE * BSIZE)
    ensures f == f0 + Needs(s0, d0, off, n) && Grew(s0, d0, s, d, off / BSIZE, EndBlock(off, n))
  {
    if n == 0 {
      NeededNothing(s0, d0, off / BSIZE);
    }
  }

  lemma TakenOthers(before: Image, after: Image, u: Table, t: Table, i: nat)
    requires |u| == |t| && forall k :: 0 <= k < |t| && k != i ==> u[k] == t[k]
    requires NoneTouched(before, after, u)
    ensures OthersKept(before, after, t, i)
  {
    hide Untouched;
  }

  // ----- the finished image -----

  lemma NoneTouchedTwice(a: Image, b: Image, c: Image, t: Table)
    requires NoneTouched(a, b, t) && NoneTouched(b, c, t)
    ensures NoneTouched(a, c, t)
  {
    hide Untouched;
    forall k | 0 <= k < |t| ensures Untouched(a, c, t[k]) {
      UntouchedTwice(a, b, c, t[k]);
    }
  }

  /** With the bits of the first freeblock blocks the image is what its shadow is. */
  lemma MarkedImage(sb: Super, before: Image, shadow: Image, img: Image, u: Table, owner: seq<Owner>, freeblock: nat)
    requires Owned(sb, shadow, u, owner) && Stored(sb, before, u)
    requires SameButBits(sb, before, shadow) && SameButBits(sb, before, img)
    requires forall b :: 0 <= b < sb.size ==> (Bit(sb, img, b) <==> b < freeblock)
    requires forall b :: 0 <= b < sb.size ==> (owner[b] == Free <==> freeblock <= b)
    ensures Owned(sb, img, u, owner) && Stored(sb, img, u) && NoneTouched(shadow, img, u)
  {
    hide Bit, GetInode;
    forall i | 0 <= i < |u| ensures InodeAt(sb, img, i) == u[i] {
      sb.IBlockIsInode(i);
      assert InodeAt(sb, before, i) == u[i];
    }
    SameFilesBits(sb, shadow, img, u, owner);
    SameRefsOwned(shadow, img, u, owner);
  }

  /** No file has a block in the bitmap. */
  lemma SameFilesBits(sb: Super, a: Image, b: Image, t: Table, owner: seq<Owner>)
    requires SameButBits(sb, b, a) && Owned(sb, a, t, owner)
    ensures NoneTouched(a, b, t)
    ensures forall i, s {:trigger Ref(a, t[i], s)} {:trigger Ref(b, t[i], s)} ::
      0 <= i < |t| && 0 <= s < NSLOTS ==> Ref(b, t[i], s) == Ref(a, t[i], s)
  {
    forall i | 0 <= i < |t| ensures Untouched(a, b, t[i]) {
      var d := t[i];
      assert Ref(a, d, NDIRECT) == d.addrs[NDIRECT];
      forall s {:trigger Ref(b, d, s)} | 0 <= s < NSLOTS
        ensures Ref(b, d, s) == Ref(a, d, s)
        ensures s != NDIRECT && 0 < Ref(a, d, s) < |a| ==> b[Ref(a, d, s)] == a[Ref(a, d, s)]
      {
        if Ref(a, d, s) != 0 {
          assert owner[Ref(a, d, s)] == By(i, s);
        }
      }
    }
  }

  /** The only thing that can be wrong with the image is a hole at the end of the root directory. */
  lemma SoundUnlessHole(sb: Super, s0: Image, img: Image, t: Table, u: Table, owner: seq<Owner>)
    requires Owned(sb, img, u, owner) && NoneHeld(owner) && Stored(sb, img, u) && NoneTouched(s0, img, u)
    requires ROOTINO < |t| && u == t[ROOTINO := Rounded(t[ROOTINO])]
    requires forall k :: 0 <= k < |t| ==> Mapped(s0, t[k])
    requires Tidy(s0, t[ROOTINO]) && t[ROOTINO].size < MAXFILE * BSIZE
    ensures sb.Valid() && |img| == sb.size && TableOf(sb, img) == u
    ensures SoundDisk(sb, img) <==> t[ROOTINO].size % BSIZE != 0
  {
    hide Ref, Bit, InodeAt, Owned;
    assert TableOf(sb, img) == u;
    var d := u[ROOTINO];
    RootRounding(s0, t[ROOTINO]);
    SameHoles(s0, img, d);
    forall k | 0 <= k < |u| && k != ROOTINO ensures Mapped(img, u[k]) {
      UntouchedContent(s0, img, u[k]);
    }
    if t[ROOTINO].size % BSIZE != 0 {
      assert SoundWith(sb, img, owner);
    }
  }

  lemma SameHoles(a: Image, b: Image, d: Dinode)
    requires Untouched(a, b, d)
    ensures Mapped(b, d) <==> Mapped(a, d)
  {
    UntouchedRefs(a, b, d);
    hide Ref;
  }

  /** The whole of mkfs: its image is sound unless the number of entries is a multiple of 32. */
  method Make(sb: Super, super: Block, files: seq<HostFile>) returns (ok: bool, img: Image)
    requires sb.Valid() && 1 < sb.inodestart && 2 + |files| <= sb.ninodes
    requires forall k :: 0 <= k < |files| ==> |files[k].name| == DIRSIZ
    requires 16 * (|files| + 2) != MAXFILE * BSIZE
    ensures ok <==>
      SmallFiles(files) && FreeAfter(sb.nmeta, files, |files|) <= sb.size && FreeAfter(sb.nmeta, files, |files|) < BPB
    ensures ok ==> |img| == sb.size && (SoundDisk(sb, img) <==> (|files| + 2) % 32 != 0)
    ensures ok ==> forall i :: 2 <= i < 2 + |files| ==>
      var d := TableOf(sb, img)[i];
      Mapped(img, d) && d.Valid() && d.ftype == 2 && d.nlink == 1 && Content(img, d) == files[i - 2].content
    ensures ok ==>
      var d := TableOf(sb, img)[1];
      d.Valid() && d.ftype == 1 && d.nlink == 1 && d.size == (16 * (|files| + 2) / 512 + 1) * 512
    ensures ok ==>
      var root := Content(img, TableOf(sb, img)[1]);
      && root[0] == 1 && root[1] == 0 && root[2] == 46 && (forall j :: 3 <= j < 16 ==> root[j] == 0)
      && root[16] == 1 && root[17] == 0 && root[18] == 46 && root[19] == 46
      && (forall j :: 20 <= j < 32 ==> root[j] == 0)
      && forall k :: 0 <= k < |files| ==>
           root[16 * (k + 2)..16 * (k + 2) + 16] == [(2 + k) % 0x100, (2 + k) / 0x100] + files[k].name
    ensures ok && (|files| + 2) % 32 != 0 ==>
      var root := Content(img, TableOf(sb, img)[1]);
      forall j :: 16 * (|files| + 2) <= j < |root| ==> root[j] == 0
    ensures ok ==> 2 + |files| < 0x1_0000
    ensures ok ==> forall x :: 1 < x < sb.inodestart ==> img[x] == ZERO_BLOCK
  {
    hide Maker.Made, SoundDisk, NoneTouched, HasFile, SmallFiles, FreeAfter, Content, Mapped, RootHolds, Tidy;
    img := [];
    var m := new Maker(sb, super);
    ghost var t, u;
    ok, t := m.Populate(files);
    if ok {
      NotTooLarge(files);
      RootSize(m.shadow, t, files);
      m.MadeMeans(t);
      ghost var s0 := m.shadow;
      ok, u := m.Finish(t);
      img := m.blocks;
      if ok {
        assert TableOf(sb, img) == u;
        FilesFinished(s0, img, t, u, files);
        RootFinished(s0, img, t, u, files);
        if (|files| + 2) % 32 != 0 {
          EmptySlots(s0, img, t, u);
        }
      }
    }
  }

  lemma EntryBytes(c0: seq<Byte>, inum: nat, name: seq<Byte>)
    requires |name| == DIRSIZ
    ensures var c := c0 + Dirent(inum, name);
      && |c| == |c0| + 16 && c[..|c0|] == c0
      && c[|c0|] == inum % 0x100 && c[|c0| + 1] == inum / 0x100 % 0x100 && c[|c0| + 2..] == name
  {
  }

  /** The log of such an image is empty. */
  lemma LogIsEmpty(g: Geometry, sb: Super, img: Image)
    requires Layout(g, sb) && |img| == sb.size && 1 < g.start && 1 <= g.size
    requires forall x :: 1 < x < sb.inodestart ==> img[x] == ZERO_BLOCK
    ensures Clean(g, img)
  {
    ZeroWord(0);
  }

  lemma NotTooLarge(files: seq<HostFile>)
    requires SmallFiles(files)
    ensures 16 * (|files| + 2) <= MAXFILE * BSIZE
  {
  }

  lemma RootSize(s: Image, t: Table, files: seq<HostFile>)
    requires RootHolds(s, t, files, |files|)
    ensures ROOTINO < |t| && t[ROOTINO].Valid() && Tidy(s, t[ROOTINO]) && t[ROOTINO].size == 16 * (|files| + 2)
    ensures t[ROOTINO].size % BSIZE != 0 <==> (|files| + 2) % 32 != 0
  {
    SizeOfContent(s, t[ROOTINO]);
  }

  lemma FileFinished(s: Image, img: Image, t: Table, u: Table, i: nat, f: HostFile)
    requires HasFile(s, t, i, f) && NoneTouched(s, img, u) && |u| == |t| && i < |u| && u[i] == t[i]
    ensures Mapped(img, u[i]) && u[i].Valid() && u[i].ftype == 2 && u[i].nlink == 1 && Content(img, u[i]) == f.content
  {
    FileStays(s, t, img, u, i, f);
  }

  lemma FilesFinished(s: Image, img: Image, t: Table, u: Table, files: seq<HostFile>)
    requires NoneTouched(s, img, u) && ROOTINO < |t| == |u| && u == t[ROOTINO := u[ROOTINO]] && 2 + |files| <= |u|
    requires forall k :: 0 <= k < |files| ==> HasFile(s, t, 2 + k, files[k])
    ensures forall i :: 2 <= i < 2 + |files| ==>
      var d := u[i];
      Mapped(img, d) && d.Valid() && d.ftype == 2 && d.nlink == 1 && Content(img, d) == files[i - 2].content
  {
    hide NoneTouched, Mapped, Content;
    forall i | 2 <= i < 2 + |files|
      ensures
        var d := u[i];
        Mapped(img, d) && d.Valid() && d.ftype == 2 && d.nlink == 1 && Content(img, d) == files[i - 2].content
    {
      assert HasFile(s, t, 2 + (i - 2), files[i - 2]);
      FileFinished(s, img, t, u, i, files[i - 2]);
    }
  }

  /** The bytes of the root directory after the rounding. */
  lemma RootFinished(s: Image, img: Image, t: Table, u: Table, files: seq<HostFile>)
    requires RootHolds(s, t, files, |files|) && u == t[ROOTINO := Rounded(t[ROOTINO])] && NoneTouched(s, img, u)
    requires Mapped(s, t[ROOTINO]) && 16 * (|files| + 2) < MAXFILE * BSIZE
    ensures var d := u[1];
      d.Valid() && d.ftype == 1 && d.nlink == 1 && d.size == (16 * (|files| + 2) / 512 + 1) * 512
    ensures var root := Content(img, u[1]);
      && root[0] == 1 && root[1] == 0 && root[2] == 46 && (forall j :: 3 <= j < 16 ==> root[j] == 0)
      && root[16] == 1 && root[17] == 0 && root[18] == 46 && root[19] == 46
      && (forall j :: 20 <= j < 32 ==> root[j] == 0)
      && forall k :: 0 <= k < |files| ==>
           root[16 * (k + 2)..16 * (k + 2) + 16] == [(2 + k) % 0x100, (2 + k) / 0x100] + files[k].name
  {
    hide RootHolds, NoneTouched, Content, Tidy, Mapped, Untouched, Entries;
    RootMeans(s, t, files);
    assert u[ROOTINO] == Rounded(t[ROOTINO]);
    OneUntouched(s, img, u, ROOTINO);
    RoundedContent(s, img, t[ROOTINO]);
    RootBytes(Content(img, u[1]), files);
  }

  /** The rounding adds empty slots. */
  lemma EmptySlots(s: Image, img: Image, t: Table, u: Table)
    requires NoneTouched(s, img, u) && ROOTINO < |t| == |u| && u[ROOTINO] == Rounded(t[ROOTINO])
    requires Mapped(s, t[ROOTINO]) && Tidy(s, t[ROOTINO]) && t[ROOTINO].size % BSIZE != 0
    ensures u[1].Valid() && forall j :: t[ROOTINO].size <= j < u[1].size ==> Content(img, u[1])[j] == 0
  {
    var d, d1 := t[ROOTINO], u[ROOTINO];
    OneUntouched(s, img, u, ROOTINO);
    ZeroResized(s, d, d1.size, d.size);
    ZeroStays(s, img, d1, d.size);
    SameAddrsRefs(s, d, d1);
    hide NoneTouched, Ref, ZeroFrom;
    forall j | d.size <= j < d1.size ensures Content(img, d1)[j] == 0 {
      assert j / BSIZE == d.size / BSIZE;
      assert Ref(s, d, Slot(d.size / BSIZE)) != 0;
      UntouchedRefs(s, img, d1);
      ZeroAt(img, d1, d.size, j);
    }
  }

  lemma RootMeans(s: Image, t: Table, files: seq<HostFile>)
    requires RootHolds(s, t, files, |files|)
    ensures ROOTINO < |t| && t[ROOTINO].Valid() && t[ROOTINO].ftype == 1 && t[ROOTINO].nlink == 1
    ensures forall k :: 0 <= k < |files| ==> |files[k].name| == DIRSIZ
    ensures Content(s, t[ROOTINO]) == Entries(files, |files|) && t[ROOTINO].size == 16 * (|files| + 2)
  {
    SizeOfContent(s, t[ROOTINO]);
  }

  lemma OneUntouched(a: Image, b: Image, t: Table, i: nat)
    requires NoneTouched(a, b, t) && i < |t|
    ensures Untouched(a, b, t[i])
  {
  }

  lemma RootBytes(root: seq<Byte>, files: seq<HostFile>)
    requires (forall k :: 0 <= k < |files| ==> |files[k].name| == DIRSIZ) && |files| + 2 < 0x1_0000
    requires |root| >= 16 * (|files| + 2) && root[..16 * (|files| + 2)] == Entries(files, |files|)
    ensures
      && root[0] == 1 && root[1] == 0 && root[2] == 46 && (forall j :: 3 <= j < 16 ==> root[j] == 0)
      && root[16] == 1 && root[17] == 0 && root[18] == 46 && root[19] == 46
      && (forall j :: 20 <= j < 32 ==> root[j] == 0)
      && forall k :: 0 <= k < |files| ==>
           root[16 * (k + 2)..16 * (k + 2) + 16] == [(2 + k) % 0x100, (2 + k) / 0x100] + files[k].name
  {
    hide Entries;
    FirstEntries(files, |files|);
    assert forall j :: 0 <= j < 16 * (|files| + 2) ==> root[j] == root[..16 * (|files| + 2)][j];
    var entries := Entries(files, |files|);
    forall k | 0 <= k < |files|
      ensures root[16 * (k + 2)..16 * (k + 2) + 16] == [(2 + k) % 0x100, (2 + k) / 0x100] + files[k].name
    {
      EntryAt(files, |files|, k);
      assert root[16 * (k + 2)..16 * (k + 2) + 16] == root[..|entries|][16 * (k + 2)..16 * (k + 2) + 16];
    }
  }

  lemma RoundedContent(s: Image, img: Image, d: Dinode)
    requires Mapped(s, d) && d.size < MAXFILE * BSIZE && Untouched(s, img, Rounded(d))
    ensures d.size <= Rounded(d).size && Content(img, Rounded(d))[..d.size] == Content(s, d)
  {
    forall k | 0 <= k < d.size ensures FileByte(img, Rounded(d), k) == FileByte(s, d, k) {
      assert Ref(s, d, Slot(k / BSIZE)) != 0;
      assert Ref(img, Rounded(d), Slot(k / BSIZE)) == Ref(s, d, Slot(k / BSIZE));
    }
  }

  lemma {:induction false} FirstEntries(files: seq<HostFile>, n: nat)
    requires n <= |files| && forall k :: 0 <= k < |files| ==> |files[k].name| == DIRSIZ
    ensures var e := Entries(files, n);
      && e[0] == 1 && e[1] == 0 && e[2] == 46 && (forall j :: 3 <= j < 16 ==> e[j] == 0)
      && e[16] == 1 && e[17] == 0 && e[18] == 46 && e[19] == 46 && (forall j :: 20 <= j < 32 ==> e[j] == 0)
  {
    if n > 0 {
      FirstEntries(files, n - 1);
    }
  }

  lemma {:induction false} EntryAt(files: seq<HostFile>, n: nat, k: nat)
    requires k < n <= |files| && (forall j :: 0 <= j < |files| ==> |files[j].name| == DIRSIZ) && n + 2 < 0x1_0000
    ensures Entries(files, n)[16 * (k + 2)..16 * (k + 2) + 16] == [(2 + k) % 0x100, (2 + k) / 0x100] + files[k].name
  {
    var e, before := Entries(files, n), Entries(files, n - 1);
    if k < n - 1 {
      EntryAt(files, n - 1, k);
      assert e[16 * (k + 2)..16 * (k + 2) + 16] == before[16 * (k + 2)..16 * (k + 2) + 16];
    } else {
      assert e == before + Dirent(n + 1, files[n - 1].name);
      assert e[16 * (k + 2)..16 * (k + 2) + 16] == Dirent(n + 1, files[n - 1].name);
    }
  }

  /** The bitmap as balloc of Assignment3 writes it, in its place. */
  lemma BitsAt(sb: Super, before: Image, img: Image, n: nat)
    requires sb.Valid() && |img| == |before| == sb.size && 0 < n <= sb.size
    requires forall x :: 0 <= x < sb.size && sb.IsBitmap(x) ==> before[x] == ZERO_BLOCK
    requires forall x :: 0 <= x < sb.size && !(sb.bmapstart <= x <= sb.bmapstart + (n - 1) / BPB) ==>
      img[x] == before[x]
    requires forall j: nat :: j <= (n - 1) / BPB ==> Marks(img[sb.bmapstart + j], InBlock(n, j))
    ensures SameButBits(sb, before, img) && forall b :: 0 <= b < sb.size ==> (Bit(sb, img, b) <==> b < n)
  {
    hide Marks, Bit;
    NoMarks();
    forall j: nat | j < sb.BitmapBlocks() ensures Marks(img[sb.bmapstart + j], InBlock(n, j)) {
      if j > (n - 1) / BPB {
        assert img[sb.bmapstart + j] == ZERO_BLOCK;
      }
    }
    MarksAre(sb, img, n);
  }

  /** With the bits anywhere below the bitmap the image is no file system: the bit of the boot block is clear. */
  lemma MisplacedBitmap(sb: Super, before: Image, after: Image, first: nat, last: nat)
    requires sb.Valid() && |before| == |after| == sb.size && last < sb.bmapstart
    requires forall x :: 0 <= x < sb.size && sb.IsBitmap(x) ==> before[x] == ZERO_BLOCK
    requires forall x :: 0 <= x < sb.size && !(first <= x <= last) ==> after[x] == before[x]
    ensures !SoundDisk(sb, after)
  {
    NoBits(sb, after);
    if SoundDisk(sb, after) {
      BootMarked(sb, after);
    }
  }

  lemma BootMarked(sb: Super, img: Image)
    requires SoundDisk(sb, img)
    ensures Bit(sb, img, 0)
  {
    hide TestBit;
    var owner :| SoundWith(sb, img, owner);
    assert owner[0] == Meta;
  }
}
