/**
 The block allocator, the block map and file input/output of fs.c.

 `blocks` is the disk as bread shows it: the `current` side of the atomic disk that LogSystems proves of log and
 cache together. A store in a block stands for bread, the store, log_write and brelse (`Logs.Log.UpdateBlock`), and
 `Journaled` says that no store is without its log_write. `dinodes` are the inodes that the inode blocks hold.
 `ok == false` results are the panics of the source.
 */
module FileSystems {
  import opened Blocks
  import opened FsSpec
  import opened FsInodes
  import opened FsJournal
  import Sets

  /** A locked in-memory inode. */
  class Inode {
    const inum: nat
    var ftype: Short
    var major: Short
    var minor: Short
    var nlink: Short
    var size: nat
    var addrs: seq<nat>

    constructor (inum: nat, d: Dinode)
      ensures this.inum == inum && D() == d
    {
      this.inum := inum;
      ftype, major, minor, nlink, size, addrs := d.ftype, d.major, d.minor, d.nlink, d.size, d.addrs;
    }

    function D(): Dinode
      reads this
    {
      Dinode(ftype, major, minor, nlink, size, addrs)
    }
  }

  ghost function FreeSet(owner: seq<Owner>): set<nat> {
    set b: nat | b < |owner| && owner[b] == Free
  }

  lemma FreeInRange(owner: seq<Owner>)
    ensures forall b :: b in FreeSet(owner) ==> b < |owner|
  {
  }

  /** Everything that belongs to the inodes other than inum is as it was. */
  ghost predicate Kept(before: Image, after: Image, dinodes: Table, inum: nat) {
    && |after| == |before|
    && forall i :: 0 <= i < |dinodes| && i != inum ==> Untouched(before, after, dinodes[i])
  }

  lemma KeptTwice(a: Image, b: Image, c: Image, dinodes: Table, inum: nat)
    requires Kept(a, b, dinodes, inum) && Kept(b, c, dinodes, inum)
    ensures Kept(a, c, dinodes, inum)
  {
    hide Ref;
    forall i | 0 <= i < |dinodes| && i != inum ensures Untouched(a, c, dinodes[i]) {
      UntouchedTwice(a, b, c, dinodes[i]);
    }
  }

  lemma UntouchedTwice(a: Image, b: Image, c: Image, d: Dinode)
    requires Untouched(a, b, d) && Untouched(b, c, d)
    ensures Untouched(a, c, d)
  {
    hide Ref;
  }

  lemma ExtendsTwice(a: Image, d: Dinode, b: Image, d': Dinode, c: Image, d'': Dinode)
    requires Extends(a, d, b, d') && Extends(b, d', c, d'')
    ensures Extends(a, d, c, d'')
  {
    hide Ref;
  }

  lemma SelfUntouched(a: Image, d: Dinode)
    requires d.Valid()
    ensures Extends(a, d, a, d)
  {
  }

  lemma DirectLinked(sb: Super, b0: Image, b1: Image, inodes: Table, owner: seq<Owner>, i: nat, s: nat, addr: nat)
    requires Owned(sb, b1, inodes, owner) && i < |inodes| && Untouched(b0, b1, inodes[i])
    requires s <= NDIRECT && inodes[i].addrs[s] == 0 && 0 < addr < sb.size && owner[addr] == Held
    requires b1[addr] == ZERO_BLOCK
    ensures var d := inodes[i]; var d' := d.(addrs := d.addrs[s := addr]);
      && Owned(sb, b1, inodes[i := d'], owner[addr := By(i, s)])
      && Extends(b0, d, b1, d')
      && Ref(b1, d', s) == addr
      && forall t :: 0 <= t < NSLOTS && t != s ==> Ref(b1, d', t) == Ref(b0, d, t)
  {
    LinkDirect(sb, b1, inodes, owner, i, s, addr);
    var d := inodes[i];
    var d' := d.(addrs := d.addrs[s := addr]);
    assert Ref(b0, d, s) == 0;
    hide Ref;
    assert forall t :: 0 <= t < NSLOTS && t != s ==> Ref(b1, d', t) == Ref(b0, d, t);
  }

  lemma EntryLinked(sb: Super, b0: Image, b1: Image, inodes: Table, owner: seq<Owner>, i: nat, j: nat, addr: nat)
    requires Owned(sb, b1, inodes, owner) && i < |inodes| && Untouched(b0, b1, inodes[i])
    requires j < NINDIRECT && inodes[i].addrs[NDIRECT] != 0 && Ref(b0, inodes[i], NDIRECT + 1 + j) == 0
    requires 0 < addr < sb.size && owner[addr] == Held
    ensures var d, x := inodes[i], inodes[i].addrs[NDIRECT];
      && x < |b1| && var b2 := b1[x := PutWord(b1[x], j, addr)];
      && Owned(sb, b2, inodes, owner[addr := By(i, NDIRECT + 1 + j)])
      && Extends(b0, d, b2, d)
      && Ref(b2, d, NDIRECT + 1 + j) == addr
      && forall t :: 0 <= t < NSLOTS && t != NDIRECT + 1 + j ==> Ref(b2, d, t) == Ref(b0, d, t)
  {
    var d, x := inodes[i], inodes[i].addrs[NDIRECT];
    LinkIndirect(sb, b1, inodes, owner, i, j, addr);
    var b2 := b1[x := PutWord(b1[x], j, addr)];
    forall s {:trigger Ref(b2, d, s)} {:trigger Ref(b0, d, s)} | 0 <= s < NSLOTS && Ref(b0, d, s) != 0
      ensures Ref(b2, d, s) == Ref(b0, d, s)
      ensures s != NDIRECT && Ref(b0, d, s) < |b0| ==> b2[Ref(b0, d, s)] == b0[Ref(b0, d, s)]
    {
      assert Ref(b1, d, s) == Ref(b0, d, s) && owner[Ref(b1, d, s)] == By(i, s);
      assert owner[x] == By(i, NDIRECT);
    }
  }

  lemma OneBlock(b: Image, d: Dinode, bn: nat)
    requires |d.addrs| == NDIRECT + 1
    ensures bn < MAXFILE ==>
      Needed(b, d, bn, bn + 1) == (if Ref(b, d, Slot(bn)) == 0 then 1 else 0) +
                                  (if bn >= NDIRECT && d.addrs[NDIRECT] == 0 then 1 else 0)
  {
    if bn < MAXFILE {
      assert Holes(b, d, bn, bn) == 0;
    }
  }

  /** Where bmap looks for the number of file block bn. */
  lemma RefsOf(b: Image, d: Dinode, bn: nat)
    requires |d.addrs| == NDIRECT + 1
    ensures bn < NDIRECT ==> Ref(b, d, Slot(bn)) == d.addrs[bn]
    ensures NDIRECT <= bn < MAXFILE && d.addrs[NDIRECT] == 0 ==> Ref(b, d, Slot(bn)) == 0
    ensures Ref(b, d, NDIRECT) == d.addrs[NDIRECT]
  {
  }

  lemma MappedNeedsNothing(b: Image, d: Dinode, bn: nat)
    requires |d.addrs| == NDIRECT + 1 && bn < MAXFILE && Ref(b, d, Slot(bn)) != 0
    ensures Needed(b, d, bn, bn + 1) == 0
  {
    OneBlock(b, d, bn);
  }

  /** What bmap does to the references of the inode when it maps file block bn. */
  lemma OneMapped(b0: Image, d0: Dinode, b1: Image, d1: Dinode, bn: nat)
    requires |d0.addrs| == |d1.addrs| == NDIRECT + 1 && bn < MAXFILE && Ref(b1, d1, Slot(bn)) != 0
    requires forall t :: 0 <= t < NSLOTS && t != Slot(bn) && t != NDIRECT ==> Ref(b1, d1, t) == Ref(b0, d0, t)
    requires bn < NDIRECT ==> d1.addrs[NDIRECT] == d0.addrs[NDIRECT]
    requires Extends(b0, d0, b1, d1)
    ensures Grew(b0, d0, b1, d1, bn, bn + 1)
  {
    RefsOf(b0, d0, bn);
    RefsOf(b1, d1, bn);
    hide Ref;
  }

  lemma AllocateOne(owner: seq<Owner>, b: nat)
    requires b < |owner| && Sets.IsLeast(FreeSet(owner), b)
    ensures FreeSet(owner[b := Held]) == Sets.Rest(FreeSet(owner), 1)
    ensures Sets.Lowest(FreeSet(owner), 1) == {b}
  {
    Sets.LowestOne(FreeSet(owner), b);
  }

  /** What allocating a block logs if there was none: the bitmap block of the lowest free block, and that block. */
  ghost function Allocating(sb: Super, free: set<nat>, had: nat, addr: nat): set<nat> {
    if had != 0 then {} else Bitmaps(sb, free, 1) + {addr}
  }

  lemma AllocatingLogs(sb: Super, free: set<nat>, addr: nat)
    requires Sets.Lowest(free, 1) == {addr}
    ensures Allocating(sb, free, 0, addr) == {sb.BBlock(addr), addr}
  {
  }

  /** The free blocks left after a block is allocated if there was none. */
  ghost function Left(free: set<nat>, had: nat): set<nat> {
    if had != 0 then free else Sets.Rest(free, 1)
  }

  lemma LeftSize(free: set<nat>, had: nat)
    requires had != 0 || |free| >= 1
    ensures |Left(free, had)| == |free| - if had != 0 then 0 else 1
  {
    if had == 0 {
      Sets.LowestSize(free, 1);
    }
  }

  /** What bmap logs when it maps file block bn to addr. */
  ghost function MappingLogs(sb: Super, free: set<nat>, b: Image, d: Dinode, bn: nat, indirect: nat, addr: nat)
    : set<nat>
    requires |d.addrs| == NDIRECT + 1 && bn < MAXFILE
  {
    if Ref(b, d, Slot(bn)) != 0 then {}
    else Bitmaps(sb, free, Needed(b, d, bn, bn + 1)) + {addr} + if bn < NDIRECT then {} else {indirect}
  }

  /** bmap on a direct block. */
  lemma MappingDirect(sb: Super, free: set<nat>, b: Image, d: Dinode, bn: nat, indirect: nat, addr: nat)
    requires |d.addrs| == NDIRECT + 1 && bn < NDIRECT
    ensures MappingLogs(sb, free, b, d, bn, indirect, addr) == Allocating(sb, free, d.addrs[bn], addr)
    ensures Left(free, d.addrs[bn]) == Sets.Rest(free, Needed(b, d, bn, bn + 1))
  {
    RefsOf(b, d, bn);
    OneBlock(b, d, bn);
    hide Ref, Needed, Bitmaps;
  }

  /** bmap on an entry of the indirect block, which may have to be allocated first. */
  lemma MappingIndirect(sb: Super, free: set<nat>, b: Image, d: Dinode, bn: nat, x: nat, addr: nat)
    requires |d.addrs| == NDIRECT + 1 && NDIRECT <= bn < MAXFILE
    ensures
      var rest, had := Left(free, d.addrs[NDIRECT]), Ref(b, d, Slot(bn));
      && MappingLogs(sb, free, b, d, bn, x, addr) ==
         Allocating(sb, free, d.addrs[NDIRECT], x) +
         (if had != 0 then {} else Allocating(sb, rest, had, addr) + {x})
      && Left(rest, had) == Sets.Rest(free, Needed(b, d, bn, bn + 1))
  {
    RefsOf(b, d, bn);
    OneBlock(b, d, bn);
    BitmapsTwice(sb, free, 1, 1);
    hide Ref, Needed, Bitmaps;
  }

  /** Once bmap has found the block of file block bn, storing bytes there logs it. */
  lemma LoggedByOne(sb: Super, free: set<nat>, b0: Image, d0: Dinode, b1: Image, d1: Dinode, bn: nat)
    requires |d0.addrs| == |d1.addrs| == NDIRECT + 1 && bn < MAXFILE
    ensures var addr := Ref(b1, d1, Slot(bn));
      MappingLogs(sb, free, b0, d0, bn, d1.addrs[NDIRECT], addr) + {addr} ==
      LoggedBy(sb, free, b0, d0, b1, d1, bn, bn + 1)
  {
    OneBlock(b0, d0, bn);
    RefsOf(b0, d0, bn);
    hide Ref, Needed;
    assert DataBlocks(b1, d1, bn, bn + 1) == {Ref(b1, d1, Slot(bn))};
    assert EntryHoles(b0, d0, bn, bn + 1) <==> NDIRECT <= bn && Ref(b0, d0, Slot(bn)) == 0;
  }

  class FileSystem {
    const sb: Super
    var blocks: Image
    ghost var dinodes: Table
    ghost var owner: seq<Owner>
    /** The argument of every log_write since the transaction began. */
    ghost var calls: multiset<nat>
    /** The blocks that each finished transaction logged. */
    ghost var ops: seq<set<nat>>

    constructor (sb: Super, blocks: Image, ghost dinodes: Table, ghost owner: seq<Owner>)
      ensures this.sb == sb && this.blocks == blocks && this.dinodes == dinodes && this.owner == owner
      ensures calls == multiset{} && ops == []
    {
      this.sb, this.blocks, this.dinodes, this.owner := sb, blocks, dinodes, owner;
      calls, ops := multiset{}, [];
    }

    /** begin_op: nothing is logged yet. */
    method StartOp()
      modifies this`calls
      ensures calls == multiset{}
    {
      calls := multiset{};
    }

    /** end_op: the transaction logged what log_write was called for since begin_op. */
    method EndOp()
      modifies this`ops
      ensures ops == old(ops) + [Since(multiset{}, calls)]
    {
      ops := ops + [Since(multiset{}, calls)];
    }

    /** Inodes as the running operation sees them: ip may be ahead of the disk. */
    ghost function Inodes(ip: Inode): Table
      reads this`dinodes, ip
      requires ip.inum < |dinodes|
    {
      dinodes[ip.inum := ip.D()]
    }

    /** Ownership, in the middle of an operation on ip. */
    ghost predicate Inv(ip: Inode)
      reads this`blocks, this`dinodes, this`owner, ip
    {
      && ip.inum < |dinodes| && ip.D().Valid()
      && sb.Valid() && |blocks| == |owner| == sb.size
      && Stored(sb, blocks, dinodes)
      && Owned(sb, blocks, Inodes(ip), owner)
      && forall i :: 0 <= i < |dinodes| && i != ip.inum ==> Mapped(blocks, dinodes[i])
    }

    /** Ownership and files between two operations on ip. */
    ghost predicate Quiet(ip: Inode)
      reads this`blocks, this`dinodes, this`owner, ip
    {
      Inv(ip) && ip.D().Valid() && NoneHeld(owner) && dinodes[ip.inum] == ip.D() && Mapped(blocks, ip.D())
    }

    /** The bit test of balloc is the bitmap bit of block b + bi. */
    lemma BitAt(b: nat, bi: nat)
      requires sb.Valid() && |blocks| == sb.size && b % BPB == 0 && bi < BPB && b + bi < sb.size
      ensures sb.BBlock(b) < |blocks|
      ensures TestBit(blocks[sb.BBlock(b)].at[bi / 8], bi % 8) == Bit(sb, blocks, b + bi)
    {
      hide TestBit;
      WithinBitmapBlock(b, bi);
    }

    /** balloc: the lowest free block, marked in use and zeroed; out of blocks (ok == false) iff none is free. */
    method Balloc(ghost ip: Inode) returns (ok: bool, r: nat)
      requires Inv(ip)
      modifies this`blocks, this`owner, this`calls
      ensures Inv(ip)
      ensures ok <==> old(FreeSet(owner)) != {}
      ensures !ok ==> blocks == old(blocks) && owner == old(owner) && calls == old(calls)
      ensures ok ==> 0 < r < sb.size && old(owner[r]) == Free && owner == old(owner)[r := Held]
      ensures ok ==> blocks == PutBit(sb, old(blocks), r, true)[r := ZERO_BLOCK]
      ensures ok ==> Sets.IsLeast(old(FreeSet(owner)), r)
      ensures ok ==> calls == old(calls) + multiset{sb.BBlock(r), r}
      ensures Since(old(calls), calls) == if ok then {sb.BBlock(r), r} else {}
      ensures Journaled(old(blocks), old(calls), blocks, calls)
      ensures Kept(old(blocks), blocks, dinodes, ip.inum) && Untouched(old(blocks), blocks, ip.D())
    {
      hide Owned, Journaled, Untouched, Kept, PutBit, Since, Mapped, Super.IsBitmap, Super.BBlock, Stored;
      BitsOf(ip);
      JournaledNothing(blocks, calls);
      KeptSelf(ip);
      UntouchedSelf(blocks, ip.D());
      ok, r := FindFree();
      if ok {
        FreeIsData(ip, r);
        PutBitOwned(sb, blocks, Inodes(ip), owner, r, true);
        BitUntouched(ip, r, true);
        blocks := PutBit(sb, blocks, r, true);
        owner := owner[r := Held];
        calls := calls + multiset{sb.BBlock(r)};
        ghost var marked := blocks;
        JournaledAlloc(sb, old(blocks), old(calls), r);
        Bzero(r, ip);
        KeptTwice(old(blocks), marked, blocks, dinodes, ip.inum);
        UntouchedTwice(old(blocks), marked, blocks, ip.D());
      }
    }

    lemma BitsOf(ip: Inode)
      requires Inv(ip)
      ensures BitsMatch(sb, blocks, owner)
    {
    }

    lemma FreeIsData(ip: Inode, r: nat)
      requires Inv(ip) && r < sb.size && owner[r] == Free
      ensures 0 < sb.nmeta <= r
    {
    }

    /** The search of balloc, bitmap block by bitmap block. */
    method FindFree() returns (found: bool, r: nat)
      requires sb.Valid() && |blocks| == sb.size && BitsMatch(sb, blocks, owner)
      ensures found <==> FreeSet(owner) != {}
      ensures found ==> r < sb.size && Sets.IsLeast(FreeSet(owner), r)
    {
      var b := 0;
      while b < sb.size
        invariant b % BPB == 0
        invariant forall c :: 0 <= c < b && c < sb.size ==> Bit(sb, blocks, c)
      {
        var bi := 0;
        while bi < BPB && b + bi < sb.size
          invariant bi <= BPB
          invariant forall c :: 0 <= c < b + bi && c < sb.size ==> Bit(sb, blocks, c)
        {
          BitAt(b, bi);
          if !TestBit(blocks[sb.BBlock(b)].at[bi / 8], bi % 8) {
            assert !Bit(sb, blocks, b + bi);
            assert Sets.IsLeast(FreeSet(owner), b + bi);
            return true, b + bi;
          }
          bi := bi + 1;
        }
        b := b + BPB;
      }
      return false, 0;
    }

    /** A write to a block that belongs to no other inode; to none at all, if it is not this inode's either. */
    lemma WriteKept(ip: Inode, x: nat, data: Block)
      requires Inv(ip) && 0 < x < sb.size && (owner[x].By? ==> owner[x].i == ip.inum)
      requires owner[x] == Meta ==> sb.IsBitmap(x)
      ensures Kept(blocks, blocks[x := data], dinodes, ip.inum) && Stored(sb, blocks[x := data], dinodes)
      ensures !owner[x].By? ==> Untouched(blocks, blocks[x := data], ip.D())
      ensures forall i :: 0 <= i < |dinodes| && i != ip.inum ==> Mapped(blocks[x := data], dinodes[i])
    {
      assert !sb.IsInodeBlock(x);
      StoredElsewhere(sb, blocks, dinodes, x, data);
      hide Stored;
      forall i | 0 <= i < |dinodes| && i != ip.inum
        ensures Untouched(blocks, blocks[x := data], dinodes[i]) && Mapped(blocks[x := data], dinodes[i])
      {
        assert Inodes(ip)[i] == dinodes[i];
        OthersUntouched(sb, blocks, Inodes(ip), owner, x, data, i);
        UntouchedContent(blocks, blocks[x := data], dinodes[i]);
      }
      if !owner[x].By? {
        OthersUntouched(sb, blocks, Inodes(ip), owner, x, data, ip.inum);
      }
    }

    lemma BitUntouched(ip: Inode, b: nat, on: bool)
      requires Inv(ip) && b < sb.size
      ensures Kept(blocks, PutBit(sb, blocks, b, on), dinodes, ip.inum)
      ensures Untouched(blocks, PutBit(sb, blocks, b, on), ip.D()) && Stored(sb, PutBit(sb, blocks, b, on), dinodes)
      ensures forall i :: 0 <= i < |dinodes| && i != ip.inum ==> Mapped(PutBit(sb, blocks, b, on), dinodes[i])
    {
      hide Stored;
      var bb := sb.BBlock(b);
      sb.BBlockIsBitmap(b);
      assert owner[bb] == Meta;
      assert PutBit(sb, blocks, b, on) == blocks[bb := PutBit(sb, blocks, b, on)[bb]];
      WriteKept(ip, bb, PutBit(sb, blocks, b, on)[bb]);
    }

    /** bzero on a freshly allocated block. */
    method Bzero(r: nat, ghost ip: Inode)
      requires Inv(ip) && 0 < r < sb.size && owner[r] == Held
      modifies this`blocks, this`calls
      ensures Inv(ip) && blocks == old(blocks)[r := ZERO_BLOCK] && calls == old(calls) + multiset{r}
      ensures Kept(old(blocks), blocks, dinodes, ip.inum) && Untouched(old(blocks), blocks, ip.D())
    {
      DataWriteOwned(sb, blocks, Inodes(ip), owner, r, ZERO_BLOCK);
      WriteKept(ip, r, ZERO_BLOCK);
      blocks := blocks[r := ZERO_BLOCK];
      calls := calls + multiset{r};
    }

    // ----- the block map -----

    /** Allocate a block and store its number in ip->addrs[s]. */
    method AllocDirect(ip: Inode, s: nat) returns (ok: bool, addr: nat)
      requires Inv(ip) && NoneHeld(owner) && s <= NDIRECT && ip.addrs[s] == 0
      modifies this`blocks, this`owner, this`calls, ip`addrs
      ensures Inv(ip) && NoneHeld(owner) && Kept(old(blocks), blocks, dinodes, ip.inum)
      ensures Extends(old(blocks), old(ip.D()), blocks, ip.D())
      ensures ok <==> |old(FreeSet(owner))| >= 1
      ensures ok ==> 0 < addr < |blocks| && ip.addrs == old(ip.addrs)[s := addr] && blocks[addr] == ZERO_BLOCK
      ensures ok ==> FreeSet(owner) == Sets.Rest(old(FreeSet(owner)), 1)
      ensures ok ==> forall t :: 0 <= t < NSLOTS && t != s ==>
        Ref(blocks, ip.D(), t) == Ref(old(blocks), old(ip.D()), t)
      ensures ok ==> Since(old(calls), calls) == Allocating(sb, old(FreeSet(owner)), 0, addr)
      ensures Journaled(old(blocks), old(calls), blocks, calls)
    {
      hide Owned, Ref, PutBit, Untouched, Journaled, Kept, Extends, Since, Mapped, Stored, Super.BBlock;
      ghost var d, o := ip.D(), owner;
      ok, addr := Balloc(ip);
      SelfUntouched(old(blocks), d);
      if ok {
        AllocateOne(o, addr);
        AllocatingLogs(sb, FreeSet(o), addr);
        DirectLinked(sb, old(blocks), blocks, Inodes(ip), owner, ip.inum, s, addr);
        ghost var before := Inodes(ip);
        assert before[ip.inum] == d;
        ip.addrs := ip.addrs[s := addr];
        owner := owner[addr := By(ip.inum, s)];
        assert ip.D() == d.(addrs := d.addrs[s := addr]);
        assert Inodes(ip) == before[ip.inum := ip.D()];
        assert FreeSet(owner) == FreeSet(o[addr := Held]);
      }
    }

    /** Allocate a block and store its number in entry j of the indirect block. */
    method AllocEntry(ip: Inode, j: nat) returns (ok: bool, addr: nat)
      requires Inv(ip) && NoneHeld(owner) && j < NINDIRECT && ip.addrs[NDIRECT] != 0
      requires Ref(blocks, ip.D(), NDIRECT + 1 + j) == 0
      modifies this`blocks, this`owner, this`calls
      ensures Inv(ip) && NoneHeld(owner) && Kept(old(blocks), blocks, dinodes, ip.inum)
      ensures Extends(old(blocks), ip.D(), blocks, ip.D())
      ensures ok <==> |old(FreeSet(owner))| >= 1
      ensures ok ==> Ref(blocks, ip.D(), NDIRECT + 1 + j) == addr != 0
      ensures ok ==> FreeSet(owner) == Sets.Rest(old(FreeSet(owner)), 1)
      ensures ok ==> forall t :: 0 <= t < NSLOTS && t != NDIRECT + 1 + j ==>
        Ref(blocks, ip.D(), t) == Ref(old(blocks), ip.D(), t)
      ensures ok ==>
        Since(old(calls), calls) == Allocating(sb, old(FreeSet(owner)), 0, addr) + {ip.addrs[NDIRECT]}
      ensures Journaled(old(blocks), old(calls), blocks, calls)
    {
      hide Owned, Ref, PutBit, Untouched, Journaled, Kept, Extends, Since, Mapped, Stored, Super.BBlock;
      ghost var d, o := ip.D(), owner;
      ok, addr := Balloc(ip);
      SelfUntouched(old(blocks), d);
      if ok {
        AllocateOne(o, addr);
        AllocatingLogs(sb, FreeSet(o), addr);
        ghost var mid, c1 := blocks, calls;
        StoreEntry(ip, j, addr, old(blocks));
        KeptTwice(old(blocks), mid, blocks, dinodes, ip.inum);
        JournaledTwice(old(blocks), old(calls), mid, c1, blocks, calls);
        assert FreeSet(owner) == FreeSet(o[addr := Held]);
      }
    }

    /** Store the number of a fresh block in entry j of the indirect block and log that. */
    method StoreEntry(ip: Inode, j: nat, addr: nat, ghost b0: Image)
      requires Inv(ip) && j < NINDIRECT && ip.addrs[NDIRECT] != 0 && Ref(b0, ip.D(), NDIRECT + 1 + j) == 0
      requires Untouched(b0, blocks, ip.D()) && 0 < addr < sb.size && owner[addr] == Held
      modifies this`blocks, this`owner, this`calls
      ensures Inv(ip) && owner == old(owner)[addr := By(ip.inum, NDIRECT + 1 + j)]
      ensures Kept(old(blocks), blocks, dinodes, ip.inum) && Extends(b0, ip.D(), blocks, ip.D())
      ensures forall t :: 0 <= t < NSLOTS ==>
        Ref(blocks, ip.D(), t) == if t == NDIRECT + 1 + j then addr else Ref(b0, ip.D(), t)
      ensures Since(old(calls), calls) == {ip.addrs[NDIRECT]}
      ensures Journaled(old(blocks), old(calls), blocks, calls)
    {
      hide Owned, Ref, Untouched, Journaled, Kept, Extends, Since, Mapped, Stored;
      var x := ip.addrs[NDIRECT];
      assert Inodes(ip)[ip.inum] == ip.D();
      EntryLinked(sb, b0, blocks, Inodes(ip), owner, ip.inum, j, addr);
      EntryKept(ip, x, PutWord(blocks[x], j, addr));
      JournaledWrite(blocks, calls, x, PutWord(blocks[x], j, addr));
      blocks := blocks[x := PutWord(blocks[x], j, addr)];
      owner := owner[addr := By(ip.inum, NDIRECT + 1 + j)];
      calls := calls + multiset{x};
    }

    lemma EntryKept(ip: Inode, x: nat, data: Block)
      requires Inv(ip) && x == ip.addrs[NDIRECT] != 0
      ensures 0 < x < |blocks| && Kept(blocks, blocks[x := data], dinodes, ip.inum)
      ensures Stored(sb, blocks[x := data], dinodes)
      ensures forall i :: 0 <= i < |dinodes| && i != ip.inum ==> Mapped(blocks[x := data], dinodes[i])
    {
      assert Ref(blocks, Inodes(ip)[ip.inum], NDIRECT) == x;
      WriteKept(ip, x, data);
    }

    /**
     bmap: the disk block of file block bn, allocated if there is none. A mapped block is found
     without changing anything; a new one extends the inode and touches no other. It fails exactly
     when bn is out of range or too few blocks are free. New blocks are the lowest free ones.
     */
    method Bmap(ip: Inode, bn: nat) returns (ok: bool, addr: nat)
      requires Inv(ip) && NoneHeld(owner)
      modifies this`blocks, this`owner, this`calls, ip`addrs
      ensures Inv(ip) && NoneHeld(owner) && Kept(old(blocks), blocks, dinodes, ip.inum)
      ensures Extends(old(blocks), old(ip.D()), blocks, ip.D())
      ensures ok <==> bn < MAXFILE && old(Needed(blocks, ip.D(), bn, bn + 1)) <= |old(FreeSet(owner))|
      ensures ok ==> addr == Ref(blocks, ip.D(), Slot(bn)) != 0
      ensures ok ==> Grew(old(blocks), old(ip.D()), blocks, ip.D(), bn, bn + 1)
      ensures ok ==> FreeSet(owner) == Sets.Rest(old(FreeSet(owner)), old(Needed(blocks, ip.D(), bn, bn + 1)))
      ensures ok && old(Needed(blocks, ip.D(), bn, bn + 1)) == 0 ==>
        blocks == old(blocks) && owner == old(owner) && ip.D() == old(ip.D()) && calls == old(calls)
      ensures ok ==>
        Since(old(calls), calls) ==
        MappingLogs(sb, old(FreeSet(owner)), old(blocks), old(ip.D()), bn, ip.addrs[NDIRECT], addr)
      ensures Journaled(old(blocks), old(calls), blocks, calls)
    {
      hide Inv, Owned, Untouched, Journaled, Grew, Extends, Kept, FreeSet, Mapped, Needed, Ref;
      hide Left, Allocating, MappingLogs, Since;
      ghost var free := FreeSet(owner);
      ValidInode(ip);
      OneBlock(blocks, ip.D(), bn);
      RefsOf(blocks, ip.D(), bn);
      if bn < NDIRECT {
        ok, addr := MapDirect(ip, bn);
        if ok {
          MappingDirect(sb, free, old(blocks), old(ip.D()), bn, ip.addrs[NDIRECT], addr);
        }
      } else if bn - NDIRECT < NINDIRECT {
        var x;
        ok, x := MapDirect(ip, NDIRECT);
        if !ok {
          return false, 0;
        }
        LeftSize(free, old(ip.addrs[NDIRECT]));
        ghost var b1, d1, c1 := blocks, ip.D(), calls;
        ok, addr := MapEntry(ip, bn - NDIRECT, x);
        ExtendsTwice(old(blocks), old(ip.D()), b1, d1, blocks, ip.D());
        KeptTwice(old(blocks), b1, blocks, dinodes, ip.inum);
        JournaledTwice(old(blocks), old(calls), b1, c1, blocks, calls);
        MappingIndirect(sb, free, old(blocks), old(ip.D()), bn, x, addr);
      } else {
        SelfUntouched(blocks, ip.D());
        KeptSelf(ip);
        JournaledNothing(blocks, calls);
        return false, 0;
      }
      if ok {
        RefsOf(blocks, ip.D(), bn);
        OneMapped(old(blocks), old(ip.D()), blocks, ip.D(), bn);
      }
    }

    /** The block whose number is in addrs[s], a direct block or the indirect block, allocated if there is none. */
    method MapDirect(ip: Inode, s: nat) returns (ok: bool, addr: nat)
      requires Inv(ip) && NoneHeld(owner) && s <= NDIRECT
      modifies this`blocks, this`owner, this`calls, ip`addrs
      ensures Inv(ip) && NoneHeld(owner) && Kept(old(blocks), blocks, dinodes, ip.inum)
      ensures Extends(old(blocks), old(ip.D()), blocks, ip.D())
      ensures ok <==> old(ip.addrs[s]) != 0 || |old(FreeSet(owner))| >= 1
      ensures ok ==> addr != 0 && ip.addrs == old(ip.addrs)[s := addr]
      ensures ok ==> forall t :: 0 <= t < NSLOTS && t != s ==>
        Ref(blocks, ip.D(), t) == Ref(old(blocks), old(ip.D()), t)
      ensures old(ip.addrs[s]) != 0 ==>
        blocks == old(blocks) && owner == old(owner) && calls == old(calls) && ip.D() == old(ip.D())
      ensures ok ==> FreeSet(owner) == Left(old(FreeSet(owner)), old(ip.addrs[s]))
      ensures ok ==> Since(old(calls), calls) == Allocating(sb, old(FreeSet(owner)), old(ip.addrs[s]), addr)
      ensures Journaled(old(blocks), old(calls), blocks, calls)
    {
      hide Owned, Untouched, Journaled, Extends, Kept, FreeSet, Mapped, Bitmaps, Since, Stored;
      SelfUntouched(blocks, ip.D());
      KeptSelf(ip);
      JournaledNothing(blocks, calls);
      ok, addr := true, ip.addrs[s];
      if addr == 0 {
        ok, addr := AllocDirect(ip, s);
      }
    }

    lemma OwnedNow(ip: Inode)
      requires Inv(ip)
      ensures ip.inum < |dinodes| && Owned(sb, blocks, Inodes(ip), owner) && Inodes(ip)[ip.inum] == ip.D()
    {
    }

    lemma ValidInode(ip: Inode)
      requires Inv(ip)
      ensures ip.D().Valid()
    {
    }

    /** The end of bmap: entry j of the indirect block x, allocated if it is empty. */
    method MapEntry(ip: Inode, j: nat, x: nat) returns (ok: bool, addr: nat)
      requires Inv(ip) && NoneHeld(owner) && j < NINDIRECT && x == ip.addrs[NDIRECT] != 0
      modifies this`blocks, this`owner, this`calls
      ensures Inv(ip) && NoneHeld(owner) && Kept(old(blocks), blocks, dinodes, ip.inum)
      ensures Extends(old(blocks), ip.D(), blocks, ip.D())
      ensures ok <==> old(Ref(blocks, ip.D(), NDIRECT + 1 + j)) != 0 || |old(FreeSet(owner))| >= 1
      ensures ok ==> addr == Ref(blocks, ip.D(), NDIRECT + 1 + j) != 0
      ensures ok ==> forall t :: 0 <= t < NSLOTS && t != NDIRECT + 1 + j ==>
        Ref(blocks, ip.D(), t) == Ref(old(blocks), ip.D(), t)
      ensures old(Ref(blocks, ip.D(), NDIRECT + 1 + j)) != 0 ==>
        blocks == old(blocks) && owner == old(owner) && calls == old(calls)
      ensures ok ==> FreeSet(owner) == Left(old(FreeSet(owner)), old(Ref(blocks, ip.D(), NDIRECT + 1 + j)))
      ensures ok ==>
        Since(old(calls), calls) ==
        var had := old(Ref(blocks, ip.D(), NDIRECT + 1 + j));
        if had != 0 then {} else Allocating(sb, old(FreeSet(owner)), had, addr) + {x}
      ensures Journaled(old(blocks), old(calls), blocks, calls)
    {
      hide Owned, Untouched, Journaled, Grew, Extends, Kept, FreeSet, Mapped, Bitmaps, Since, Stored;
      SelfUntouched(blocks, ip.D());
      KeptSelf(ip);
      JournaledNothing(blocks, calls);
      IndirectInRange(ip);
      ok, addr := true, GetWord(blocks[x], j);
      if addr == 0 {
        ok, addr := AllocEntry(ip, j);
      }
    }

    lemma KeptSelf(ip: Inode)
      requires Inv(ip)
      ensures Kept(blocks, blocks, dinodes, ip.inum)
    {
      forall i | 0 <= i < |dinodes| && i != ip.inum ensures Untouched(blocks, blocks, dinodes[i]) {
        assert Inodes(ip)[i] == dinodes[i];
      }
    }

    lemma IndirectInRange(ip: Inode)
      requires Inv(ip) && ip.addrs[NDIRECT] != 0
      ensures ip.addrs[NDIRECT] < |blocks|
    {
      assert Ref(blocks, Inodes(ip)[ip.inum], NDIRECT) == ip.addrs[NDIRECT];
    }

    /** Ownership and files when no operation is running. */
    ghost predicate Sound()
      reads this`blocks, this`dinodes, this`owner
    {
      && Stored(sb, blocks, dinodes) && Owned(sb, blocks, dinodes, owner) && NoneHeld(owner)
      && forall i :: 0 <= i < |dinodes| ==> Mapped(blocks, dinodes[i])
    }

    /** Between operations the whole file system is sound, and an inode is in memory as it is on disk. */
    lemma QuietIsSound(ip: Inode)
      ensures Quiet(ip) <==> Sound() && ip.inum < |dinodes| && ip.D() == dinodes[ip.inum]
    {
      if ip.inum < |dinodes| && ip.D() == dinodes[ip.inum] {
        assert Inodes(ip) == dinodes;
      }
    }

    /** ilock: read an inode from its block; ok == false is the panic "ilock: no type", for a free inode. */
    method Ilock(inum: nat) returns (ok: bool, ip: Inode)
      requires Sound() && inum < |dinodes|
      ensures fresh(ip) && ip.inum == inum && Quiet(ip)
      ensures ok <==> dinodes[inum].ftype != 0
      ensures
        var d := dinodes[inum];
        && ip.ftype == d.ftype && ip.major == d.major && ip.minor == d.minor && ip.nlink == d.nlink
        && ip.size == d.size && ip.addrs == d.addrs
    {
      assert InodeAt(sb, blocks, inum) == dinodes[inum];
      ip := new Inode(inum, GetInode(blocks[sb.IBlock(inum)], inum % IPB));
      QuietIsSound(ip);
      ok := ip.ftype != 0;
    }

    /** iupdate: copy the in-memory inode to its place in its inode block; the other inodes there stay. */
    method Iupdate(ip: Inode)
      requires Stored(sb, blocks, dinodes) && ip.inum < |dinodes| && ip.D().Fits()
      modifies this`blocks, this`dinodes, this`calls
      ensures Stored(sb, blocks, dinodes) && dinodes == old(dinodes)[ip.inum := ip.D()]
      ensures
        var d := dinodes[ip.inum];
        && d.ftype == ip.ftype && d.major == ip.major && d.minor == ip.minor && d.nlink == ip.nlink
        && d.size == ip.size && d.addrs == ip.addrs
      ensures sb.IsInodeBlock(sb.IBlock(ip.inum)) && sb.IBlock(ip.inum) < |blocks| == |old(blocks)|
      ensures blocks == old(blocks)[sb.IBlock(ip.inum) := blocks[sb.IBlock(ip.inum)]]
      ensures calls == old(calls) + multiset{sb.IBlock(ip.inum)}
      ensures Journaled(old(blocks), old(calls), blocks, calls) && Since(old(calls), calls) == {sb.IBlock(ip.inum)}
    {
      hide PutInode;
      var x := sb.IBlock(ip.inum);
      sb.IBlockIsInode(ip.inum);
      StoredUpdate(sb, blocks, dinodes, ip.inum, ip.D());
      JournaledWrite(blocks, calls, x, PutInode(blocks[x], ip.inum % IPB, ip.D()));
      hide Stored, Journaled;
      blocks := blocks[x := PutInode(blocks[x], ip.inum % IPB, ip.D())];
      dinodes := dinodes[ip.inum := ip.D()];
      calls := calls + multiset{x};
    }

    /** The other inodes and their contents are unchanged. */
    ghost predicate OthersSame(ip: Inode, before: Image, dinodes0: Table)
      reads this`blocks, this`dinodes, ip
    {
      && |dinodes| == |dinodes0| && ip.inum < |dinodes|
      && forall i :: 0 <= i < |dinodes| && i != ip.inum ==>
           && dinodes[i] == dinodes0[i] && dinodes[i].Valid()
           && Content(blocks, dinodes[i]) == Content(before, dinodes[i])
    }

    /** One iteration of writei's loop. */
    method StoreChunk(ip: Inode, src: seq<Byte>, off: nat, tot: nat, ghost b0: Image, ghost d0: Dinode)
      returns (ok: bool, m: nat)
      requires Inv(ip) && NoneHeld(owner) && off + |src| <= MAXFILE * BSIZE
      requires Wrote(b0, d0, blocks, ip.D(), off, src, tot) && tot < |src|
      requires Kept(b0, blocks, dinodes, ip.inum)
      modifies this`blocks, this`owner, this`calls, ip`addrs
      ensures Inv(ip) && NoneHeld(owner) && Kept(b0, blocks, dinodes, ip.inum)
      ensures ok ==> Chunk(off + tot, |src| - tot, m) && 0 < m <= |src| - tot
      ensures ok ==> Wrote(b0, d0, blocks, ip.D(), off, src, tot + m)
      ensures
        var bn := (off + tot) / BSIZE;
        && bn < MAXFILE
        && (ok <==> old(Needed(blocks, ip.D(), bn, bn + 1)) <= |old(FreeSet(owner))|)
        && (ok ==>
              Grown(sb, old(FreeSet(owner)), old(blocks), old(ip.D()), old(calls), FreeSet(owner), blocks, ip.D(),
                calls, bn, bn + 1))
      ensures Journaled(old(blocks), old(calls), blocks, calls)
    {
      hide Inv, Owned, Wrote, Untouched, Kept, FreeSet, Mapped, Journaled, Grew, Ref, Needed;
      hide MappingLogs, Grown, Extends, Since, Chunk, NoneHeld;
      ValidInode(ip);
      ghost var b1, d1 := blocks, ip.D();
      var bn := (off + tot) / BSIZE;
      m := 0;
      if Ref(blocks, ip.D(), Slot(bn)) != 0 {
        MappedNeedsNothing(blocks, ip.D(), bn);
      }
      var addr;
      ok, addr := Bmap(ip, bn);
      KeptTwice(b0, b1, blocks, dinodes, ip.inum);
      if ok {
        m := StoreAt(ip, src, off, tot, bn, addr, b0, d0, b1, d1, old(calls), old(FreeSet(owner)));
      }
    }

    /** The bytes of src that belong into the block that bmap found at addr. */
    method StoreAt(ip: Inode, src: seq<Byte>, off: nat, tot: nat, bn: nat, addr: nat, ghost b0: Image,
                   ghost d0: Dinode, ghost b1: Image, ghost d1: Dinode, ghost c1: multiset<nat>,
                   ghost free1: set<nat>)
      returns (m: nat)
      requires Inv(ip) && off + |src| <= MAXFILE * BSIZE && tot < |src| && bn == (off + tot) / BSIZE < MAXFILE
      requires Kept(b0, blocks, dinodes, ip.inum) && Wrote(b0, d0, b1, d1, off, src, tot) && d1.Valid()
      requires addr == Ref(blocks, ip.D(), Slot(bn)) != 0 && (Ref(b1, d1, Slot(bn)) != 0 ==> ip.D() == d1)
      requires Extends(b1, d1, blocks, ip.D()) && Grew(b1, d1, blocks, ip.D(), bn, bn + 1)
      requires Needed(b1, d1, bn, bn + 1) <= |free1|
      requires FreeSet(owner) == Sets.Rest(free1, Needed(b1, d1, bn, bn + 1))
      requires Since(c1, calls) == MappingLogs(sb, free1, b1, d1, bn, ip.addrs[NDIRECT], addr)
      requires Journaled(b1, c1, blocks, calls)
      modifies this`blocks, this`calls
      ensures Inv(ip) && Kept(b0, blocks, dinodes, ip.inum)
      ensures Chunk(off + tot, |src| - tot, m) && 0 < m <= |src| - tot
      ensures Wrote(b0, d0, blocks, ip.D(), off, src, tot + m)
      ensures Grown(sb, free1, b1, d1, c1, FreeSet(owner), blocks, ip.D(), calls, bn, bn + 1)
      ensures Journaled(b1, c1, blocks, calls)
    {
      hide Inv, Owned, Wrote, Untouched, Kept, FreeSet, Mapped, Journaled, Grew, Ref, Needed;
      hide MappingLogs, Grown, Extends, PutBytes, Since, Chunk, ChunkSize, IsIndirect;
      m := ChunkSize(off + tot, |src| - tot);
      ChunkBytes(off + tot, |src| - tot, m, 0);
      OwnedNow(ip);
      WroteStep(sb, b0, d0, b1, d1, blocks, Inodes(ip), owner, ip.inum, off, src, tot, m);
      DataOwner(ip, bn);
      ghost var b2, c2 := blocks, calls;
      StoreBytes(ip, addr, (off + tot) % BSIZE, src[tot..tot + m], b0);
      GrownOne(sb, free1, b1, d1, c1, FreeSet(owner), b2, c2, blocks, ip.D(), calls, bn);
    }

    /** bp->data of a data block of ip changes and is logged. */
    method StoreBytes(ip: Inode, addr: nat, at: nat, t: seq<Byte>, ghost b0: Image)
      requires Inv(ip) && 0 < addr < |blocks| && at + |t| <= BSIZE
      requires owner[addr].By? && owner[addr].i == ip.inum && !IsIndirect(owner[addr])
      requires Kept(b0, blocks, dinodes, ip.inum)
      modifies this`blocks, this`calls
      ensures Inv(ip) && Kept(b0, blocks, dinodes, ip.inum)
      ensures blocks == old(blocks)[addr := PutBytes(old(blocks)[addr], at, t)]
      ensures Since(old(calls), calls) == {addr}
      ensures forall s :: 0 <= s < NSLOTS ==> Ref(blocks, ip.D(), s) == Ref(old(blocks), ip.D(), s)
      ensures Journaled(old(blocks), old(calls), blocks, calls)
    {
      hide Owned, Untouched, Kept, PutBytes, Stored;
      var data := PutBytes(blocks[addr], at, t);
      WriteKept(ip, addr, data);
      DataWriteOwned(sb, blocks, Inodes(ip), owner, addr, data);
      KeptTwice(b0, blocks, blocks[addr := data], dinodes, ip.inum);
      NotIndirect(sb, blocks, Inodes(ip), owner, addr, ip.inum);
      blocks := blocks[addr := data];
      calls := calls + multiset{addr};
    }

    lemma DataOwner(ip: Inode, bn: nat)
      requires Inv(ip) && bn < MAXFILE && Ref(blocks, ip.D(), Slot(bn)) != 0
      ensures var addr := Ref(blocks, ip.D(), Slot(bn));
        addr < |blocks| && owner[addr] == By(ip.inum, Slot(bn)) && !IsIndirect(owner[addr]) && owner[addr] != Meta
    {
      assert Ref(blocks, Inodes(ip)[ip.inum], Slot(bn)) != 0;
    }

    /** The range test of readi and writei on 32-bit unsigned off and n. */
    predicate InBounds(size: nat, off: Word, n: Word) {
      off <= size && (off + n) % 0x1_0000_0000 >= off
    }

    /** The end of writei: a file that grew gets its new size, in memory and in its inode block. */
    method GrowTo(ip: Inode, end: nat, ghost b0: Image)
      requires Inv(ip) && NoneHeld(owner) && end <= MAXFILE * BSIZE
      requires Mapped(blocks, Resized(ip.D(), end))
      requires end <= ip.size ==> dinodes[ip.inum] == ip.D()
      requires OthersSame(ip, b0, dinodes)
      modifies this`blocks, this`dinodes, this`calls, ip`size
      ensures Quiet(ip) && OthersSame(ip, b0, old(dinodes)) && ip.D() == Resized(old(ip.D()), end)
      ensures Journaled(old(blocks), old(calls), blocks, calls)
      ensures Since(old(calls), calls) == if end > old(ip.size) then {sb.IBlock(ip.inum)} else {}
      ensures end <= old(ip.size) ==> dinodes == old(dinodes)
      ensures forall s :: 0 <= s < NSLOTS ==> Ref(blocks, ip.D(), s) == Ref(old(blocks), old(ip.D()), s)
      ensures Content(blocks, ip.D()) == Content(old(blocks), ip.D())
    {
      hide Owned, Mapped, Content, Stored, Ref, Journaled, Since, Untouched;
      SetSizeOwned(ip, Resized(ip.D(), end).size);
      JournaledNothing(blocks, calls);
      if end > ip.size {
        SameAddrsRefs(blocks, ip.D(), Resized(ip.D(), end));
        ip.size := end;
        ghost var t := dinodes[ip.inum := ip.D()];
        OwnedFits(sb, blocks, t, owner, ip.inum);
        Iupdate(ip);
        ghost var x := sb.IBlock(ip.inum);
        InodeWriteOwned(sb, old(blocks), t, owner, x, blocks[x]);
        InodeWriteFiles(sb, old(blocks), t, owner, x, blocks[x]);
        UntouchedRefs(old(blocks), blocks, ip.D());
        assert Inodes(ip) == t;
      } else {
        assert Resized(ip.D(), end) == ip.D();
      }
    }

    /** writei's loop over the blocks it touches. */
    method WriteChunks(ip: Inode, src: seq<Byte>, off: nat) returns (ok: bool)
      requires Inv(ip) && NoneHeld(owner) && Mapped(blocks, ip.D()) && off <= ip.size
      requires off + |src| <= MAXFILE * BSIZE
      modifies this`blocks, this`owner, this`calls, ip`addrs
      ensures ok ==> Inv(ip) && NoneHeld(owner) && Kept(old(blocks), blocks, dinodes, ip.inum)
      ensures ok ==> Wrote(old(blocks), old(ip.D()), blocks, ip.D(), off, src, |src|)
      ensures ok <==> old(Needs(blocks, ip.D(), off, |src|)) <= |old(FreeSet(owner))|
      ensures ok ==> FreeSet(owner) == Sets.Rest(old(FreeSet(owner)), old(Needs(blocks, ip.D(), off, |src|)))
      ensures ok ==> Grew(old(blocks), old(ip.D()), blocks, ip.D(), off / BSIZE, EndBlock(off, |src|))
      ensures ok ==>
        Since(old(calls), calls) ==
        LoggedBy(sb, old(FreeSet(owner)), old(blocks), old(ip.D()), blocks, ip.D(), off / BSIZE, EndBlock(off, |src|))
      ensures Journaled(old(blocks), old(calls), blocks, calls)
    {
      hide Inv, Owned, Wrote, Untouched, Kept, FreeSet, Mapped, Content, Splice, Ref, Journaled, Grew, Needed, Grown;
      hide LoggedBy, Since;
      ghost var b0, d0, c0, free0 := blocks, ip.D(), calls, FreeSet(owner);
      ghost var first, end := off / BSIZE, EndBlock(off, |src|);
      ok := true;
      KeptSelf(ip);
      ValidInode(ip);
      WroteNothing(blocks, ip.D(), off, src);
      GrownNothing(sb, free0, blocks, ip.D(), calls, first);
      NeededNothing(b0, d0, first);
      var tot := 0;
      while tot < |src|
        invariant tot <= |src| && Inv(ip) && NoneHeld(owner) && dinodes == old(dinodes)
        invariant Kept(b0, blocks, dinodes, ip.inum)
        invariant Wrote(b0, d0, blocks, ip.D(), off, src, tot)
        invariant tot == 0 || tot == |src| || (off + tot) % BSIZE == 0
        invariant Grown(sb, free0, b0, d0, c0, FreeSet(owner), blocks, ip.D(), calls, first, EndBlock(off, tot))
      {
        var m;
        ghost var b1, d1, c1, free1 := blocks, ip.D(), calls, FreeSet(owner);
        ghost var bn := (off + tot) / BSIZE;
        NextBlock(off, tot, |src|);
        EndInFile(off, |src|);
        GrownSoFar(sb, free0, b0, d0, c0, free1, b1, d1, c1, first, bn, end);
        ok, m := StoreChunk(ip, src, off, tot, b0, d0);
        if !ok {
          JournaledTwice(b0, c0, b1, c1, blocks, calls);
          return;
        }
        SpanAfter(off, tot, |src|, m);
        GrownMore(sb, free0, b0, d0, c0, free1, b1, d1, c1, FreeSet(owner), blocks, ip.D(), calls, first, bn);
        tot := tot + m;
      }
      GrownMeans(sb, free0, b0, d0, c0, FreeSet(owner), blocks, ip.D(), calls, first, EndBlock(off, tot));
    }

    /**
     writei: an accepted write is exactly a splice, no other file changes, and ownership is kept.
     ok == false is the panic "balloc: out of blocks", which happens exactly when the write needs more
     blocks than are free. Every changed block is logged, and the logged blocks are known one by one.
     */
    method Writei(ip: Inode, src: seq<Byte>, off: Word) returns (ok: bool, r: int)
      requires Quiet(ip) && ip.ftype != T_DEV && |src| < 0x1_0000_0000
      modifies this`blocks, this`owner, this`calls, this`dinodes, ip`addrs, ip`size
      ensures off <= old(ip.size) && off + |src| <= 140 * 512 ==> (ok ==> r == |src|)
      ensures !(off <= old(ip.size) && off + |src| <= 140 * 512) ==>
        && ok && r == -1 && blocks == old(blocks) && owner == old(owner)
        && calls == old(calls) && dinodes == old(dinodes) && ip.D() == old(ip.D())
      ensures ok ==> Quiet(ip) && OthersSame(ip, old(blocks), old(dinodes))
      ensures ok && r >= 0 ==> Content(blocks, ip.D()) == Splice(old(Content(blocks, ip.D())), off, src)
      ensures ok && r >= 0 ==>
        var c0, c := old(Content(blocks, ip.D())), Content(blocks, ip.D());
        && |c| == (if off + |src| < |c0| then |c0| else off + |src|)
        && forall k :: 0 <= k < |c| ==> c[k] == if off <= k < off + |src| then src[k - off] else c0[k]
      ensures ip.ftype == old(ip.ftype) && ip.nlink == old(ip.nlink)
      ensures Accepted(old(ip.size), off, |src|) ==>
        (ok <==> old(Needs(blocks, ip.D(), off, |src|)) <= |old(FreeSet(owner))|)
      ensures ok && r >= 0 ==>
        FreeSet(owner) == Sets.Rest(old(FreeSet(owner)), old(Needs(blocks, ip.D(), off, |src|)))
      ensures ok && r >= 0 ==> Grew(old(blocks), old(ip.D()), blocks, ip.D(), off / BSIZE, EndBlock(off, |src|))
      ensures ok && r >= 0 ==>
        Since(old(calls), calls) ==
        LoggedBy(sb, old(FreeSet(owner)), old(blocks), old(ip.D()), blocks, ip.D(), off / BSIZE, EndBlock(off, |src|)) +
        if Grows(old(ip.size), off, |src|) then {sb.IBlock(ip.inum)} else {}
      ensures ok && r >= 0 ==>
        |Since(old(calls), calls)| == old(Footprint(sb, FreeSet(owner), blocks, ip.D(), off, |src|))
      ensures ok ==> forall x :: x in Since(old(calls), calls) ==> sb.inodestart <= x < sb.size
      ensures Journaled(old(blocks), old(calls), blocks, calls)
      ensures dinodes != old(dinodes) ==> sb.IBlock(ip.inum) in Since(old(calls), calls)
    {
      hide Owned, Wrote, Untouched, Kept, FreeSet, Mapped, Content, Splice, Ref, Journaled, Grew, Needed;
      hide Since, LoggedBy, EntryHoles, Bitmaps, Stored;
      ghost var b0, d0, free0 := blocks, ip.D(), FreeSet(owner);
      var n := |src|;
      JournaledNothing(blocks, calls);
      if !InBounds(ip.size, off, n) {
        Unchanged(ip);
        return true, -1;
      }
      if (off + n) % 0x1_0000_0000 > MAXFILE * BSIZE {
        Unchanged(ip);
        return true, -1;
      }
      ok := WriteChunks(ip, src, off);
      if !ok {
        return false, 0;
      }
      ghost var b1, d1, c1 := blocks, ip.D(), calls;
      FileWritten(b0, d0, blocks, ip.D(), off, src);
      SpliceMeans(Content(b0, d0), off, src);
      OthersSameContent(ip, b0);
      if |src| > 0 && off + |src| > ip.size {
        GrowTo(ip, off + |src|, b0);
      } else {
        GrowTo(ip, off, b0);
      }
      LoggedBySameRefs(sb, free0, b0, d0, b1, d1, blocks, ip.D(), off / BSIZE, EndBlock(off, |src|));
      GrewSameRefs(b0, d0, b1, d1, blocks, ip.D(), off / BSIZE, EndBlock(off, |src|));
      JournaledTwice(b0, old(calls), b1, c1, blocks, calls);
      FreeInRange(old(owner));
      WriteFootprint(ip, free0, b0, d0, off, |src|);
      assert Since(old(calls), calls) <=
        LoggedBy(sb, free0, b0, d0, blocks, ip.D(), off / BSIZE, EndBlock(off, |src|)) + {sb.IBlock(ip.inum)};
      ok, r := true, |src|;
    }

    /** The size of the set that an accepted write logs. */
    lemma WriteFootprint(ip: Inode, free: set<nat>, b0: Image, d0: Dinode, off: nat, n: nat)
      requires Inv(ip) && off <= d0.size && d0.Valid() && off + n <= MAXFILE * BSIZE
      requires Grew(b0, d0, blocks, ip.D(), off / BSIZE, EndBlock(off, n))
      requires Needs(b0, d0, off, n) <= |free| && forall x :: x in free ==> x < sb.size
      ensures
        var logged := LoggedBy(sb, free, b0, d0, blocks, ip.D(), off / BSIZE, EndBlock(off, n));
        |logged + if Grows(d0.size, off, n) then {sb.IBlock(ip.inum)} else {}| == Footprint(sb, free, b0, d0, off, n)
      ensures
        var logged := LoggedBy(sb, free, b0, d0, blocks, ip.D(), off / BSIZE, EndBlock(off, n));
        forall x :: x in logged + {sb.IBlock(ip.inum)} ==> sb.inodestart <= x < sb.size
    {
      hide Owned, Mapped, Ref, Needed, LoggedBy, Bitmaps, EntryHoles, Grew;
      OwnedNow(ip);
      MetaBlocks(sb, blocks, Inodes(ip), owner, ip.inum);
      if n == 0 {
        LoggedByNothing(sb, free, b0, d0, blocks, ip.D(), off / BSIZE);
      } else {
        LoggedBySize(sb, free, b0, d0, blocks, Inodes(ip), owner, ip.inum, off / BSIZE, EndBlock(off, n));
      }
    }

    /** One turn of readi's loop: the bytes wanted from the block of byte off + tot. */
    method ReadChunk(ip: Inode, off: nat, tot: nat, left: nat) returns (part: seq<Byte>)
      requires Quiet(ip) && off + tot + left <= ip.size && left > 0
      modifies this`blocks, this`owner, this`calls, ip`addrs
      ensures blocks == old(blocks) && owner == old(owner) && calls == old(calls) && ip.D() == old(ip.D()) && Quiet(ip)
      ensures 0 < |part| <= left
      ensures Content(blocks, ip.D())[off..off + tot] + part == Content(blocks, ip.D())[off..off + tot + |part|]
    {
      hide Owned, Untouched, Kept, FreeSet, Content, Mapped, Stored, Grew, MappingLogs, Extends, Journaled, Since;
      var pos := off + tot;
      MappedCost(ip, pos);
      var ok, addr := Bmap(ip, pos / BSIZE);
      assert ok;
      var m := ChunkSize(pos, left);
      DataOwner(ip, pos / BSIZE);
      BlockOfContent(blocks, ip.D(), off, tot, m, left);
      part := blocks[addr].at[pos % BSIZE..pos % BSIZE + m];
    }

    /** readi: the bytes asked for, clipped at the end of the file; bmap never allocates here. */
    method Readi(ip: Inode, off: Word, n: Word) returns (r: int, dst: seq<Byte>)
      requires Quiet(ip) && ip.ftype != T_DEV
      modifies this`blocks, this`owner, this`calls, ip`addrs
      ensures blocks == old(blocks) && owner == old(owner) && calls == old(calls) && ip.D() == old(ip.D())
      ensures !(off <= ip.size && off + n < 0x1_0000_0000) ==> r == -1 && dst == []
      ensures off <= ip.size && off + n < 0x1_0000_0000 ==>
        r == |dst| && dst == Content(blocks, ip.D())[off..if off + n > ip.size then ip.size else off + n]
    {
      hide Owned, Untouched, Kept, FreeSet, Content, Stored;
      dst := [];
      if !InBounds(ip.size, off, n) {
        return -1, dst;
      }
      var len := if (off + n) % 0x1_0000_0000 > ip.size then ip.size - off else n;
      var tot := 0;
      while tot < len
        invariant tot <= len && Quiet(ip)
        invariant blocks == old(blocks) && owner == old(owner) && calls == old(calls) && ip.D() == old(ip.D())
        invariant dst == Content(blocks, ip.D())[off..off + tot]
      {
        var part := ReadChunk(ip, off, tot, len - tot);
        dst := dst + part;
        tot := tot + |part|;
      }
      r := len;
    }

    lemma MappedCost(ip: Inode, pos: nat)
      requires Quiet(ip) && pos < ip.size
      ensures pos / BSIZE < MAXFILE && Needed(blocks, ip.D(), pos / BSIZE, pos / BSIZE + 1) == 0
    {
      assert Ref(blocks, ip.D(), Slot(pos / BSIZE)) != 0;
      MappedNeedsNothing(blocks, ip.D(), pos / BSIZE);
    }

    /** bfree; ok == false is the panic "freeing free block". */
    method Bfree(b: nat) returns (ok: bool)
      requires sb.Valid() && |blocks| == sb.size && b < sb.size
      modifies this`blocks, this`calls
      ensures ok <==> Bit(sb, old(blocks), b)
      ensures blocks == if ok then PutBit(sb, old(blocks), b, false) else old(blocks)
      ensures calls == if ok then old(calls) + multiset{sb.BBlock(b)} else old(calls)
      ensures Journaled(old(blocks), old(calls), blocks, calls)
    {
      if !Bit(sb, blocks, b) {
        return false;
      }
      blocks := PutBit(sb, blocks, b, false);
      calls := calls + multiset{sb.BBlock(b)};
      ok := true;
    }

    /**
     itrunc in the middle: the blocks of the inode whose rank is below p are free, the others are
     held, and the file system is sound for an inode without blocks.
     */
    ghost predicate Truncating(inum: nat, b0: Image, owner0: seq<Owner>, d0: Dinode, p: nat)
      reads this`blocks, this`dinodes, this`owner
    {
      && inum < |dinodes| && d0.Valid() && sb.Valid() && |b0| == |blocks| == |owner0| == sb.size
      && Stored(sb, blocks, dinodes)
      && Owned(sb, b0, dinodes[inum := d0], owner0)
      && Owned(sb, blocks, dinodes[inum := NoAddrs(d0)], owner)
      && owner == Freeing(owner0, inum, p)
      && Kept(b0, blocks, dinodes, inum)
      && Untouched(b0, blocks, d0)
    }

    /** Free the block in slot s, whose turn it is; the panic of bfree does not happen. */
    method FreeSlot(inum: nat, s: nat, b: nat, ghost b0: Image, ghost owner0: seq<Owner>, ghost d0: Dinode)
      requires s < NSLOTS && Truncating(inum, b0, owner0, d0, Rank(s)) && b == Ref(b0, d0, s) != 0
      modifies this`blocks, this`owner, this`calls
      ensures Truncating(inum, b0, owner0, d0, Rank(s) + 1)
      ensures Journaled(old(blocks), old(calls), blocks, calls) && BitmapOnly(sb, old(calls), calls)
    {
      hide Owned, Kept, Untouched, PutBit, Journaled, Stored;
      ghost var inodes := dinodes[inum := NoAddrs(d0)];
      SlotHeld(sb, b0, dinodes[inum := d0], owner0, inum, s);
      ghost var b1 := blocks;
      HeldBitSet(sb, blocks, inodes, owner, b);
      var ok := Bfree(b);
      assert ok;
      FreeHeld(sb, b1, dinodes, owner, inum, NoAddrs(d0), b);
      DataKept(sb, b0, b1, dinodes, owner0, inum, d0, b);
      owner := owner[b := Free];
      KeptTwice(b0, b1, blocks, dinodes, inum);
      UntouchedTwice(b0, b1, blocks, d0);
    }

    /** itrunc's loop over the direct blocks. */
    method FreeDirect(ip: Inode, ghost b0: Image, ghost owner0: seq<Owner>, ghost d0: Dinode)
      requires Truncating(ip.inum, b0, owner0, d0, 0) && ip.addrs == d0.addrs
      modifies this`blocks, this`owner, this`calls, ip`addrs
      ensures Truncating(ip.inum, b0, owner0, d0, NDIRECT) && |ip.addrs| == NDIRECT + 1
      ensures forall k :: 0 <= k <= NDIRECT ==> ip.addrs[k] == if k < NDIRECT then 0 else d0.addrs[k]
      ensures Journaled(old(blocks), old(calls), blocks, calls) && BitmapOnly(sb, old(calls), calls)
    {
      hide Owned, Kept, Untouched, Journaled, BitmapOnly, Stored;
      JournaledNothing(blocks, calls);
      NothingLogged(sb, calls);
      var i := 0;
      while i < NDIRECT
        invariant i <= NDIRECT && Truncating(ip.inum, b0, owner0, d0, i)
        invariant |ip.addrs| == NDIRECT + 1
        invariant forall k :: 0 <= k <= NDIRECT ==> ip.addrs[k] == if k < i then 0 else d0.addrs[k]
        invariant Journaled(old(blocks), old(calls), blocks, calls) && BitmapOnly(sb, old(calls), calls)
      {
        if ip.addrs[i] != 0 {
          ghost var b1, c1 := blocks, calls;
          FreeSlot(ip.inum, i, ip.addrs[i], b0, owner0, d0);
          FreedTwice(sb, old(blocks), old(calls), b1, c1, blocks, calls);
          ip.addrs := ip.addrs[i := 0];
        } else {
          NothingInSlot(sb, b0, dinodes[ip.inum := d0], owner0, ip.inum, i);
        }
        i := i + 1;
      }
    }

    /** The rest of itrunc: the blocks that the indirect block lists, and then the indirect block. */
    method FreeIndirect(ip: Inode, ghost b0: Image, ghost owner0: seq<Owner>, ghost d0: Dinode)
      requires Truncating(ip.inum, b0, owner0, d0, NDIRECT) && |ip.addrs| == NDIRECT + 1
      requires forall k :: 0 <= k <= NDIRECT ==> ip.addrs[k] == if k < NDIRECT then 0 else d0.addrs[k]
      modifies this`blocks, this`owner, this`calls, ip`addrs
      ensures Truncating(ip.inum, b0, owner0, d0, NSLOTS) && ip.addrs == seq(NDIRECT + 1, _ => 0)
      ensures Journaled(old(blocks), old(calls), blocks, calls) && BitmapOnly(sb, old(calls), calls)
    {
      hide Owned, Kept, Untouched, Journaled, BitmapOnly, Stored;
      JournaledNothing(blocks, calls);
      NothingLogged(sb, calls);
      ghost var addrs := ip.addrs;
      if ip.addrs[NDIRECT] != 0 {
        var j := 0;
        while j < NINDIRECT
          invariant j <= NINDIRECT && Truncating(ip.inum, b0, owner0, d0, NDIRECT + j)
          invariant ip.addrs == addrs
          invariant Journaled(old(blocks), old(calls), blocks, calls) && BitmapOnly(sb, old(calls), calls)
        {
          EntryIs(ip.inum, b0, owner0, d0, NDIRECT + j, j);
          var a := GetWord(blocks[ip.addrs[NDIRECT]], j);
          if a != 0 {
            ghost var b1, c1 := blocks, calls;
            FreeSlot(ip.inum, NDIRECT + 1 + j, a, b0, owner0, d0);
            FreedTwice(sb, old(blocks), old(calls), b1, c1, blocks, calls);
          } else {
            NothingInSlot(sb, b0, dinodes[ip.inum := d0], owner0, ip.inum, NDIRECT + 1 + j);
          }
          j := j + 1;
        }
        ghost var b2, c2 := blocks, calls;
        FreeSlot(ip.inum, NDIRECT, ip.addrs[NDIRECT], b0, owner0, d0);
        FreedTwice(sb, old(blocks), old(calls), b2, c2, blocks, calls);
        ip.addrs := ip.addrs[NDIRECT := 0];
      } else {
        NoEntries(sb, b0, dinodes[ip.inum := d0], owner0, ip.inum);
      }
      assert ip.addrs == seq(NDIRECT + 1, _ => 0);
    }

    /** itrunc up to the new size. */
    method FreeBlocks(ip: Inode, ghost b0: Image, ghost owner0: seq<Owner>, ghost d0: Dinode)
      requires Truncating(ip.inum, b0, owner0, d0, 0) && ip.addrs == d0.addrs
      modifies this`blocks, this`owner, this`calls, ip`addrs
      ensures Truncating(ip.inum, b0, owner0, d0, NSLOTS) && ip.addrs == seq(NDIRECT + 1, _ => 0)
      ensures Journaled(old(blocks), old(calls), blocks, calls) && BitmapOnly(sb, old(calls), calls)
    {
      hide Truncating, Journaled, BitmapOnly;
      FreeDirect(ip, b0, owner0, d0);
      ghost var b1, c1 := blocks, calls;
      FreeIndirect(ip, b0, owner0, d0);
      FreedTwice(sb, old(blocks), old(calls), b1, c1, blocks, calls);
    }

    /** itrunc: exactly the inode's blocks become free, its content becomes empty, nothing else changes. */
    method Itrunc(ip: Inode)
      requires Quiet(ip)
      modifies this`blocks, this`owner, this`calls, this`dinodes, ip`addrs, ip`size
      ensures Quiet(ip) && OthersSame(ip, old(blocks), old(dinodes))
      ensures ip.size == 0 && ip.addrs == seq(NDIRECT + 1, _ => 0) && Content(blocks, ip.D()) == []
      ensures ip.ftype == old(ip.ftype) && ip.nlink == old(ip.nlink)
      ensures forall b :: 0 <= b < sb.size ==>
        (Bit(sb, blocks, b) <==> Bit(sb, old(blocks), b) && !(old(owner)[b].By? && old(owner)[b].i == ip.inum))
      ensures Journaled(old(blocks), old(calls), blocks, calls)
      ensures sb.IBlock(ip.inum) in Since(old(calls), calls)
      ensures forall x :: x in Since(old(calls), calls) ==> sb.IsBitmap(x) || x == sb.IBlock(ip.inum)
    {
      hide Owned, Kept, Untouched, Mapped, Content, Journaled, Since, BitmapOnly, Freeing, Bit, Stored;
      ghost var b0, owner0, d0, c0 := blocks, owner, ip.D(), calls;
      assert Inodes(ip) == dinodes && dinodes[ip.inum := d0] == dinodes;
      StartTruncating(sb, blocks, dinodes, owner, ip.inum);
      KeptSelf(ip);
      UntouchedSelf(blocks, d0);
      owner := Freeing(owner, ip.inum, 0);
      FreeBlocks(ip, b0, owner0, d0);
      EndTruncating(sb, b0, blocks, dinodes, owner0, owner, ip.inum, d0);
      ip.size := 0;
      assert ip.D() == NoAddrs(d0).(size := 0);
      FreedInode(ip, b0, c0);
    }

    /** The end of itrunc: the empty inode goes to its block. */
    method FreedInode(ip: Inode, ghost b0: Image, ghost c0: multiset<nat>)
      requires ip.inum < |dinodes| && sb.Valid() && |blocks| == |owner| == sb.size && Stored(sb, blocks, dinodes)
      requires ip.D().Valid() && ip.size == 0 && Owned(sb, blocks, Inodes(ip), owner) && NoneHeld(owner)
      requires Kept(b0, blocks, dinodes, ip.inum) && Journaled(b0, c0, blocks, calls) && BitmapOnly(sb, c0, calls)
      requires forall i :: 0 <= i < |dinodes| && i != ip.inum ==> Mapped(b0, dinodes[i])
      modifies this`blocks, this`dinodes, this`calls
      ensures Quiet(ip) && OthersSame(ip, b0, old(dinodes)) && Content(blocks, ip.D()) == []
      ensures forall b :: 0 <= b < sb.size ==> Bit(sb, blocks, b) == Bit(sb, old(blocks), b)
      ensures Journaled(b0, c0, blocks, calls) && sb.IBlock(ip.inum) in Since(c0, calls)
      ensures forall x :: x in Since(c0, calls) ==> sb.IsBitmap(x) || x == sb.IBlock(ip.inum)
    {
      hide Owned, Kept, Untouched, Mapped, Content, Journaled, Since, BitmapOnly, Bit, Stored;
      ghost var b1, c1, t, x := blocks, calls, Inodes(ip), sb.IBlock(ip.inum);
      OthersMapped(ip, b0);
      EmptyFile(blocks, ip.D());
      OthersSameContent(ip, b0);
      OwnedFits(sb, blocks, t, owner, ip.inum);
      Iupdate(ip);
      JournaledTwice(b0, c0, b1, c1, blocks, calls);
      InodeLogged(sb, c0, c1, x);
      InodeWriteOwned(sb, b1, t, owner, x, blocks[x]);
      InodeWriteFiles(sb, b1, t, owner, x, blocks[x]);
      assert Inodes(ip) == t;
    }

    lemma OthersMapped(ip: Inode, b0: Image)
      requires Kept(b0, blocks, dinodes, ip.inum)
      requires forall i :: 0 <= i < |dinodes| && i != ip.inum ==> Mapped(b0, dinodes[i])
      ensures forall i :: 0 <= i < |dinodes| && i != ip.inum ==> Mapped(blocks, dinodes[i])
    {
      forall i | 0 <= i < |dinodes| && i != ip.inum ensures Mapped(blocks, dinodes[i]) {
        UntouchedContent(b0, blocks, dinodes[i]);
      }
    }

    lemma EntryIs(inum: nat, b0: Image, owner0: seq<Owner>, d0: Dinode, p: nat, j: nat)
      requires Truncating(inum, b0, owner0, d0, p) && d0.addrs[NDIRECT] != 0 && j < NINDIRECT
      ensures d0.addrs[NDIRECT] < |blocks|
      ensures GetWord(blocks[d0.addrs[NDIRECT]], j) == Ref(b0, d0, NDIRECT + 1 + j)
    {
      assert Ref(b0, dinodes[inum := d0][inum], NDIRECT) == d0.addrs[NDIRECT];
      assert Ref(blocks, d0, NDIRECT + 1 + j) == Ref(b0, d0, NDIRECT + 1 + j);
    }

    lemma Unchanged(ip: Inode)
      requires Quiet(ip)
      ensures OthersSame(ip, blocks, dinodes)
    {
      forall i | 0 <= i < |dinodes| && i != ip.inum ensures dinodes[i].Valid() {
        assert Inodes(ip)[i] == dinodes[i];
      }
    }

    lemma OthersSameContent(ip: Inode, b0: Image)
      requires Inv(ip) && Kept(b0, blocks, dinodes, ip.inum)
      requires forall i :: 0 <= i < |dinodes| && i != ip.inum ==> Mapped(b0, dinodes[i])
      ensures OthersSame(ip, b0, dinodes)
    {
      forall i | 0 <= i < |dinodes| && i != ip.inum
        ensures dinodes[i].Valid() && Content(blocks, dinodes[i]) == Content(b0, dinodes[i])
      {
        UntouchedContent(b0, blocks, dinodes[i]);
      }
    }

    lemma SetSizeOwned(ip: Inode, size: nat)
      requires Inv(ip) && size <= MAXFILE * BSIZE
      ensures var d := ip.D().(size := size); Owned(sb, blocks, dinodes[ip.inum := d], owner)
    {
      var d := ip.D().(size := size);
      SameAddrsOwned(sb, blocks, Inodes(ip), owner, ip.inum, d);
      assert Inodes(ip)[ip.inum := d] == dinodes[ip.inum := d];
    }
  }

  lemma NeededNothing(b: Image, d: Dinode, bn: nat)
    requires |d.addrs| == NDIRECT + 1 && bn <= MAXFILE
    ensures Needed(b, d, bn, bn) == 0
  {
  }

  /** The free blocks that a write of n bytes at off takes. */
  ghost function Needs(b: Image, d: Dinode, off: nat, n: nat): nat
    requires |d.addrs| == NDIRECT + 1 && (n == 0 || off + n <= MAXFILE * BSIZE)
  {
    if n == 0 then 0 else Needed(b, d, off / BSIZE, EndBlock(off, n))
  }

  lemma {:induction false} NeededGrows(b: Image, d: Dinode, lo: nat, hi: nat, end: nat)
    requires |d.addrs| == NDIRECT + 1 && hi <= end <= MAXFILE
    ensures Needed(b, d, lo, hi) <= Needed(b, d, lo, end)
    decreases end
  {
    hide Ref;
    if hi < end {
      NeededGrows(b, d, lo, hi, end - 1);
    }
  }

  lemma LoggedBySameRefs(sb: Super, free: set<nat>, b0: Image, d0: Dinode, b1: Image, d1: Dinode, b2: Image, d2: Dinode,
                         lo: nat, hi: nat)
    requires |d0.addrs| == |d1.addrs| == NDIRECT + 1 && hi <= MAXFILE && d2.addrs == d1.addrs
    requires forall s :: 0 <= s < NSLOTS ==> Ref(b2, d2, s) == Ref(b1, d1, s)
    ensures LoggedBy(sb, free, b0, d0, b2, d2, lo, hi) == LoggedBy(sb, free, b0, d0, b1, d1, lo, hi)
  {
    hide Ref, Needed, Bitmaps, EntryHoles;
    assert DataBlocks(b2, d2, lo, hi) == DataBlocks(b1, d1, lo, hi) by {
      forall bn: nat {:trigger Slot(bn)} | lo <= bn < hi ensures Ref(b2, d2, Slot(bn)) == Ref(b1, d1, Slot(bn)) {
      }
    }
  }

  /**
   The file blocks lo, ..., hi - 1 are mapped and written: d0 became d, the lowest free blocks were taken, and exactly
   the changed blocks were logged.
   */
  ghost predicate Grown(sb: Super, free0: set<nat>, b0: Image, d0: Dinode, c0: multiset<nat>, free: set<nat>, b: Image,
                        d: Dinode, c: multiset<nat>, lo: nat, hi: nat) {
    && lo <= hi && Grew(b0, d0, b, d, lo, hi) && Needed(b0, d0, lo, hi) <= |free0|
    && free == Sets.Rest(free0, Needed(b0, d0, lo, hi))
    && Since(c0, c) == LoggedBy(sb, free0, b0, d0, b, d, lo, hi)
    && Journaled(b0, c0, b, c)
  }

  lemma GrownNothing(sb: Super, free: set<nat>, b: Image, d: Dinode, c: multiset<nat>, lo: nat)
    requires |d.addrs| == NDIRECT + 1 && lo <= MAXFILE
    ensures Grown(sb, free, b, d, c, free, b, d, c, lo, lo)
  {
    GrewNothing(b, d, lo, lo);
    NeededNothing(b, d, lo);
    JournaledNothing(b, c);
    LoggedByNothing(sb, free, b, d, b, d, lo);
    hide Ref, Grew, Journaled, LoggedBy;
  }

  /** Mapping file block bn and then storing bytes in its block. */
  lemma GrownOne(sb: Super, free0: set<nat>, b0: Image, d0: Dinode, c0: multiset<nat>, free: set<nat>, b1: Image,
                 c1: multiset<nat>, b: Image, d: Dinode, c: multiset<nat>, bn: nat)
    requires Grew(b0, d0, b1, d, bn, bn + 1) && Needed(b0, d0, bn, bn + 1) <= |free0|
    requires free == Sets.Rest(free0, Needed(b0, d0, bn, bn + 1))
    requires Since(c0, c1) == MappingLogs(sb, free0, b0, d0, bn, d.addrs[NDIRECT], Ref(b1, d, Slot(bn)))
    requires Journaled(b0, c0, b1, c1) && Journaled(b1, c1, b, c) && Since(c1, c) == {Ref(b1, d, Slot(bn))}
    requires forall s :: 0 <= s < NSLOTS ==> Ref(b, d, s) == Ref(b1, d, s)
    ensures Grown(sb, free0, b0, d0, c0, free, b, d, c, bn, bn + 1) && Journaled(b0, c0, b, c)
  {
    hide Ref, Since, LoggedBy, MappingLogs, Needed;
    GrewSameRefs(b0, d0, b1, d, b, d, bn, bn + 1);
    JournaledTwice(b0, c0, b1, c1, b, c);
    LoggedByOne(sb, free0, b0, d0, b, d, bn);
  }

  lemma GrownMeans(sb: Super, free0: set<nat>, b0: Image, d0: Dinode, c0: multiset<nat>, free: set<nat>, b: Image,
                   d: Dinode, c: multiset<nat>, lo: nat, hi: nat)
    requires Grown(sb, free0, b0, d0, c0, free, b, d, c, lo, hi)
    ensures lo <= hi && Grew(b0, d0, b, d, lo, hi) && Needed(b0, d0, lo, hi) <= |free0|
    ensures free == Sets.Rest(free0, Needed(b0, d0, lo, hi))
    ensures Since(c0, c) == LoggedBy(sb, free0, b0, d0, b, d, lo, hi)
    ensures Journaled(b0, c0, b, c)
  {
  }

  /** What is missing for the rest is what was missing at the beginning without what was mapped since. */
  lemma GrownSoFar(sb: Super, free0: set<nat>, b0: Image, d0: Dinode, c0: multiset<nat>, free: set<nat>, b: Image,
                   d: Dinode, c: multiset<nat>, lo: nat, mid: nat, hi: nat)
    requires Grown(sb, free0, b0, d0, c0, free, b, d, c, lo, mid) && mid < hi <= MAXFILE
    ensures Journaled(b0, c0, b, c) && |d.addrs| == NDIRECT + 1
    ensures |free| < Needed(b, d, mid, mid + 1) ==> |free0| < Needed(b0, d0, lo, hi)
  {
    hide Ref, Journaled, LoggedBy, Since, Needed;
    NeededSplit(b0, d0, b, d, lo, mid, mid, hi);
    NeededGrows(b, d, mid, mid + 1, hi);
    Sets.LowestSize(free0, Needed(b0, d0, lo, mid));
  }

  lemma GrownMore(sb: Super, free0: set<nat>, b0: Image, d0: Dinode, c0: multiset<nat>, free1: set<nat>, b1: Image,
                  d1: Dinode, c1: multiset<nat>, free: set<nat>, b: Image, d: Dinode, c: multiset<nat>, lo: nat,
                  bn: nat)
    requires Grown(sb, free0, b0, d0, c0, free1, b1, d1, c1, lo, bn) && bn < MAXFILE
    requires Grown(sb, free1, b1, d1, c1, free, b, d, c, bn, bn + 1)
    ensures Grown(sb, free0, b0, d0, c0, free, b, d, c, lo, bn + 1)
  {
    hide Ref, Journaled, LoggedBy, Since, Needed;
    NeededSplit(b0, d0, b1, d1, lo, bn, bn, bn + 1);
    Sets.LowestSize(free0, Needed(b0, d0, lo, bn));
    GrewTwice(b0, d0, b1, d1, b, d, lo, bn, bn, bn + 1);
    LoggedByMore(sb, free0, b0, d0, b1, d1, b, d, lo, bn, bn + 1);
    JournaledTwice(b0, c0, b1, c1, b, c);
  }

  /** A write that goes beyond the end of the file. */
  ghost predicate Grows(size: nat, off: nat, n: nat) {
    n > 0 && off + n > size
  }

  /** How many blocks an accepted write logs: bitmap blocks, data blocks, the indirect block, the inode block. */
  ghost function Footprint(sb: Super, free: set<nat>, b: Image, d: Dinode, off: nat, n: nat): nat
    requires |d.addrs| == NDIRECT + 1 && (n == 0 || off + n <= MAXFILE * BSIZE)
  {
    if n == 0 then 0
    else
      |Bitmaps(sb, free, Needs(b, d, off, n))| + Span(off, n) +
      (if EntryHoles(b, d, off / BSIZE, EndBlock(off, n)) then 1 else 0) + if Grows(d.size, off, n) then 1 else 0
  }

  /** ip->size = end if that is larger. */
  ghost function Resized(d: Dinode, end: nat): Dinode {
    d.(size := if end > d.size then end else d.size)
  }

  lemma FileWritten(b0: Image, d0: Dinode, b: Image, d: Dinode, off: nat, src: seq<Byte>)
    requires Wrote(b0, d0, b, d, off, src, |src|)
    ensures off <= d.size && off + |src| <= MAXFILE * BSIZE
    ensures Resized(d, off + |src|).Valid() && Mapped(b, Resized(d, off + |src|))
    ensures Content(b, Resized(d, off + |src|)) == Splice(Content(b0, d0), off, src)
    ensures off + |src| <= d.size ==> d == d0
  {
    WroteAll(b0, d0, b, d, off, src);
  }

  /** The writes that writei accepts. */
  ghost predicate Accepted(size: nat, off: nat, n: nat) {
    off <= size && off + n <= MAXFILE * BSIZE
  }

  // ----- truncation -----

  /** The order in which itrunc frees the slots. */
  function Rank(s: nat): nat {
    if s < NDIRECT then s else if s == NDIRECT then NSLOTS - 1 else s - 1
  }

  ghost function Freeing(owner0: seq<Owner>, i: nat, p: nat): (r: seq<Owner>)
    ensures |r| == |owner0|
  {
    seq(|owner0|, (b: int) => if 0 <= b < |owner0| then FreeingOne(owner0[b], i, p) else Free)
  }

  ghost function FreeingOne(o: Owner, i: nat, p: nat): Owner {
    if o.By? && o.i == i then (if o.s < NSLOTS && Rank(o.s) < p then Free else Held) else o
  }

  lemma UntouchedRefs(b: Image, after: Image, d: Dinode)
    requires Untouched(b, after, d)
    ensures forall s :: 0 <= s < NSLOTS ==> Ref(after, d, s) == Ref(b, d, s)
  {
    hide Ref;
  }

  lemma UntouchedSelf(b: Image, d: Dinode)
    requires d.Valid()
    ensures Untouched(b, b, d)
  {
  }

  lemma EmptyFile(b: Image, d: Dinode)
    requires d.Valid() && d.size == 0
    ensures Mapped(b, d) && Content(b, d) == []
  {
  }

  lemma StartTruncating(sb: Super, b0: Image, inodes: Table, owner: seq<Owner>, i: nat)
    requires Owned(sb, b0, inodes, owner) && i < |inodes|
    ensures Owned(sb, b0, inodes[i := NoAddrs(inodes[i])], Freeing(owner, i, 0))
  {
    Detach(sb, b0, inodes, owner, i);
    assert Freeing(owner, i, 0) == Released(owner, i);
  }

  lemma SlotHeld(sb: Super, b0: Image, inodes: Table, owner0: seq<Owner>, i: nat, s: nat)
    requires Owned(sb, b0, inodes, owner0) && i < |inodes| && s < NSLOTS && Ref(b0, inodes[i], s) != 0
    ensures var b := Ref(b0, inodes[i], s);
      && b < sb.size && Freeing(owner0, i, Rank(s))[b] == Held
      && Freeing(owner0, i, Rank(s) + 1) == Freeing(owner0, i, Rank(s))[b := Free]
  {
    var b := Ref(b0, inodes[i], s);
    assert owner0[b] == By(i, s);
    forall c | 0 <= c < |owner0| && c != b
      ensures FreeingOne(owner0[c], i, Rank(s) + 1) == FreeingOne(owner0[c], i, Rank(s))
    {
      if owner0[c].By? {
        assert Ref(b0, inodes[owner0[c].i], owner0[c].s) == c;
      }
    }
  }

  lemma NothingInSlot(sb: Super, b0: Image, inodes: Table, owner0: seq<Owner>, i: nat, s: nat)
    requires Owned(sb, b0, inodes, owner0) && i < |inodes| && s < NSLOTS && Ref(b0, inodes[i], s) == 0
    ensures Freeing(owner0, i, Rank(s) + 1) == Freeing(owner0, i, Rank(s))
  {
    assert owner0[0] == Meta;
    forall c | 0 <= c < |owner0| ensures FreeingOne(owner0[c], i, Rank(s) + 1) == FreeingOne(owner0[c], i, Rank(s)) {
      if owner0[c].By? {
        assert Ref(b0, inodes[owner0[c].i], owner0[c].s) == c;
      }
    }
  }

  lemma NoEntries(sb: Super, b0: Image, inodes: Table, owner0: seq<Owner>, i: nat)
    requires Owned(sb, b0, inodes, owner0) && i < |inodes| && inodes[i].addrs[NDIRECT] == 0
    ensures Freeing(owner0, i, NSLOTS) == Freeing(owner0, i, NDIRECT)
  {
    forall c | 0 <= c < |owner0| ensures FreeingOne(owner0[c], i, NSLOTS) == FreeingOne(owner0[c], i, NDIRECT) {
      assert owner0[0] == Meta;
      if owner0[c].By? && owner0[c].i == i {
        assert Ref(b0, inodes[i], owner0[c].s) == c;
      }
    }
  }

  lemma HeldBitSet(sb: Super, b1: Image, inodes: Table, owner: seq<Owner>, b: nat)
    requires Owned(sb, b1, inodes, owner) && b < sb.size && owner[b] == Held
    ensures Bit(sb, b1, b)
  {
  }

  lemma FreeHeld(sb: Super, b1: Image, dinodes: Table, owner: seq<Owner>, inum: nat, d: Dinode, b: nat)
    requires inum < |dinodes| && Owned(sb, b1, dinodes[inum := d], owner) && b < sb.size && owner[b] == Held
    requires Stored(sb, b1, dinodes)
    ensures Owned(sb, PutBit(sb, b1, b, false), dinodes[inum := d], owner[b := Free])
    ensures Kept(b1, PutBit(sb, b1, b, false), dinodes, inum) && Stored(sb, PutBit(sb, b1, b, false), dinodes)
  {
    var inodes, bb := dinodes[inum := d], sb.BBlock(b);
    PutBitOwned(sb, b1, inodes, owner, b, false);
    assert owner[bb] == Meta;
    var after := PutBit(sb, b1, b, false);
    assert after == b1[bb := after[bb]];
    sb.BBlockIsBitmap(b);
    StoredElsewhere(sb, b1, dinodes, bb, after[bb]);
    hide Stored;
    forall i | 0 <= i < |dinodes| && i != inum ensures Untouched(b1, after, dinodes[i]) {
      assert inodes[i] == dinodes[i];
      OthersUntouched(sb, b1, inodes, owner, bb, after[bb], i);
    }
  }

  lemma DataKept(sb: Super, b0: Image, b1: Image, dinodes: Table, owner0: seq<Owner>, inum: nat, d0: Dinode, b: nat)
    requires inum < |dinodes| && Owned(sb, b0, dinodes[inum := d0], owner0) && Untouched(b0, b1, d0) && b < sb.size
    ensures |b1| == sb.size && Untouched(b1, PutBit(sb, b1, b, false), d0)
  {
    var inodes, bb := dinodes[inum := d0], sb.BBlock(b);
    assert owner0[bb] == Meta;
    var after := PutBit(sb, b1, b, false);
    assert after == b1[bb := after[bb]];
    forall s | 0 <= s < NSLOTS ensures Ref(b1, d0, s) != bb {
      assert Ref(b1, d0, s) == Ref(b0, inodes[inum], s);
    }
    UntouchedWrite(b1, bb, after[bb], d0);
  }

  lemma UntouchedWrite(b: Image, x: nat, data: Block, d: Dinode)
    requires d.Valid() && 0 < x < |b| && forall s :: 0 <= s < NSLOTS ==> Ref(b, d, s) != x
    ensures Untouched(b, b[x := data], d)
  {
    assert Ref(b, d, NDIRECT) != x;
  }

  lemma EndTruncating(sb: Super, b0: Image, b1: Image, dinodes: Table, owner0: seq<Owner>, owner: seq<Owner>,
                      inum: nat, d0: Dinode)
    requires inum < |dinodes| && d0.Valid() && Owned(sb, b0, dinodes[inum := d0], owner0) && NoneHeld(owner0)
    requires Owned(sb, b1, dinodes[inum := NoAddrs(d0)], owner) && owner == Freeing(owner0, inum, NSLOTS)
    ensures Owned(sb, b1, dinodes[inum := NoAddrs(d0).(size := 0)], owner) && NoneHeld(owner)
    ensures forall b :: 0 <= b < sb.size ==>
      (Bit(sb, b1, b) <==> Bit(sb, b0, b) && !(owner0[b].By? && owner0[b].i == inum))
  {
    SameAddrsOwned(sb, b1, dinodes[inum := NoAddrs(d0)], owner, inum, NoAddrs(d0).(size := 0));
    assert dinodes[inum := NoAddrs(d0)][inum := NoAddrs(d0).(size := 0)] == dinodes[inum := NoAddrs(d0).(size := 0)];
    forall b | 0 <= b < sb.size ensures owner0[b].By? && owner0[b].i == inum ==> owner0[b].s < NSLOTS {
    }
  }

  // ----- reading -----

  lemma BlockOfContent(b: Image, d: Dinode, off: nat, tot: nat, m: nat, left: nat)
    requires d.Valid() && off + tot + left <= d.size && left > 0 && Chunk(off + tot, left, m)
    requires Ref(b, d, Slot((off + tot) / BSIZE)) < |b|
    ensures m > 0 && (off + tot) % BSIZE + m <= BSIZE && off + tot + m <= d.size
    ensures
      var pos := off + tot;
      Content(b, d)[off..pos] + b[Ref(b, d, Slot(pos / BSIZE))].at[pos % BSIZE..pos % BSIZE + m]
      == Content(b, d)[off..pos + m]
  {
    hide Ref, Content, FileByte;
    ChunkBytes(off + tot, left, m, 0);
    PartOfContent(b, d, off + tot, m, left);
    JoinSlices(Content(b, d), off, off + tot, off + tot + m);
  }

  lemma PartOfContent(b: Image, d: Dinode, pos: nat, m: nat, left: nat)
    requires d.Valid() && pos + left <= d.size && left > 0 && Chunk(pos, left, m) && Ref(b, d, Slot(pos / BSIZE)) < |b|
    ensures 0 < m <= left && pos % BSIZE + m <= BSIZE
    ensures b[Ref(b, d, Slot(pos / BSIZE))].at[pos % BSIZE..pos % BSIZE + m] == Content(b, d)[pos..pos + m]
  {
    hide Ref, Chunk;
    ChunkBytes(pos, left, m, 0);
    var c, part := Content(b, d), b[Ref(b, d, Slot(pos / BSIZE))].at[pos % BSIZE..pos % BSIZE + m];
    forall k | 0 <= k < m ensures part[k] == c[pos + k] {
      ChunkBytes(pos, left, m, pos + k);
      assert c[pos + k] == FileByte(b, d, pos + k);
    }
    assert part == c[pos..pos + m];
  }

  lemma JoinSlices(c: seq<Byte>, i: nat, j: nat, k: nat)
    requires i <= j <= k <= |c|
    ensures c[i..j] + c[j..k] == c[i..k]
  {
  }

  /** The block after the last one that the bytes off, ..., off + n - 1 lie in. */
  function EndBlock(off: nat, n: nat): nat {
    if n == 0 then off / BSIZE else (off + n - 1) / BSIZE + 1
  }

  lemma EndInFile(off: nat, n: nat)
    requires off + n <= MAXFILE * BSIZE
    ensures off / BSIZE <= EndBlock(off, n) <= MAXFILE
  {
  }

  /** Number of file blocks that these bytes lie in. */
  function Span(off: nat, n: nat): nat {
    EndBlock(off, n) - off / BSIZE
  }

  lemma NextBlock(off: nat, tot: nat, n: nat)
    requires tot < n && (tot == 0 || (off + tot) % BSIZE == 0)
    ensures off / BSIZE <= (off + tot) / BSIZE == EndBlock(off, tot) < EndBlock(off, n)
  {
  }

  lemma SpanAfter(off: nat, tot: nat, n: nat, m: nat)
    requires tot < n && (tot == 0 || (off + tot) % BSIZE == 0) && Chunk(off + tot, n - tot, m)
    ensures EndBlock(off, tot + m) == (off + tot) / BSIZE + 1 && Span(off, tot + m) == Span(off, tot) + 1
    ensures tot + m == n || (off + tot + m) % BSIZE == 0
  {
  }
}
