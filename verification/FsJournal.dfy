/** What a transaction of the file system logs: the calls of log_write, and that no change is without one. */
module FsJournal {
  import opened Blocks
  import opened FsSpec
  import Sets

  /** The blocks that log_write was called for between two moments of a transaction. */
  ghost function Since(before: multiset<nat>, after: multiset<nat>): set<nat> {
    set x | x in after && after[x] > before[x]
  }

  /** Every block that changed between two moments was logged between them. */
  ghost predicate Journaled(b0: Image, calls0: multiset<nat>, b1: Image, calls1: multiset<nat>) {
    && calls0 <= calls1 && |b0| == |b1|
    && forall x :: 0 <= x < |b0| && b1[x] != b0[x] ==> calls1[x] > calls0[x]
  }

  lemma JournaledTwice(b0: Image, c0: multiset<nat>, b1: Image, c1: multiset<nat>, b2: Image, c2: multiset<nat>)
    requires Journaled(b0, c0, b1, c1) && Journaled(b1, c1, b2, c2)
    ensures Journaled(b0, c0, b2, c2) && Since(c0, c2) == Since(c0, c1) + Since(c1, c2)
  {
    assert forall x :: c0[x] <= c1[x] <= c2[x];
  }

  lemma JournaledNothing(b: Image, calls: multiset<nat>)
    ensures Journaled(b, calls, b, calls) && Since(calls, calls) == {}
  {
  }

  lemma JournaledWrite(b: Image, calls: multiset<nat>, x: nat, data: Block)
    requires x < |b|
    ensures Journaled(b, calls, b[x := data], calls + multiset{x}) && Since(calls, calls + multiset{x}) == {x}
  {
  }

  /** balloc writes the bitmap block and the block itself. */
  lemma JournaledAlloc(sb: Super, b: Image, calls: multiset<nat>, r: nat)
    requires sb.Valid() && |b| == sb.size && r < sb.size
    ensures Journaled(b, calls, PutBit(sb, b, r, true)[r := ZERO_BLOCK], calls + multiset{sb.BBlock(r), r})
    ensures Since(calls, calls + multiset{sb.BBlock(r), r}) == {sb.BBlock(r), r}
  {
    hide PutBit;
  }

  // ----- what mapping and writing a range of file blocks logs -----

  /** The bitmap blocks that hold the bits of these blocks. */
  ghost function BitmapOf(sb: Super, s: set<nat>): set<nat> {
    set b | b in s :: sb.BBlock(b)
  }

  lemma BitmapOfBoth(sb: Super, s: set<nat>, t: set<nat>)
    ensures BitmapOf(sb, s + t) == BitmapOf(sb, s) + BitmapOf(sb, t)
  {
  }

  /** The bitmap blocks that allocating n blocks logs: balloc takes the lowest free blocks. */
  ghost function Bitmaps(sb: Super, free: set<nat>, n: nat): set<nat> {
    BitmapOf(sb, Sets.Lowest(free, n))
  }

  lemma BitmapsTwice(sb: Super, free: set<nat>, m: nat, n: nat)
    ensures Bitmaps(sb, free, m + n) == Bitmaps(sb, free, m) + Bitmaps(sb, Sets.Rest(free, m), n)
    ensures Sets.Rest(free, m + n) == Sets.Rest(Sets.Rest(free, m), n)
  {
    Sets.LowestTwice(free, m, n);
    BitmapOfBoth(sb, Sets.Lowest(free, m), Sets.Lowest(Sets.Rest(free, m), n));
  }

  /** No bitmap block is needed twice for n blocks, and there are no more of them than the disk has. */
  lemma BitmapsSize(sb: Super, free: set<nat>, n: nat)
    requires n <= |free| && forall b :: b in free ==> b < sb.size
    ensures |Bitmaps(sb, free, n)| <= n && |Bitmaps(sb, free, n)| <= sb.BitmapBlocks()
    ensures forall x :: x in Bitmaps(sb, free, n) ==> sb.IsBitmap(x)
  {
    Sets.LowestSize(free, n);
    ImageSize(sb, Sets.Lowest(free, n));
    Sets.RangeSize(Bitmaps(sb, free, n), sb.bmapstart, sb.BitmapBlocks());
  }

  lemma {:induction false} ImageSize(sb: Super, s: set<nat>)
    ensures |BitmapOf(sb, s)| <= |s|
  {
    if s != {} {
      var b :| b in s;
      ImageSize(sb, s - {b});
      assert BitmapOf(sb, s) == BitmapOf(sb, s - {b}) + {sb.BBlock(b)};
    }
  }

  /** The blocks that hold the file blocks lo, ..., hi - 1. */
  ghost function DataBlocks(b: Image, d: Dinode, lo: nat, hi: nat): set<nat>
    requires |d.addrs| == NDIRECT + 1 && hi <= MAXFILE
  {
    set bn: nat {:trigger Slot(bn)} | lo <= bn < hi :: Ref(b, d, Slot(bn))
  }

  /** Mapping these file blocks stores into the indirect block. */
  ghost predicate EntryHoles(b: Image, d: Dinode, lo: nat, hi: nat)
    requires |d.addrs| == NDIRECT + 1 && hi <= MAXFILE
  {
    exists bn: nat {:trigger Slot(bn)} :: lo <= bn < hi && NDIRECT <= bn && Ref(b, d, Slot(bn)) == 0
  }

  /** The indirect block, if the range gets an entry in it. */
  ghost function EntryBlock(b0: Image, d0: Dinode, d: Dinode, lo: nat, hi: nat): set<nat>
    requires |d0.addrs| == |d.addrs| == NDIRECT + 1 && hi <= MAXFILE
  {
    if EntryHoles(b0, d0, lo, hi) then {d.addrs[NDIRECT]} else {}
  }

  /**
   What mapping and writing the file blocks lo, ..., hi - 1 logs while the inode becomes d1: the bitmap blocks of the
   new blocks, the data blocks, and the indirect block if it gets an entry.
   */
  ghost function LoggedBy(sb: Super, free: set<nat>, b0: Image, d0: Dinode, b1: Image, d1: Dinode, lo: nat, hi: nat)
    : set<nat>
    requires |d0.addrs| == |d1.addrs| == NDIRECT + 1 && hi <= MAXFILE
  {
    Bitmaps(sb, free, Needed(b0, d0, lo, hi)) + DataBlocks(b1, d1, lo, hi) + EntryBlock(b0, d0, d1, lo, hi)
  }

  lemma LoggedByNothing(sb: Super, free: set<nat>, b0: Image, d0: Dinode, b1: Image, d1: Dinode, lo: nat)
    requires |d0.addrs| == |d1.addrs| == NDIRECT + 1 && lo <= MAXFILE
    ensures LoggedBy(sb, free, b0, d0, b1, d1, lo, lo) == {}
  {
    assert Holes(b0, d0, lo, lo) == 0;
  }

  /** Mapping and writing a range block by block logs the same as the range at once. */
  lemma LoggedByMore(sb: Super, free: set<nat>, b0: Image, d0: Dinode, b1: Image, d1: Dinode, b2: Image, d2: Dinode,
                     lo: nat, mid: nat, hi: nat)
    requires Grew(b0, d0, b1, d1, lo, mid) && Grew(b1, d1, b2, d2, mid, hi) && lo <= mid <= hi
    ensures var rest := Sets.Rest(free, Needed(b0, d0, lo, mid));
      && LoggedBy(sb, free, b0, d0, b2, d2, lo, hi) ==
         LoggedBy(sb, free, b0, d0, b1, d1, lo, mid) + LoggedBy(sb, rest, b1, d1, b2, d2, mid, hi)
      && Sets.Rest(free, Needed(b0, d0, lo, hi)) == Sets.Rest(rest, Needed(b1, d1, mid, hi))
  {
    hide Ref, Needed, Bitmaps;
    NeededSplit(b0, d0, b1, d1, lo, mid, mid, hi);
    BitmapsTwice(sb, free, Needed(b0, d0, lo, mid), Needed(b1, d1, mid, hi));
    DataBlocksMore(b0, d0, b1, d1, b2, d2, lo, mid, hi);
    EntryHolesMore(b0, d0, b1, d1, lo, mid, hi);
  }

  lemma DataBlocksMore(b0: Image, d0: Dinode, b1: Image, d1: Dinode, b2: Image, d2: Dinode, lo: nat, mid: nat, hi: nat)
    requires Grew(b0, d0, b1, d1, lo, mid) && Grew(b1, d1, b2, d2, mid, hi) && lo <= mid <= hi
    ensures DataBlocks(b2, d2, lo, hi) == DataBlocks(b1, d1, lo, mid) + DataBlocks(b2, d2, mid, hi)
  {
    hide Ref;
    forall bn: nat {:trigger Slot(bn)} | lo <= bn < mid ensures Ref(b2, d2, Slot(bn)) == Ref(b1, d1, Slot(bn)) {
    }
  }

  lemma EntryHolesMore(b0: Image, d0: Dinode, b1: Image, d1: Dinode, lo: nat, mid: nat, hi: nat)
    requires Grew(b0, d0, b1, d1, lo, mid) && lo <= mid <= hi <= MAXFILE
    ensures EntryHoles(b0, d0, lo, hi) <==> EntryHoles(b0, d0, lo, mid) || EntryHoles(b1, d1, mid, hi)
  {
    hide Ref;
    if EntryHoles(b0, d0, lo, hi) && !EntryHoles(b0, d0, lo, mid) {
      var bn: nat {:trigger Slot(bn)} :| lo <= bn < hi && NDIRECT <= bn && Ref(b0, d0, Slot(bn)) == 0;
      assert mid <= bn && Ref(b1, d1, Slot(bn)) == 0;
    }
  }

  /** The data blocks of a mapped range are distinct data blocks of the inode. */
  lemma {:induction false} DataBlocksSize(b: Image, d: Dinode, owner: seq<Owner>, i: nat, lo: nat, hi: nat)
    requires |d.addrs| == NDIRECT + 1 && lo <= hi <= MAXFILE
    requires forall bn {:trigger Slot(bn)} :: lo <= bn < hi ==>
      Ref(b, d, Slot(bn)) < |owner| && owner[Ref(b, d, Slot(bn))] == By(i, Slot(bn))
    ensures |DataBlocks(b, d, lo, hi)| == hi - lo
    ensures forall x :: x in DataBlocks(b, d, lo, hi) ==> x < |owner| && owner[x].By? && owner[x].s != NDIRECT
  {
    hide Ref, DataBlocks;
    if lo < hi {
      DataBlocksSize(b, d, owner, i, lo, hi - 1);
      LastDataBlock(b, d, owner, i, lo, hi);
    } else {
      NoDataBlocks(b, d, lo);
    }
  }

  lemma LastDataBlock(b: Image, d: Dinode, owner: seq<Owner>, i: nat, lo: nat, hi: nat)
    requires |d.addrs| == NDIRECT + 1 && lo < hi <= MAXFILE
    requires forall bn {:trigger Slot(bn)} :: lo <= bn < hi ==>
      Ref(b, d, Slot(bn)) < |owner| && owner[Ref(b, d, Slot(bn))] == By(i, Slot(bn))
    ensures DataBlocks(b, d, lo, hi) == DataBlocks(b, d, lo, hi - 1) + {Ref(b, d, Slot(hi - 1))}
    ensures Ref(b, d, Slot(hi - 1)) !in DataBlocks(b, d, lo, hi - 1)
  {
    hide Ref;
  }

  lemma NoDataBlocks(b: Image, d: Dinode, lo: nat)
    requires |d.addrs| == NDIRECT + 1 && lo <= MAXFILE
    ensures DataBlocks(b, d, lo, lo) == {}
  {
  }

  lemma DataOwners(sb: Super, b: Image, inodes: Table, owner: seq<Owner>, i: nat, lo: nat, hi: nat)
    requires Owned(sb, b, inodes, owner) && i < |inodes| && hi <= MAXFILE
    requires forall bn {:trigger Slot(bn)} :: lo <= bn < hi ==> Ref(b, inodes[i], Slot(bn)) != 0
    ensures forall bn {:trigger Slot(bn)} :: lo <= bn < hi ==>
      Ref(b, inodes[i], Slot(bn)) < |owner| && owner[Ref(b, inodes[i], Slot(bn))] == By(i, Slot(bn))
  {
    hide Ref, BitsMatch, OwnersRefer;
  }

  /** The data blocks and the indirect block of the inode are data blocks on the disk, and different. */
  lemma FileBlocks(sb: Super, b0: Image, d0: Dinode, b: Image, inodes: Table, owner: seq<Owner>, i: nat, lo: nat,
                   hi: nat)
    requires Owned(sb, b, inodes, owner) && i < |inodes| && lo <= hi && Grew(b0, d0, b, inodes[i], lo, hi)
    ensures |DataBlocks(b, inodes[i], lo, hi)| == hi - lo
    ensures DataBlocks(b, inodes[i], lo, hi) !! EntryBlock(b0, d0, inodes[i], lo, hi)
    ensures forall x :: x in DataBlocks(b, inodes[i], lo, hi) ==> sb.nmeta <= x < sb.size
    ensures forall x :: x in EntryBlock(b0, d0, inodes[i], lo, hi) ==> sb.nmeta <= x < sb.size
    ensures |EntryBlock(b0, d0, inodes[i], lo, hi)| == if EntryHoles(b0, d0, lo, hi) then 1 else 0
  {
    hide Ref, DataBlocks;
    DataOwners(sb, b, inodes, owner, i, lo, hi);
    DataBlocksSize(b, inodes[i], owner, i, lo, hi);
    if EntryHoles(b0, d0, lo, hi) {
      IndirectOwner(sb, b, inodes, owner, i);
    }
  }

  /** How many blocks those are: no block counts twice, and the inode block is not among them. */
  lemma LoggedBySize(sb: Super, free: set<nat>, b0: Image, d0: Dinode, b: Image, inodes: Table, owner: seq<Owner>,
                     i: nat, lo: nat, hi: nat)
    requires Owned(sb, b, inodes, owner) && i < |inodes| && lo <= hi && Grew(b0, d0, b, inodes[i], lo, hi)
    requires Needed(b0, d0, lo, hi) <= |free| && forall x :: x in free ==> x < sb.size
    ensures var logged := LoggedBy(sb, free, b0, d0, b, inodes[i], lo, hi);
      && |logged| ==
         hi - lo + |Bitmaps(sb, free, Needed(b0, d0, lo, hi))| + (if EntryHoles(b0, d0, lo, hi) then 1 else 0)
      && sb.IBlock(i) !in logged
      && forall x :: x in logged ==> sb.inodestart <= x < sb.size
  {
    hide Ref, Needed, Bitmaps, DataBlocks, EntryHoles, EntryBlock, Owned;
    FileBlocks(sb, b0, d0, b, inodes, owner, i, lo, hi);
    MetaBlocks(sb, b, inodes, owner, i);
    hide Grew;
    var maps := Bitmaps(sb, free, Needed(b0, d0, lo, hi));
    BitmapsSize(sb, free, Needed(b0, d0, lo, hi));
    assert forall x :: x in maps ==> sb.inodestart <= x < sb.nmeta;
    DisjointSizes(maps, DataBlocks(b, inodes[i], lo, hi), EntryBlock(b0, d0, inodes[i], lo, hi));
  }

  lemma DisjointSizes(a: set<nat>, b: set<nat>, c: set<nat>)
    requires a !! b && a !! c && b !! c
    ensures |a + b + c| == |a| + |b| + |c|
  {
    assert |a + b| == |a| + |b|;
    assert |a + b + c| == |a + b| + |c|;
  }

  lemma MetaBlocks(sb: Super, b: Image, inodes: Table, owner: seq<Owner>, i: nat)
    requires Owned(sb, b, inodes, owner) && i < |inodes|
    ensures sb.inodestart <= sb.IBlock(i) < sb.nmeta <= sb.size && !sb.IsBitmap(sb.IBlock(i))
    ensures sb.Valid()
  {
    assert i / IPB <= sb.ninodes / IPB;
  }

  lemma IndirectOwner(sb: Super, b: Image, inodes: Table, owner: seq<Owner>, i: nat)
    requires Owned(sb, b, inodes, owner) && i < |inodes| && inodes[i].addrs[NDIRECT] != 0
    ensures var x := inodes[i].addrs[NDIRECT]; x < |owner| && owner[x] == By(i, NDIRECT)
  {
    assert Ref(b, inodes[i], NDIRECT) == inodes[i].addrs[NDIRECT];
  }

  /** Freeing blocks logs bitmap blocks and nothing else. */
  ghost predicate BitmapOnly(sb: Super, before: multiset<nat>, after: multiset<nat>) {
    before <= after && forall x :: x in Since(before, after) ==> sb.IsBitmap(x)
  }

  lemma NothingLogged(sb: Super, calls: multiset<nat>)
    ensures BitmapOnly(sb, calls, calls)
  {
  }

  lemma FreedTwice(sb: Super, b0: Image, c0: multiset<nat>, b1: Image, c1: multiset<nat>, b2: Image, c2: multiset<nat>)
    requires Journaled(b0, c0, b1, c1) && Journaled(b1, c1, b2, c2) && BitmapOnly(sb, c0, c1) && BitmapOnly(sb, c1, c2)
    ensures Journaled(b0, c0, b2, c2) && BitmapOnly(sb, c0, c2)
  {
    JournaledTwice(b0, c0, b1, c1, b2, c2);
    hide Journaled;
    forall x | x in Since(c0, c2) ensures sb.IsBitmap(x) {
      assert x in Since(c0, c1) || x in Since(c1, c2);
    }
  }

  lemma InodeLogged(sb: Super, c0: multiset<nat>, c1: multiset<nat>, iblock: nat)
    requires BitmapOnly(sb, c0, c1)
    ensures iblock in Since(c0, c1 + multiset{iblock})
    ensures forall x :: x in Since(c0, c1 + multiset{iblock}) ==> sb.IsBitmap(x) || x == iblock
  {
    assert c0[iblock] <= c1[iblock];
    forall x | x in Since(c0, c1 + multiset{iblock}) ensures sb.IsBitmap(x) || x == iblock {
      assert x in Since(c0, c1) || x == iblock;
    }
  }

  lemma NothingSince()
    ensures Since(multiset{}, multiset{}) == {}
  {
  }
}
