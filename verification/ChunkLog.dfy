/**
 Whether the transactions of filewrite fit the log: the exact condition on the free blocks, and a disk on which a
 chunk does log as many blocks as begin_op reserves.
 */
module ChunkLogs {
  import opened Blocks
  import opened FsSpec
  import opened FsImages
  import opened FsJournal
  import opened FileSystems
  import opened Files
  import LogReservation
  import Sets

  /** A transaction of filewrite at its begin_op: n bytes at off of inode d, with these blocks free. */
  datatype Chunk = Chunk(free: set<nat>, b: Image, d: Dinode, off: nat, n: nat) {
    ghost predicate Possible(sb: Super) {
      && Mapped(b, d) && off <= d.size && 0 < n <= MAXCHUNK && off + n <= MAXFILE * BSIZE
      && Needs(b, d, off, n) <= |free| && forall x :: x in free ==> x < sb.size
    }

    ghost predicate LogsTen(sb: Super)
      requires Possible(sb)
    {
      Files.LogsTen(sb, free, b, d, off, n)
    }

    ghost function Footprint(sb: Super): nat
      requires Possible(sb)
    {
      FileSystems.Footprint(sb, free, b, d, off, n)
    }
  }

  /**
   The transactions of any calls of filewrite, interleaved in any way, never reach the panic of log_write as long as
   none of them needs four blocks from four bitmap blocks for four file blocks.
   */
  lemma FilewriteFitsLog(sb: Super, chunks: seq<Chunk>, ops: seq<set<nat>>, steps: seq<LogReservation.Step>)
    requires |ops| == |chunks|
    requires forall k :: 0 <= k < |ops| ==>
      chunks[k].Possible(sb) && |ops[k]| == chunks[k].Footprint(sb) && !chunks[k].LogsTen(sb)
    requires LogReservation.Planned(LogReservation.INITIAL, [], ops, steps)
    ensures LogReservation.IsRun(LogReservation.INITIAL, steps, LogReservation.MAXOPBLOCKS - 1)
    ensures !LogReservation.TooBig(LogReservation.Run(LogReservation.INITIAL, steps, LogReservation.MAXOPBLOCKS - 1))
  {
    forall k | 0 <= k < |ops| ensures |ops[k]| <= LogReservation.MAXOPBLOCKS - 1 {
      var c := chunks[k];
      ChunkFootprint(sb, c.free, c.b, c.d, c.off, c.n);
    }
    LogReservation.FootprintsSuffice(ops, steps, LogReservation.MAXOPBLOCKS - 1);
  }

  /** Every write of a disk with up to three bitmap blocks fits. */
  lemma SmallDisk(sb: Super, c: Chunk)
    requires c.Possible(sb) && sb.BitmapBlocks() <= 3
    ensures !c.LogsTen(sb)
  {
    if c.LogsTen(sb) {
      BitmapsSize(sb, c.free, 4);
    }
  }

  // ----- every pattern of allocated blocks occurs -----

  ghost predicate FollowsIndirect(plan: seq<Owner>, b: nat)
    requires b < |plan| && plan[b].By?
  {
    plan[b].s > NDIRECT ==> exists c :: 0 <= c < b && plan[c] == By(plan[b].i, NDIRECT)
  }

  /** One owner for each block, no slot twice, entries behind their indirect blocks. */
  ghost predicate Plan(sb: Super, plan: seq<Owner>) {
    && sb.Valid() && MetaFirst(sb, plan) && NoneHeld(plan)
    && (forall b :: 0 <= b < |plan| && plan[b].By? ==>
          plan[b].i < sb.ninodes && plan[b].s < NSLOTS && FollowsIndirect(plan, b))
    && forall b, c :: 0 <= b < |plan| && 0 <= c < |plan| && plan[b].By? && plan[c] == plan[b] ==> b == c
  }

  /** The blocks below k have their owners, the others behind the metadata are free. */
  ghost function UpTo(sb: Super, plan: seq<Owner>, k: nat): (r: seq<Owner>)
    requires sb.nmeta <= k <= |plan|
    ensures |r| == |plan|
  {
    seq(|plan|, (b: nat) requires b < |plan| => if b < k then plan[b] else Free)
  }

  ghost predicate SameFiles(a: Table, b: Table) {
    |a| == |b| && forall i :: 0 <= i < |a| ==> a[i].(addrs := b[i].addrs) == b[i]
  }

  /** Giving a free block to an empty slot: what balloc and bmap do between them. */
  lemma GiveBlock(sb: Super, blocks: Image, inodes: Table, owner: seq<Owner>, b: nat, i: nat, s: nat)
    returns (blocks': Image, inodes': Table)
    requires Owned(sb, blocks, inodes, owner) && b < sb.size && owner[b] == Free && i < |inodes| && s < NSLOTS
    requires Ref(blocks, inodes[i], s) == 0 && (s > NDIRECT ==> inodes[i].addrs[NDIRECT] != 0)
    ensures Owned(sb, blocks', inodes', owner[b := By(i, s)]) && SameFiles(inodes, inodes')
  {
    hide Ref;
    PutBitOwned(sb, blocks, inodes, owner, b, true);
    var marked, held := PutBit(sb, blocks, b, true), owner[b := Held];
    DataWriteOwned(sb, marked, inodes, held, b, ZERO_BLOCK);
    var zeroed := marked[b := ZERO_BLOCK];
    RefsOf(blocks, inodes[i], 0);
    if s <= NDIRECT {
      SlotIsAddr(blocks, inodes[i], s);
      LinkDirect(sb, zeroed, inodes, held, i, s, b);
      blocks', inodes' := zeroed, inodes[i := inodes[i].(addrs := inodes[i].addrs[s := b])];
      assert held[b := By(i, s)] == owner[b := By(i, s)];
    } else {
      var bb := sb.BBlock(b);
      assert marked == blocks[bb := marked[bb]];
      RefFrame(blocks, bb, marked[bb], inodes[i], s);
      NotIndirect(sb, marked, inodes, held, b, i);
      RefFrame(marked, b, ZERO_BLOCK, inodes[i], s);
      LinkIndirect(sb, zeroed, inodes, held, i, s - NDIRECT - 1, b);
      var x := inodes[i].addrs[NDIRECT];
      blocks', inodes' := zeroed[x := PutWord(zeroed[x], s - NDIRECT - 1, b)], inodes;
      assert held[b := By(i, s)] == owner[b := By(i, s)];
    }
  }

  lemma SlotIsAddr(b: Image, d: Dinode, s: nat)
    requires |d.addrs| == NDIRECT + 1 && s <= NDIRECT
    ensures Ref(b, d, s) == d.addrs[s]
  {
  }

  /** The slot that the plan fills with block k is empty before, and its indirect block is there. */
  lemma SlotIsEmpty(sb: Super, plan: seq<Owner>, k: nat, blocks: Image, inodes: Table)
    requires Plan(sb, plan) && sb.nmeta <= k < |plan| && plan[k].By?
    requires Owned(sb, blocks, inodes, UpTo(sb, plan, k))
    ensures var i, s := plan[k].i, plan[k].s;
      i < |inodes| && s < NSLOTS && Ref(blocks, inodes[i], s) == 0 && (s > NDIRECT ==> inodes[i].addrs[NDIRECT] != 0)
  {
    hide Ref;
    var i, s, owner := plan[k].i, plan[k].s, UpTo(sb, plan, k);
    if Ref(blocks, inodes[i], s) != 0 {
      assert false;
    }
    if s > NDIRECT {
      assert FollowsIndirect(plan, k);
      var c :| 0 <= c < k && plan[c] == By(i, NDIRECT);
      assert owner[c] == By(i, NDIRECT) && c >= sb.nmeta;
      SlotIsAddr(blocks, inodes[i], NDIRECT);
    }
  }

  /** Every plan is the ownership of some disk, whatever the other fields of the inodes are. */
  lemma {:induction false} Realize(sb: Super, plan: seq<Owner>, files: Table, k: nat)
    returns (blocks: Image, inodes: Table)
    requires Plan(sb, plan) && |files| == sb.ninodes && GoodTable(files) && sb.nmeta <= k <= |plan|
    requires forall i :: 0 <= i < |files| ==> files[i].addrs == seq(NDIRECT + 1, _ => 0)
    ensures Owned(sb, blocks, inodes, UpTo(sb, plan, k)) && SameFiles(files, inodes)
  {
    hide Owned, Ref, Bit;
    if k == sb.nmeta {
      var zero := seq(sb.size, _ => ZERO_BLOCK);
      blocks := FirstBits(sb, zero, k);
      inodes := files;
      EmptyOwned(sb, blocks, files, UpTo(sb, plan, k));
    } else {
      blocks, inodes := Realize(sb, plan, files, k - 1);
      var owner := UpTo(sb, plan, k - 1);
      if plan[k - 1].By? {
        SlotIsEmpty(sb, plan, k - 1, blocks, inodes);
        blocks, inodes := GiveBlock(sb, blocks, inodes, owner, k - 1, plan[k - 1].i, plan[k - 1].s);
        assert owner[k - 1 := plan[k - 1]] == UpTo(sb, plan, k);
      } else {
        assert plan[k - 1] == Free && owner == UpTo(sb, plan, k);
      }
    }
  }

  // ----- a disk with four free blocks in four bitmap blocks -----

  const DISK: Super := Super(16366, 32, 4079, 4083, 32368)

  /** Behind the metadata, twelve blocks of inode 0; then every 4090th block is free and the others fill 87 inodes. */
  function OwnerOf(b: nat): Owner {
    if b < 4083 then Meta
    else if b < 4095 then By(0, b - 4083)
    else if (b - 4095) % 4090 == 0 then Free
    else
      var t := (b - 4095) % 4090 - 1;
      By(1 + (b - 4095) / 4090 * 29 + t / 141, t % 141)
  }

  /** Where an inode other than 0 has the block of slot s. */
  function PlaceOf(i: nat, s: nat): int {
    4095 + (i - 1) / 29 * 4090 + 1 + (i - 1) % 29 * 141 + s
  }

  lemma OwnerPlace(b: nat)
    requires b >= 4095 && (b - 4095) % 4090 != 0
    ensures OwnerOf(b).By? && OwnerOf(b).i >= 1 && OwnerOf(b).s < 141 && PlaceOf(OwnerOf(b).i, OwnerOf(b).s) == b
    ensures OwnerOf(b).i <= 29 * ((b - 4095) / 4090 + 1)
  {
    var q, t := (b - 4095) / 4090, (b - 4095) % 4090 - 1;
    assert b - 4095 == 4090 * q + t + 1;
    var u, s := t / 141, t % 141;
    assert t == 141 * u + s && u < 29;
    assert (29 * q + u) / 29 == q && (29 * q + u) % 29 == u;
  }

  /** The indirect block of a slot behind it comes first. */
  lemma IndirectBefore(b: nat)
    requires OwnerOf(b).By? && OwnerOf(b).s > NDIRECT
    ensures 4083 <= b + NDIRECT - OwnerOf(b).s < b && OwnerOf(b + NDIRECT - OwnerOf(b).s) == By(OwnerOf(b).i, NDIRECT)
  {
    var q, t := (b - 4095) / 4090, (b - 4095) % 4090 - 1;
    var u, s := t / 141, t % 141;
    assert t == 141 * u + s && b - 4095 == 4090 * q + t + 1;
    var c, t' := b + 12 - s, 141 * u + 12;
    assert c - 4095 == 4090 * q + t' + 1;
    assert (c - 4095) / 4090 == q && (c - 4095) % 4090 == t' + 1;
    assert t' / 141 == u && t' % 141 == 12;
  }

  ghost function ThePlan(): (plan: seq<Owner>)
    ensures |plan| == 16366 && forall b :: 0 <= b < |plan| ==> plan[b] == OwnerOf(b)
  {
    seq(16366, (b: nat) => OwnerOf(b))
  }

  lemma PlanIsPlan()
    ensures Plan(DISK, ThePlan())
  {
    hide OwnerOf, PlaceOf;
    var plan := ThePlan();
    forall b | 0 <= b < |plan| ensures plan[b] != Held && (plan[b] == Meta <==> b < 4083) {
      OwnerRange(b);
    }
    forall b | 0 <= b < |plan| && plan[b].By?
      ensures plan[b].i < 32368 && plan[b].s < NSLOTS && FollowsIndirect(plan, b)
    {
      OwnerRange(b);
      if plan[b].s > NDIRECT {
        IndirectBefore(b);
        assert plan[b + NDIRECT - plan[b].s] == By(plan[b].i, NDIRECT);
      }
    }
    forall b, c | 0 <= b < |plan| && 0 <= c < |plan| && plan[b].By? && plan[c] == plan[b] ensures b == c {
      OwnerRange(b);
      OwnerRange(c);
    }
  }

  /** The owners of the blocks of the disk; no two slots have the same place. */
  lemma OwnerRange(b: nat)
    requires b < 16366
    ensures OwnerOf(b) != Held && (OwnerOf(b) == Meta <==> b < 4083)
    ensures OwnerOf(b) == Free <==> b in {4095, 8185, 12275, 16365}
    ensures OwnerOf(b).By? ==>
      && OwnerOf(b).i <= 87 && OwnerOf(b).s < NSLOTS
      && (if OwnerOf(b).i == 0 then OwnerOf(b).s < NDIRECT && b == 4083 + OwnerOf(b).s
          else b == PlaceOf(OwnerOf(b).i, OwnerOf(b).s))
  {
    if b >= 4095 && (b - 4095) % 4090 != 0 {
      OwnerPlace(b);
      hide PlaceOf;
    }
  }

  /** The files before any block is given to them: inode 0 is to end in the middle of its last direct block. */
  ghost function Files0(): (files: Table)
    ensures |files| == 32368 && GoodTable(files)
    ensures forall i :: 0 <= i < |files| ==>
      files[i] == Dinode(2, 0, 0, 1, if i == 0 then 5888 else 0, seq(NDIRECT + 1, _ => 0))
  {
    seq(32368, (i: nat) => Dinode(2, 0, 0, 1, if i == 0 then 5888 else 0, seq(NDIRECT + 1, _ => 0)))
  }

  /**
   There is a sound file system with four bitmap blocks in which a chunk of filewrite is possible and logs
   MAXOPBLOCKS blocks, one more than is sure to fit.
   */
  lemma SomeChunkLogsTen()
    ensures DISK.BitmapBlocks() == 4
    ensures exists blocks, inodes, owner ::
      && Owned(DISK, blocks, inodes, owner) && NoneHeld(owner) && AllMapped(blocks, inodes)
      && TenFor(Chunk(FreeSet(owner), blocks, inodes[0], 5888, MAXCHUNK))
  {
    PlanIsPlan();
    var plan := ThePlan();
    var blocks, inodes := Realize(DISK, plan, Files0(), |plan|);
    assert UpTo(DISK, plan, |plan|) == plan;
    FileZero(blocks, inodes, plan);
    FourFree(plan);
    var c := Chunk(FreeSet(plan), blocks, inodes[0], 5888, MAXCHUNK);
    assert c.Possible(DISK) && c.LogsTen(DISK);
    ChunkFootprint(DISK, c.free, c.b, c.d, c.off, c.n);
    assert TenFor(c);
  }

  ghost predicate AllMapped(blocks: Image, inodes: Table) {
    0 < |inodes| && forall i :: 0 <= i < |inodes| ==> Mapped(blocks, inodes[i])
  }

  ghost predicate TenFor(c: Chunk) {
    c.Possible(DISK) && c.Footprint(DISK) == LogReservation.MAXOPBLOCKS
  }

  lemma FileZero(blocks: Image, inodes: Table, plan: seq<Owner>)
    requires plan == ThePlan() && Owned(DISK, blocks, inodes, plan) && SameFiles(Files0(), inodes)
    ensures AllMapped(blocks, inodes) && inodes[0].size == 5888
    ensures Span(5888, MAXCHUNK) == 4 && Needs(blocks, inodes[0], 5888, MAXCHUNK) == 4
  {
    var d := inodes[0];
    assert Files0()[0].(addrs := d.addrs) == d;
    forall bn {:trigger Slot(bn)} | 0 <= bn < MAXFILE ensures Ref(blocks, d, Slot(bn)) != 0 <==> bn < NDIRECT {
      SlotOfZero(blocks, inodes, plan, Slot(bn));
    }
    SlotOfZero(blocks, inodes, plan, NDIRECT);
    SlotIsAddr(blocks, d, NDIRECT);
    hide Ref;
    forall i | 0 <= i < |inodes| ensures Mapped(blocks, inodes[i]) {
      assert Files0()[i].(addrs := inodes[i].addrs) == inodes[i];
    }
    assert EndBlock(5888, MAXCHUNK) == 15;
    assert Holes(blocks, d, 11, 12) == 0;
    assert Holes(blocks, d, 11, 13) == 1;
    assert Holes(blocks, d, 11, 15) == 3;
  }

  lemma SlotOfZero(blocks: Image, inodes: Table, plan: seq<Owner>, s: nat)
    requires plan == ThePlan() && Owned(DISK, blocks, inodes, plan) && |inodes| == 32368 && s < NSLOTS
    ensures Ref(blocks, inodes[0], s) != 0 <==> s < NDIRECT
  {
    hide Ref, PlaceOf;
    if s < NDIRECT {
      assert plan[4083 + s] == By(0, s);
    } else if Ref(blocks, inodes[0], s) != 0 {
      OwnerRange(Ref(blocks, inodes[0], s));
      assert false;
    }
  }

  lemma FourFree(plan: seq<Owner>)
    requires plan == ThePlan()
    ensures |FreeSet(plan)| == 4 && |Bitmaps(DISK, FreeSet(plan), 4)| == 4
  {
    hide OwnerOf, Sets.Lowest, DISK;
    TheFree(plan);
    Sets.LowestAll(FreeSet(plan));
    FourBitmaps();
  }

  lemma TheFree(plan: seq<Owner>)
    requires plan == ThePlan()
    ensures FreeSet(plan) == {4095, 8185, 12275, 16365}
  {
    hide OwnerOf, PlaceOf;
    forall b | 0 <= b < |plan| ensures plan[b] == Free <==> b in {4095, 8185, 12275, 16365} {
      OwnerRange(b);
    }
  }

  lemma FourBitmaps()
    ensures BitmapOf(DISK, {4095, 8185, 12275, 16365}) == {4079, 4080, 4081, 4082}
  {
    assert DISK.BBlock(4095) == 4079 && DISK.BBlock(8185) == 4080 && DISK.BBlock(12275) == 4081;
    assert DISK.BBlock(16365) == 4082;
  }
}
