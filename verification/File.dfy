/** filewrite of file.c: a write of any length as a sequence of transactions that fit the log. */
module Files {
  import opened Blocks
  import opened FsSpec
  import opened FsJournal
  import opened FileSystems
  import LogReservation
  import Sets

  class File {
    const ip: Inode
    var off: nat
    const writable: bool

    constructor (ip: Inode, off: nat, writable: bool)
      ensures this.ip == ip && this.off == off && this.writable == writable
    {
      this.ip, this.off, this.writable := ip, off, writable;
    }

    /**
     One transaction of filewrite: begin_op, writei of one chunk, end_op. It logs every block that it
     changes, and as many as Footprint says.
     */
    method WriteChunk(fs: FileSystem, src: seq<Byte>, i: nat, n1: nat, ghost b0: Image, ghost t0: Table,
                      ghost c0: seq<Byte>, ghost off0: nat)
      returns (ok: bool, r: int)
      requires fs.Quiet(ip) && ip.ftype != T_DEV && off < 0x1_0000_0000 && |src| < 0x8000_0000
      requires i + n1 <= |src| && 0 < n1 <= MAXCHUNK && off == off0 + i
      requires fs.OthersSame(ip, b0, t0) && Appended(c0, off0, src, i, Content(fs.blocks, ip.D()))
      modifies this`off, fs, ip`addrs, ip`size
      ensures ip.ftype == old(ip.ftype) && ip.nlink == old(ip.nlink)
      ensures ok ==> fs.Quiet(ip) && fs.OthersSame(ip, b0, t0)
      ensures ok ==> r == if Accepted(old(ip.size), old(off), n1) then n1 else -1
      ensures ok ==> off == old(off) + if r > 0 then n1 else 0
      ensures ok ==> Appended(c0, off0, src, if r > 0 then i + n1 else i, Content(fs.blocks, ip.D()))
      ensures !Accepted(old(ip.size), old(off), n1) ==>
        ok && fs.owner == old(fs.owner) && fs.blocks == old(fs.blocks) && ip.D() == old(ip.D())
      ensures Accepted(old(ip.size), old(off), n1) ==>
        (ok <==> old(Needs(fs.blocks, ip.D(), off, n1)) <= |old(FreeSet(fs.owner))|)
      ensures ok && r > 0 ==>
        FreeSet(fs.owner) == Sets.Rest(old(FreeSet(fs.owner)), old(Needs(fs.blocks, ip.D(), off, n1)))
      ensures ok && r > 0 ==>
        Grew(old(fs.blocks), old(ip.D()), fs.blocks, ip.D(), old(off) / BSIZE, EndBlock(old(off), n1))
      ensures Journaled(old(fs.blocks), multiset{}, fs.blocks, fs.calls)
      ensures fs.ops == if ok then old(fs.ops) + [Since(multiset{}, fs.calls)] else old(fs.ops)
      ensures ok ==>
        |Since(multiset{}, fs.calls)| ==
        if r > 0 then old(Footprint(fs.sb, FreeSet(fs.owner), fs.blocks, ip.D(), off, n1)) else 0
    {
      hide FileSystem.Inv, Owned, Mapped, Content, Splice, FreeSet, Since, Journaled, Grew, Needed, Needs, LoggedBy;
      hide Footprint, EndBlock, Sets.Rest;
      ghost var c1 := Content(fs.blocks, ip.D());
      fs.StartOp();
      ok, r := fs.Writei(ip, src[i..i + n1], off);
      if r > 0 {
        off := off + r;
      }
      if ok {
        if r > 0 {
          AppendMore(c0, off0, src, i, n1, c1, Content(fs.blocks, ip.D()));
        } else {
          assert Since(multiset{}, fs.calls) == {} by {
            NothingSince();
          }
        }
        fs.EndOp();
      }
    }

    /** The number of bytes that a call for n bytes stores. */
    ghost function Stores(n: nat): nat
      reads this, ip
    {
      if writable then Stored(ip.size, off, n) else 0
    }

    /**
     filewrite on an inode: the bytes go out in chunks of at most MAXCHUNK bytes, one transaction
     each. ok == false is the panic "balloc: out of blocks", which happens exactly when the bytes that
     fit below the maximal file size need more blocks than are free.
     */
    method Filewrite(fs: FileSystem, src: seq<Byte>) returns (ok: bool, r: int)
      requires fs.Quiet(ip) && ip.ftype != T_DEV && off < 0x1_0000_0000 && |src| < 0x8000_0000
      modifies this`off, fs, ip`addrs, ip`size
      ensures ip.ftype == old(ip.ftype) && ip.nlink == old(ip.nlink)
      ensures ok <==> old(Needs(fs.blocks, ip.D(), off, Stores(|src|))) <= |old(FreeSet(fs.owner))|
      ensures ok ==> fs.Quiet(ip) && fs.OthersSame(ip, old(fs.blocks), old(fs.dinodes))
      ensures ok ==> off == old(off) + old(Stores(|src|))
      ensures ok ==> Appended(old(Content(fs.blocks, ip.D())), old(off), src, old(Stores(|src|)),
        Content(fs.blocks, ip.D()))
      ensures ok ==>
        var n, c0, c := old(Stores(|src|)), old(Content(fs.blocks, ip.D())), Content(fs.blocks, ip.D());
        && n <= |src| && |c| == (if n > 0 && old(off) + n > |c0| then old(off) + n else |c0|)
        && (forall k :: 0 <= k < |c| && !(old(off) <= k < old(off) + n) ==> k < |c0| && c[k] == c0[k])
        && (n > 0 ==> old(off) + n <= |c| && c[old(off)..old(off) + n] == src[..n])
      ensures ok ==>
        FreeSet(fs.owner) == Sets.Rest(old(FreeSet(fs.owner)), old(Needs(fs.blocks, ip.D(), off, Stores(|src|))))
      ensures ok ==> r == if writable && (src == [] || Accepted(old(ip.size), old(off), |src|)) then |src| else -1
      ensures ok ==> old(Stores(|src|)) <= (|fs.ops| - |old(fs.ops)|) * MAXCHUNK
      ensures
        OpsAre(old(fs.ops), fs.ops, fs.sb, old(FreeSet(fs.owner)), old(fs.blocks), old(ip.D()), old(off),
          old(Stores(|src|)))
    {
      hide FileSystem.Inv, Owned, Mapped, Content, Splice, FreeSet, Since, Journaled, Grew, Appended, Ahead;
      hide Needs, OpsAre, Footprint, EndBlock, Sets.Rest, FileSystem.OthersSame;
      fs.Unchanged(ip);
      AppendedNothing(Content(fs.blocks, ip.D()), off, src);
      ghost var b0, d0, c0, off0, free0 := fs.blocks, ip.D(), Content(fs.blocks, ip.D()), off, FreeSet(fs.owner);
      ghost var goal := Stores(|src|);
      StoredFits(ip.size, off0, |src|);
      AheadStart(fs.ops, fs.sb, free0, b0, d0, off0, goal);
      if !writable {
        AheadMeans(fs.ops, fs.sb, free0, b0, d0, off0, goal, fs.ops, free0, b0, d0, 0);
        AppendedMeans(c0, off0, src, 0, c0);
        return true, -1;
      }
      var i := 0;
      while i < |src|
        invariant i <= goal && fs.Quiet(ip) && off == off0 + i && (i > 0 ==> off <= MAXFILE * BSIZE)
        invariant i == |src| || i % MAXCHUNK == 0
        invariant ip.ftype == old(ip.ftype) && ip.nlink == old(ip.nlink)
        invariant fs.OthersSame(ip, b0, old(fs.dinodes))
        invariant Appended(c0, off0, src, i, Content(fs.blocks, ip.D()))
        invariant Ahead(old(fs.ops), fs.sb, free0, b0, d0, off0, goal, fs.ops, FreeSet(fs.owner), fs.blocks, ip.D(), i)
      {
        var n1 := if |src| - i > MAXCHUNK then MAXCHUNK else |src| - i;
        ghost var b1, d1, ops1, free1 := fs.blocks, ip.D(), fs.ops, FreeSet(fs.owner);
        AppendedSize(c0, off0, src, i, Content(fs.blocks, ip.D()));
        ChunkAccepted(d0.size, off0, |src|, i, n1, ip.size);
        AheadSoFar(old(fs.ops), fs.sb, free0, b0, d0, off0, goal, ops1, free1, b1, d1, i, n1);
        ok, r := WriteChunk(fs, src, i, n1, b0, old(fs.dinodes), c0, off0);
        if !ok {
          return;
        }
        if r < 0 {
          AheadStop(old(fs.ops), fs.sb, free0, b0, d0, off0, goal, ops1, Since(multiset{}, fs.calls),
            FreeSet(fs.owner), b1, d1, fs.blocks, ip.D(), i);
          break;
        }
        AheadMore(old(fs.ops), fs.sb, free0, b0, d0, off0, goal, ops1, Since(multiset{}, fs.calls), free1, b1, d1,
          FreeSet(fs.owner), fs.blocks, ip.D(), i, n1);
        i := i + r;
      }
      AheadMeans(old(fs.ops), fs.sb, free0, b0, d0, off0, goal, fs.ops, FreeSet(fs.owner), fs.blocks, ip.D(), i);
      AppendedMeans(c0, off0, src, i, Content(fs.blocks, ip.D()));
      ok, r := true, if i == |src| then |src| else -1;
    }
  }

  const MAXCHUNK: nat := (LogReservation.MAXOPBLOCKS - 1 - 1 - 2) / 2 * 512

  /** What filewrite stores of n bytes at off: all of them, or the chunks that end below the maximal file size. */
  function Stored(size: nat, off: nat, n: nat): nat {
    if off > size || off > MAXFILE * BSIZE then 0
    else if off + n <= MAXFILE * BSIZE then n
    else (MAXFILE * BSIZE - off) / MAXCHUNK * MAXCHUNK
  }

  lemma StoredFits(size: nat, off: nat, n: nat)
    ensures Stored(size, off, n) <= n && (Stored(size, off, n) > 0 ==> off + Stored(size, off, n) <= MAXFILE * BSIZE)
    ensures Stored(size, off, n) == n <==> n == 0 || Accepted(size, off, n)
  {
  }

  /** filewrite goes on exactly until it has stored `Stored` bytes; size1 is the size of the file by then. */
  lemma ChunkAccepted(size: nat, off: nat, n: nat, i: nat, n1: nat, size1: nat)
    requires i < n && i % MAXCHUNK == 0 && n1 == (if n - i > MAXCHUNK then MAXCHUNK else n - i)
    requires i <= Stored(size, off, n) && size <= MAXFILE * BSIZE
    requires if i == 0 then size1 == size else off + i <= size1
    ensures Accepted(size1, off + i, n1) <==> i < Stored(size, off, n)
    ensures i < Stored(size, off, n) ==> i + n1 <= Stored(size, off, n) && (i + n1 == n || (i + n1) % MAXCHUNK == 0)
  {
    MoreChunks(i);
    if off <= size && off + n > MAXFILE * BSIZE {
      WholeChunks(MAXFILE * BSIZE - off, i);
    }
    hide MAXCHUNK;
  }

  lemma MoreChunks(i: nat)
    requires i % MAXCHUNK == 0
    ensures (i + MAXCHUNK) % MAXCHUNK == 0
  {
  }

  lemma WholeChunks(room: nat, i: nat)
    requires i % MAXCHUNK == 0 && i <= room / MAXCHUNK * MAXCHUNK
    ensures room / MAXCHUNK * MAXCHUNK <= room < room / MAXCHUNK * MAXCHUNK + MAXCHUNK
    ensures i < room / MAXCHUNK * MAXCHUNK ==> i + MAXCHUNK <= room / MAXCHUNK * MAXCHUNK
    ensures i == room / MAXCHUNK * MAXCHUNK || i < room / MAXCHUNK * MAXCHUNK
  {
    var q, k := room / 1536, i / 1536;
    assert MAXCHUNK == 1536 && i == 1536 * k && room / MAXCHUNK * MAXCHUNK == 1536 * q;
  }

  /** A chunk needs at most four blocks: if it spans four, the first of them is in the file already. */
  lemma ChunkNeeds(b: Image, d: Dinode, off: nat, n: nat)
    requires Mapped(b, d) && off <= d.size && 0 < n <= MAXCHUNK && off + n <= MAXFILE * BSIZE
    ensures Needs(b, d, off, n) <= 4 && Span(off, n) <= 4
  {
    hide Ref, Holes;
    var first, end := off / BSIZE, EndBlock(off, n);
    HolesAtMost(b, d, first, end);
    if Span(off, n) == 4 {
      assert first * BSIZE < off;
      assert Ref(b, d, Slot(first)) != 0;
    }
  }

  /** After i bytes, the next n1 bytes need what the first i + n1 need besides, and no more than `goal` bytes do. */
  lemma NeedsSplit(b0: Image, d0: Dinode, b1: Image, d1: Dinode, off: nat, i: nat, n1: nat, goal: nat)
    requires 0 < n1 && i + n1 <= goal && off + goal <= MAXFILE * BSIZE && |d0.addrs| == |d1.addrs| == NDIRECT + 1
    requires Grew(b0, d0, b1, d1, off / BSIZE, EndBlock(off, i))
    ensures Needs(b0, d0, off, i + n1) == Needs(b0, d0, off, i) + Needs(b1, d1, off + i, n1)
    ensures Needs(b0, d0, off, i + n1) <= Needs(b0, d0, off, goal)
  {
    hide Grew, Needed;
    NeededNothing(b0, d0, off / BSIZE);
    NeededSplit(b0, d0, b1, d1, off / BSIZE, (off + i) / BSIZE, EndBlock(off, i), EndBlock(off + i, n1));
    NeededGrows(b0, d0, off / BSIZE, EndBlock(off, i + n1), EndBlock(off, goal));
  }

  lemma GrewMore(b0: Image, d0: Dinode, b1: Image, d1: Dinode, b2: Image, d2: Dinode, off: nat, i: nat, n1: nat)
    requires 0 < n1
    requires Grew(b0, d0, b1, d1, off / BSIZE, EndBlock(off, i))
    requires Grew(b1, d1, b2, d2, (off + i) / BSIZE, EndBlock(off + i, n1))
    ensures Grew(b0, d0, b2, d2, off / BSIZE, EndBlock(off, i + n1))
  {
    hide Grew;
    GrewTwice(b0, d0, b1, d1, b2, d2, off / BSIZE, (off + i) / BSIZE, EndBlock(off, i), EndBlock(off + i, n1));
  }

  // ----- what the transactions of filewrite log -----

  /** The transaction for n bytes at off logs as many blocks as begin_op reserves for it, one too many. */
  ghost predicate LogsTen(sb: Super, free: set<nat>, b: Image, d: Dinode, off: nat, n: nat)
    requires |d.addrs| == NDIRECT + 1 && (n == 0 || off + n <= MAXFILE * BSIZE)
  {
    Span(off, n) == 4 && Needs(b, d, off, n) == 4 && |Bitmaps(sb, free, 4)| == 4
  }

  /**
   No chunk logs more than MAXOPBLOCKS blocks. It logs that many exactly if it spans four file blocks, takes four
   free blocks, and the four lowest free blocks have their bits in four different bitmap blocks.
   */
  lemma ChunkFootprint(sb: Super, free: set<nat>, b: Image, d: Dinode, off: nat, n: nat)
    requires Mapped(b, d) && off <= d.size && 0 < n <= MAXCHUNK && off + n <= MAXFILE * BSIZE
    requires Needs(b, d, off, n) <= |free| && forall x :: x in free ==> x < sb.size
    ensures Footprint(sb, free, b, d, off, n) <= LogReservation.MAXOPBLOCKS
    ensures Footprint(sb, free, b, d, off, n) == LogReservation.MAXOPBLOCKS <==> LogsTen(sb, free, b, d, off, n)
  {
    ChunkNeeds(b, d, off, n);
    BitmapsSize(sb, free, Needs(b, d, off, n));
    if LogsTen(sb, free, b, d, off, n) {
      AllNew(b, d, off, n);
    }
    hide Ref, Holes, Needs, EntryHoles, Bitmaps;
  }

  /** If four blocks are taken for four file blocks, the indirect block gets entries and the file grows. */
  lemma AllNew(b: Image, d: Dinode, off: nat, n: nat)
    requires Mapped(b, d) && off <= d.size && 0 < n <= MAXCHUNK && off + n <= MAXFILE * BSIZE
    requires Span(off, n) == 4 && Needs(b, d, off, n) == 4
    ensures EntryHoles(b, d, off / BSIZE, EndBlock(off, n)) && Grows(d.size, off, n)
  {
    hide Ref, Holes;
    var first, end := off / BSIZE, EndBlock(off, n);
    HolesAtMost(b, d, first, end);
    ChunkNeeds(b, d, off, n);
    assert first * BSIZE < off;
    assert Ref(b, d, Slot(first)) != 0;
    assert NDIRECT < end && d.addrs[NDIRECT] == 0;
    RefsOf(b, d, end - 1);
    assert Ref(b, d, Slot(end - 1)) == 0;
  }

  function Beyond(x: nat, y: nat): nat {
    if x < y then y - x else 0
  }

  /**
   What the transaction logs that writes n1 bytes after the first i bytes of a write at off, in terms of the state in
   which the write begins.
   */
  ghost function LaterFootprint(sb: Super, free: set<nat>, b: Image, d: Dinode, off: nat, i: nat, n1: nat): nat
    requires |d.addrs| == NDIRECT + 1 && off + i + n1 <= MAXFILE * BSIZE
  {
    var before := Needs(b, d, off, i);
    EndInFile(off, i);
    EndInFile(off, i + n1);
    |Bitmaps(sb, Sets.Rest(free, before), Beyond(before, Needs(b, d, off, i + n1)))| + Span(off + i, n1) +
    (if EntryHoles(b, d, EndBlock(off, i), EndBlock(off, i + n1)) then 1 else 0) +
    if off + i + n1 > d.size then 1 else 0
  }

  /** It is what the footprint of the chunk is when its turn comes. */
  lemma FootprintLater(sb: Super, free: set<nat>, b0: Image, d0: Dinode, b1: Image, d1: Dinode, off: nat, i: nat,
                       n1: nat)
    requires 0 < n1 && off + i + n1 <= MAXFILE * BSIZE && |d0.addrs| == |d1.addrs| == NDIRECT + 1
    requires Grew(b0, d0, b1, d1, off / BSIZE, EndBlock(off, i))
    requires d1.size == if i > 0 && off + i > d0.size then off + i else d0.size
    ensures Footprint(sb, Sets.Rest(free, Needs(b0, d0, off, i)), b1, d1, off + i, n1) ==
            LaterFootprint(sb, free, b0, d0, off, i, n1)
  {
    hide Ref, Needs, EntryHoles, Bitmaps, Grew, EndBlock, Span, Sets.Rest;
    NeedsSplit(b0, d0, b1, d1, off, i, n1, i + n1);
    EndInFile(off, i + n1);
    StartsBefore(off, i, n1);
    LaterHoles(b0, d0, b1, d1, off / BSIZE, (off + i) / BSIZE, EndBlock(off, i), EndBlock(off, i + n1));
    SameEnd(off, i, n1);
  }

  lemma StartsBefore(off: nat, i: nat, n1: nat)
    ensures off / BSIZE <= (off + i) / BSIZE <= EndBlock(off, i) <= EndBlock(off, i + n1)
  {
  }

  lemma SameEnd(off: nat, i: nat, n1: nat)
    requires n1 > 0
    ensures EndBlock(off + i, n1) == EndBlock(off, i + n1)
  {
  }

  lemma LaterHoles(b0: Image, d0: Dinode, b1: Image, d1: Dinode, lo: nat, start: nat, mid: nat, hi: nat)
    requires Grew(b0, d0, b1, d1, lo, mid) && lo <= start <= mid <= hi <= MAXFILE
    ensures EntryHoles(b1, d1, start, hi) <==> EntryHoles(b0, d0, mid, hi)
  {
    hide Ref;
    if EntryHoles(b0, d0, mid, hi) {
      var bn: nat {:trigger Slot(bn)} :| mid <= bn < hi && NDIRECT <= bn && Ref(b0, d0, Slot(bn)) == 0;
      assert Ref(b1, d1, Slot(bn)) == 0;
    }
    if EntryHoles(b1, d1, start, hi) {
      var bn: nat {:trigger Slot(bn)} :| start <= bn < hi && NDIRECT <= bn && Ref(b1, d1, Slot(bn)) == 0;
      assert mid <= bn && Ref(b0, d0, Slot(bn)) == 0;
    }
  }

  /** The size of the transaction that starts after i of the `stored` bytes; beyond them it logs nothing. */
  ghost function OpSize(sb: Super, free: set<nat>, b: Image, d: Dinode, off: nat, stored: nat, i: nat): nat
    requires |d.addrs| == NDIRECT + 1 && (stored > 0 ==> off + stored <= MAXFILE * BSIZE)
  {
    if i >= stored then 0
    else LaterFootprint(sb, free, b, d, off, i, if stored - i > MAXCHUNK then MAXCHUNK else stored - i)
  }

  /** The transactions that finished between two moments are the first ones of a write of `stored` bytes at off. */
  ghost predicate OpsAre(before: seq<set<nat>>, after: seq<set<nat>>, sb: Super, free: set<nat>, b: Image, d: Dinode,
                         off: nat, stored: nat) {
    && |d.addrs| == NDIRECT + 1 && (stored > 0 ==> off + stored <= MAXFILE * BSIZE)
    && before <= after
    && forall k {:trigger after[k]} :: |before| <= k < |after| ==>
         |after[k]| == OpSize(sb, free, b, d, off, stored, (k - |before|) * MAXCHUNK)
  }

  /** The next transaction of the same write. */
  lemma NextOp(before: seq<set<nat>>, ops: seq<set<nat>>, op: set<nat>, sb: Super, free: set<nat>, b: Image, d: Dinode,
               off: nat, stored: nat)
    requires OpsAre(before, ops, sb, free, b, d, off, stored)
    requires |op| == OpSize(sb, free, b, d, off, stored, (|ops| - |before|) * MAXCHUNK)
    ensures OpsAre(before, ops + [op], sb, free, b, d, off, stored)
  {
    hide OpSize, MAXCHUNK;
  }

  /**
   filewrite after i of the bytes that it will store: the blocks mapped so far, the free blocks left and the
   transactions so far.
   */
  ghost predicate Ahead(before: seq<set<nat>>, sb: Super, free0: set<nat>, b0: Image, d0: Dinode, off: nat, goal: nat,
                        ops: seq<set<nat>>, free: set<nat>, b: Image, d: Dinode, i: nat) {
    && i <= goal && OpsAre(before, ops, sb, free0, b0, d0, off, goal)
    && (goal > 0 ==> Grew(b0, d0, b, d, off / BSIZE, EndBlock(off, i)))
    && Needs(b0, d0, off, i) <= |free0| && free == Sets.Rest(free0, Needs(b0, d0, off, i))
    && (i == (|ops| - |before|) * MAXCHUNK || goal == i <= (|ops| - |before|) * MAXCHUNK)
  }

  lemma AheadStart(before: seq<set<nat>>, sb: Super, free: set<nat>, b: Image, d: Dinode, off: nat, goal: nat)
    requires |d.addrs| == NDIRECT + 1 && (goal > 0 ==> off + goal <= MAXFILE * BSIZE)
    ensures Ahead(before, sb, free, b, d, off, goal, before, free, b, d, 0)
  {
    NoOps(before, sb, free, b, d, off, goal);
    if goal > 0 {
      GrewNothing(b, d, off / BSIZE, off / BSIZE);
    }
  }

  lemma AheadMeans(before: seq<set<nat>>, sb: Super, free0: set<nat>, b0: Image, d0: Dinode, off: nat, goal: nat,
                   ops: seq<set<nat>>, free: set<nat>, b: Image, d: Dinode, i: nat)
    requires Ahead(before, sb, free0, b0, d0, off, goal, ops, free, b, d, i)
    ensures OpsAre(before, ops, sb, free0, b0, d0, off, goal) && |before| <= |ops|
    ensures Needs(b0, d0, off, i) <= |free0| && free == Sets.Rest(free0, Needs(b0, d0, off, i))
    ensures i <= (|ops| - |before|) * MAXCHUNK
  {
  }

  /** What the next chunk lacks is lacking for the whole write. */
  lemma AheadSoFar(before: seq<set<nat>>, sb: Super, free0: set<nat>, b0: Image, d0: Dinode, off: nat, goal: nat,
                   ops: seq<set<nat>>, free: set<nat>, b: Image, d: Dinode, i: nat, n1: nat)
    requires Ahead(before, sb, free0, b0, d0, off, goal, ops, free, b, d, i) && 0 < n1 && |d.addrs| == NDIRECT + 1
    ensures OpsAre(before, ops, sb, free0, b0, d0, off, goal)
    ensures i + n1 <= goal && Needs(b, d, off + i, n1) > |free| ==> Needs(b0, d0, off, goal) > |free0|
  {
    hide Grew, OpsAre, Needs;
    if i + n1 <= goal {
      OpsFit(before, ops, sb, free0, b0, d0, off, goal);
      NeedsSplit(b0, d0, b, d, off, i, n1, goal);
      Sets.LowestSize(free0, Needs(b0, d0, off, i));
    }
  }

  lemma OpsFit(before: seq<set<nat>>, ops: seq<set<nat>>, sb: Super, free: set<nat>, b: Image, d: Dinode, off: nat,
               goal: nat)
    requires OpsAre(before, ops, sb, free, b, d, off, goal)
    ensures |d.addrs| == NDIRECT + 1 && (goal > 0 ==> off + goal <= MAXFILE * BSIZE) && |before| <= |ops|
  {
  }

  /** One more chunk is written. */
  lemma AheadMore(before: seq<set<nat>>, sb: Super, free0: set<nat>, b0: Image, d0: Dinode, off: nat, goal: nat,
                  ops: seq<set<nat>>, op: set<nat>, free1: set<nat>, b1: Image, d1: Dinode, free: set<nat>, b: Image,
                  d: Dinode, i: nat, n1: nat)
    requires Ahead(before, sb, free0, b0, d0, off, goal, ops, free1, b1, d1, i)
    requires 0 < n1 && i + n1 <= goal && n1 == (if goal - i > MAXCHUNK then MAXCHUNK else goal - i)
    requires |d1.addrs| == NDIRECT + 1 && d1.size == if i > 0 && off + i > d0.size then off + i else d0.size
    requires off + i + n1 <= MAXFILE * BSIZE && Needs(b1, d1, off + i, n1) <= |free1|
    requires free == Sets.Rest(free1, Needs(b1, d1, off + i, n1))
    requires Grew(b1, d1, b, d, (off + i) / BSIZE, EndBlock(off + i, n1))
    requires |op| == Footprint(sb, free1, b1, d1, off + i, n1)
    ensures Ahead(before, sb, free0, b0, d0, off, goal, ops + [op], free, b, d, i + n1)
  {
    hide Grew, OpsAre, Needs, Footprint, Sets.Rest, EndBlock;
    OpsFit(before, ops, sb, free0, b0, d0, off, goal);
    MoreTaken(free0, b0, d0, free1, b1, d1, off, i, n1);
    MoreLogged(before, ops, op, sb, free0, b0, d0, b1, d1, off, goal, i, n1);
    GrewMore(b0, d0, b1, d1, b, d, off, i, n1);
  }

  lemma MoreTaken(free0: set<nat>, b0: Image, d0: Dinode, free1: set<nat>, b1: Image, d1: Dinode, off: nat, i: nat,
                  n1: nat)
    requires 0 < n1 && off + i + n1 <= MAXFILE * BSIZE && |d0.addrs| == |d1.addrs| == NDIRECT + 1
    requires Grew(b0, d0, b1, d1, off / BSIZE, EndBlock(off, i)) && Needs(b0, d0, off, i) <= |free0|
    requires free1 == Sets.Rest(free0, Needs(b0, d0, off, i)) && Needs(b1, d1, off + i, n1) <= |free1|
    ensures Needs(b0, d0, off, i + n1) <= |free0|
    ensures Sets.Rest(free1, Needs(b1, d1, off + i, n1)) == Sets.Rest(free0, Needs(b0, d0, off, i + n1))
  {
    hide Grew, Needs, Sets.Rest;
    NeedsSplit(b0, d0, b1, d1, off, i, n1, i + n1);
    Sets.LowestSize(free0, Needs(b0, d0, off, i));
    Sets.LowestTwice(free0, Needs(b0, d0, off, i), Needs(b1, d1, off + i, n1));
  }

  lemma MoreLogged(before: seq<set<nat>>, ops: seq<set<nat>>, op: set<nat>, sb: Super, free0: set<nat>, b0: Image,
                   d0: Dinode, b1: Image, d1: Dinode, off: nat, goal: nat, i: nat, n1: nat)
    requires OpsAre(before, ops, sb, free0, b0, d0, off, goal) && |before| <= |ops|
    requires 0 < n1 && i + n1 <= goal && n1 == (if goal - i > MAXCHUNK then MAXCHUNK else goal - i)
    requires off + goal <= MAXFILE * BSIZE && |d0.addrs| == |d1.addrs| == NDIRECT + 1
    requires i == (|ops| - |before|) * MAXCHUNK
    requires Grew(b0, d0, b1, d1, off / BSIZE, EndBlock(off, i))
    requires d1.size == if i > 0 && off + i > d0.size then off + i else d0.size
    requires |op| == Footprint(sb, Sets.Rest(free0, Needs(b0, d0, off, i)), b1, d1, off + i, n1)
    ensures OpsAre(before, ops + [op], sb, free0, b0, d0, off, goal)
  {
    hide Grew, OpsAre, Needs, Footprint, LaterFootprint, Sets.Rest, MAXCHUNK;
    FootprintLater(sb, free0, b0, d0, b1, d1, off, i, n1);
    NextOp(before, ops, op, sb, free0, b0, d0, off, goal);
  }

  /** The chunk that does not fit the file logs nothing. */
  lemma AheadStop(before: seq<set<nat>>, sb: Super, free0: set<nat>, b0: Image, d0: Dinode, off: nat, goal: nat,
                  ops: seq<set<nat>>, op: set<nat>, free: set<nat>, b1: Image, d1: Dinode, b: Image, d: Dinode, i: nat)
    requires Ahead(before, sb, free0, b0, d0, off, goal, ops, free, b1, d1, i) && i == goal && op == {}
    requires b == b1 && d == d1
    ensures Ahead(before, sb, free0, b0, d0, off, goal, ops + [op], free, b, d, i)
  {
    hide Grew, Needs;
    OpsFit(before, ops, sb, free0, b0, d0, off, goal);
    NextOp(before, ops, op, sb, free0, b0, d0, off, goal);
  }

  lemma NoOps(ops: seq<set<nat>>, sb: Super, free: set<nat>, b: Image, d: Dinode, off: nat, stored: nat)
    requires |d.addrs| == NDIRECT + 1 && (stored > 0 ==> off + stored <= MAXFILE * BSIZE)
    ensures OpsAre(ops, ops, sb, free, b, d, off, stored)
  {
  }

  /** c is c0 after the first i bytes of src were written at off. */
  ghost predicate Appended(c0: seq<Byte>, off: nat, src: seq<Byte>, i: nat, c: seq<Byte>) {
    if i == 0 then c == c0 else i <= |src| && off <= |c0| && c == Splice(c0, off, src[..i])
  }

  lemma AppendedMeans(c0: seq<Byte>, off: nat, src: seq<Byte>, n: nat, c: seq<Byte>)
    requires Appended(c0, off, src, n, c) && n <= |src|
    ensures |c| == if n > 0 && off + n > |c0| then off + n else |c0|
    ensures forall k :: 0 <= k < |c| && !(off <= k < off + n) ==> k < |c0| && c[k] == c0[k]
    ensures n > 0 ==> off + n <= |c| && c[off..off + n] == src[..n]
  {
    if n > 0 {
      SpliceMeans(c0, off, src[..n]);
      hide Splice;
    }
  }

  lemma AppendMore(c0: seq<Byte>, off: nat, src: seq<Byte>, i: nat, n1: nat, c1: seq<Byte>, c2: seq<Byte>)
    requires Appended(c0, off, src, i, c1) && 0 < n1 && i + n1 <= |src|
    requires off + i <= |c1| && c2 == Splice(c1, off + i, src[i..i + n1])
    ensures Appended(c0, off, src, i + n1, c2)
  {
    if i == 0 {
      assert src[0..n1] == src[..n1];
    } else {
      SpliceTwice(c0, off, src[..i], src[i..i + n1]);
      assert src[..i] + src[i..i + n1] == src[..i + n1];
    }
  }

  lemma AppendedSize(c0: seq<Byte>, off: nat, src: seq<Byte>, i: nat, c: seq<Byte>)
    requires Appended(c0, off, src, i, c)
    ensures i > 0 ==> off <= |c0| && |c| == if off + i > |c0| then off + i else |c0|
    ensures i == 0 ==> |c| == |c0|
  {
  }

  lemma AppendedNothing(c0: seq<Byte>, off: nat, src: seq<Byte>)
    ensures Appended(c0, off, src, 0, c0)
  {
  }
}
