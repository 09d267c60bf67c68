/**
 The buffer cache of bio.c over one disk.

 The abstract value of the cache is `view`, the contents every block appears to have: the cached
 data if the block is cached, else what is on the disk. The cache may differ from the disk only
 at blocks that are pinned (`dirty`, B_DIRTY set by log_write) or whose buffer is held by a caller.
 */
module BufferCaches {
  import opened Blocks
  import opened Disks
  import Sets

  const NBUF: nat := 30
  const HEAD: nat := 30     // the list head, stored after the NBUF buffers
  const ROOTDEV: nat := 1

  datatype Buf = Buf(valid: bool, dirty: bool, dev: nat, blockno: nat, refcnt: nat,
                     prev: nat, next: nat, data: Block)
  {
    predicate Free() {
      refcnt == 0 && !dirty
    }

    predicate Holds(b: nat) {
      dev == ROOTDEV && blockno == b
    }
  }

  // ----- the circular list -----

  /** `order` lists every buffer once, most recently used first; `rank` is its inverse. */
  ghost predicate IsOrder(order: seq<nat>, rank: seq<nat>) {
    && |order| == NBUF && |rank| == NBUF
    && (forall k :: 0 <= k < NBUF ==> order[k] < NBUF && rank[order[k]] == k)
    && forall i :: 0 <= i < NBUF ==> rank[i] < NBUF && order[rank[i]] == i
  }

  /** The buffer at place k of the ring; the head sits at places -1 and NBUF. */
  ghost function At(order: seq<nat>, k: int): nat
    requires |order| == NBUF && -1 <= k <= NBUF
  {
    if k == -1 || k == NBUF then HEAD else order[k]
  }

  /** next and prev of every buffer and of the head follow `order`. */
  ghost predicate Ring(bs: seq<Buf>, order: seq<nat>, rank: seq<nat>) {
    && |bs| == NBUF + 1
    && IsOrder(order, rank)
    && bs[HEAD].next == order[0]
    && bs[HEAD].prev == order[NBUF - 1]
    && (forall i {:trigger bs[i].next} :: 0 <= i < NBUF ==> bs[i].next == At(order, rank[i] + 1))
    && forall i {:trigger bs[i].prev} :: 0 <= i < NBUF ==> bs[i].prev == At(order, (rank[i] as int) - 1)
  }

  /** brelse's splice: the buffer at place k becomes the most recently used one. */
  ghost function MoveToFront(order: seq<nat>, k: nat): seq<nat>
    requires k < |order|
  {
    [order[k]] + order[..k] + order[k + 1..]
  }

  ghost function RankAfterMove(rank: seq<nat>, k: nat): seq<nat> {
    seq(|rank|, (i: int) =>
      if 0 <= i < |rank| then (if rank[i] == k then 0 else if rank[i] < k then rank[i] + 1 else rank[i]) else 0)
  }

  lemma MoveToFrontIsOrder(order: seq<nat>, rank: seq<nat>, k: nat)
    requires IsOrder(order, rank) && k < NBUF
    ensures IsOrder(MoveToFront(order, k), RankAfterMove(rank, k))
    ensures forall m :: 0 <= m < NBUF ==>
      MoveToFront(order, k)[m] == if m == 0 then order[k] else if m <= k then order[m - 1] else order[m]
  {
  }

  /** Buffer i comes first when the ring is followed from its head, and all others are in the order they were in. */
  ghost predicate InFront(bs: seq<Buf>, rank: seq<nat>, rank': seq<nat>, i: nat) {
    && |bs| == NBUF + 1 && |rank| == |rank'| == NBUF && i < NBUF
    && bs[HEAD].next == i && bs[i].prev == HEAD
    && forall j, k :: 0 <= j < NBUF && 0 <= k < NBUF && j != i && k != i ==>
         (rank'[j] < rank'[k] <==> rank[j] < rank[k])
  }

  lemma MovedInFront(bs0: seq<Buf>, order: seq<nat>, rank: seq<nat>, bs: seq<Buf>, i: nat)
    requires Ring(bs0, order, rank) && i < NBUF
    requires Ring(bs, MoveToFront(order, rank[i]), RankAfterMove(rank, rank[i]))
    ensures InFront(bs, rank, RankAfterMove(rank, rank[i]), i)
  {
    var moved := RankAfterMove(rank, rank[i]);
    assert moved[i] == 0 && MoveToFront(order, rank[i])[0] == i;
    forall j | 0 <= j < NBUF && j != i ensures rank[j] != rank[i] {
      RankDecides(order, rank, i, j);
    }
  }

  lemma LinksOnly(bs: seq<Buf>, after: seq<Buf>, order: seq<nat>, rank: seq<nat>)
    requires Ring(bs, order, rank) && |after| == |bs|
    requires forall i :: 0 <= i <= NBUF ==> after[i].prev == bs[i].prev && after[i].next == bs[i].next
    ensures Ring(after, order, rank)
  {
  }

  /** The six pointer assignments of brelse, in their order. */
  ghost function Splice(bs: seq<Buf>, i: nat): (r: seq<Buf>)
    requires |bs| == NBUF + 1 && i < NBUF && bs[i].next <= NBUF && bs[i].prev <= NBUF
    requires var u := Unlinked(bs, i); u[HEAD].next <= NBUF
  {
    var u := Unlinked(bs, i);
    var first := u[HEAD].next;
    var l := u[i := u[i].(next := first, prev := HEAD)];
    var m := l[first := l[first].(prev := i)];
    m[HEAD := m[HEAD].(next := i)]
  }

  ghost function Unlinked(bs: seq<Buf>, i: nat): (r: seq<Buf>)
    requires |bs| == NBUF + 1 && i < NBUF && bs[i].next <= NBUF && bs[i].prev <= NBUF
    ensures |r| == NBUF + 1
  {
    var p, n := bs[i].prev, bs[i].next;
    var u := bs[n := bs[n].(prev := p)];
    u[p := u[p].(next := n)]
  }

  ghost function FirstAfter(bs: seq<Buf>, i: nat): nat
    requires |bs| == NBUF + 1 && i < NBUF
  {
    if bs[i].prev == HEAD then bs[i].next else bs[HEAD].next
  }

  ghost function NextAfter(bs: seq<Buf>, i: nat, j: nat): nat
    requires |bs| == NBUF + 1 && i < NBUF && j <= NBUF
  {
    if j == HEAD then i else if j == i then FirstAfter(bs, i)
    else if j == bs[i].prev then bs[i].next else bs[j].next
  }

  ghost function PrevAfter(bs: seq<Buf>, i: nat, j: nat): nat
    requires |bs| == NBUF + 1 && i < NBUF && j <= NBUF
  {
    if j == i then HEAD else if j == FirstAfter(bs, i) then i
    else if j == bs[i].next then bs[i].prev else bs[j].prev
  }

  /** The links after the splice, in terms of those before. */
  lemma SpliceFields(bs: seq<Buf>, i: nat)
    requires |bs| == NBUF + 1 && i < NBUF && bs[i].next <= NBUF && bs[i].prev <= NBUF
    requires bs[i].next != i && bs[i].prev != i
    requires FirstAfter(bs, i) < NBUF && FirstAfter(bs, i) != i
    ensures
      && Unlinked(bs, i)[HEAD].next == FirstAfter(bs, i)
      && SameButLinks(bs, Splice(bs, i))
      && (forall j :: 0 <= j <= NBUF ==> Splice(bs, i)[j].next == NextAfter(bs, i, j))
      && forall j :: 0 <= j <= NBUF ==> Splice(bs, i)[j].prev == PrevAfter(bs, i, j)
  {
    var u := Unlinked(bs, i);
    UnlinkedFields(bs, i);
    var first := FirstAfter(bs, i);
    var s := Splice(bs, i);
    forall j | 0 <= j <= NBUF
      ensures s[j] == u[j].(next := if j == HEAD then i else if j == i then first else u[j].next,
                            prev := if j == first then i else if j == i then HEAD else u[j].prev)
    {
    }
  }

  lemma UnlinkedFields(bs: seq<Buf>, i: nat)
    requires |bs| == NBUF + 1 && i < NBUF && bs[i].next <= NBUF && bs[i].prev <= NBUF
    ensures var u, p, n := Unlinked(bs, i), bs[i].prev, bs[i].next;
      forall j :: 0 <= j <= NBUF ==>
        u[j] == bs[j].(next := if j == p then n else bs[j].next, prev := if j == n then p else bs[j].prev)
  {
  }

  lemma SpliceMovesToFront(bs: seq<Buf>, order: seq<nat>, rank: seq<nat>, i: nat)
    requires Ring(bs, order, rank) && i < NBUF
    ensures bs[i].next <= NBUF && bs[i].prev <= NBUF && Unlinked(bs, i)[HEAD].next <= NBUF
    ensures SameButLinks(bs, Splice(bs, i))
    ensures |order| == |rank| == NBUF && rank[i] < NBUF
    ensures Ring(Splice(bs, i), MoveToFront(order, rank[i]), RankAfterMove(rank, rank[i]))
  {
    RingNeighbours(bs, order, rank, i);
    SpliceFields(bs, i);
    MoveToFrontIsOrder(order, rank, rank[i]);
    forall j {:trigger Splice(bs, i)[j].next} | 0 <= j < NBUF {
      SpliceNext(bs, order, rank, i, j);
    }
    forall j {:trigger Splice(bs, i)[j].prev} | 0 <= j < NBUF {
      SplicePrev(bs, order, rank, i, j);
    }
  }

  lemma RingNeighbours(bs: seq<Buf>, order: seq<nat>, rank: seq<nat>, i: nat)
    requires Ring(bs, order, rank) && i < NBUF
    ensures bs[i].next <= NBUF && bs[i].prev <= NBUF && bs[i].next != i && bs[i].prev != i
    ensures bs[HEAD].next < NBUF
    ensures bs[i].prev == HEAD <==> rank[i] == 0
    ensures bs[i].next == HEAD <==> rank[i] == NBUF - 1
    ensures rank[i] == 0 ==> bs[i].next == order[1]
    ensures rank[i] != 0 ==> bs[HEAD].next == order[0] != i
  {
    assert order[rank[i]] == i;
  }

  lemma Neighbours(bs: seq<Buf>, order: seq<nat>, rank: seq<nat>, i: nat)
    requires Ring(bs, order, rank) && i < NBUF
    ensures if rank[i] == NBUF - 1 then bs[i].next == HEAD else bs[i].next < NBUF && rank[bs[i].next] == rank[i] + 1
    ensures if rank[i] == 0 then bs[i].prev == HEAD else bs[i].prev < NBUF && rank[bs[i].prev] == rank[i] - 1
    ensures forall j :: 0 <= j < NBUF && rank[j] == rank[i] ==> j == i
  {
    forall j | 0 <= j < NBUF && rank[j] == rank[i] ensures j == i {
      assert order[rank[i]] == i && order[rank[j]] == j;
    }
  }

  /** The ring's facts about one place j, for the two lemmas on the splice. */
  lemma PlaceOf(bs: seq<Buf>, order: seq<nat>, rank: seq<nat>, i: nat, j: nat)
    requires Ring(bs, order, rank) && i < NBUF && j < NBUF
    ensures |order| == |rank| == NBUF && rank[i] < NBUF && rank[j] < NBUF && order[rank[j]] == j && order[rank[i]] == i
    ensures rank[j] == 0 <==> j == order[0]
    ensures bs[j].prev == At(order, (rank[j] as int) - 1) && bs[j].next == At(order, rank[j] + 1)
    ensures IsOrder(order, rank) && |bs| == NBUF + 1
    ensures |MoveToFront(order, rank[i])| == |RankAfterMove(rank, rank[i])| == NBUF
    ensures RankAfterMove(rank, rank[i])[j] ==
            if rank[j] == rank[i] then 0 else if rank[j] < rank[i] then rank[j] + 1 else rank[j]
  {
    MoveToFrontIsOrder(order, rank, rank[i]);
  }

  lemma SpliceNext(bs: seq<Buf>, order: seq<nat>, rank: seq<nat>, i: nat, j: nat)
    requires Ring(bs, order, rank) && i < NBUF && j < NBUF
    ensures At(MoveToFront(order, rank[i]), RankAfterMove(rank, rank[i])[j] + 1) == NextAfter(bs, i, j)
  {
    hide Ring, IsOrder, MoveToFront, RankAfterMove;
    PlaceOf(bs, order, rank, i, j);
    PlaceOf(bs, order, rank, j, i);
    RingNeighbours(bs, order, rank, i);
    MoveToFrontIsOrder(order, rank, rank[i]);
    RankDecides(order, rank, i, j);
    if j == i {
    } else if rank[j] + 1 == rank[i] {
      assert bs[i].prev == j;
    } else {
      assert bs[i].prev != j;
    }
  }

  lemma RankDecides(order: seq<nat>, rank: seq<nat>, i: nat, j: nat)
    requires IsOrder(order, rank) && i < NBUF && j < NBUF
    ensures rank[i] == rank[j] <==> i == j
  {
    assert order[rank[i]] == i && order[rank[j]] == j;
  }

  lemma StaysBehind(order: seq<nat>, k: nat, m: nat)
    requires k < m < |order|
    ensures |MoveToFront(order, k)| == |order| && MoveToFront(order, k)[m] == order[m]
  {
  }

  lemma SplicePrev(bs: seq<Buf>, order: seq<nat>, rank: seq<nat>, i: nat, j: nat)
    requires Ring(bs, order, rank) && i < NBUF && j < NBUF
    ensures At(MoveToFront(order, rank[i]), (RankAfterMove(rank, rank[i])[j] as int) - 1) == PrevAfter(bs, i, j)
  {
    hide Ring, IsOrder, MoveToFront, RankAfterMove;
    PlaceOf(bs, order, rank, i, j);
    PlaceOf(bs, order, rank, j, i);
    RingNeighbours(bs, order, rank, i);
    MoveToFrontIsOrder(order, rank, rank[i]);
    RankDecides(order, rank, i, j);
    if j == i {
    } else if rank[j] == rank[i] + 1 {
      assert bs[i].next == j;
    } else {
      assert bs[i].next != j;
      if rank[j] > rank[i] {
        StaysBehind(order, rank[i], rank[j] - 1);
      }
    }
  }

  ghost predicate SameButLinks(a: seq<Buf>, b: seq<Buf>) {
    |a| == |b| && forall i :: 0 <= i < |a| ==> b[i] == a[i].(prev := b[i].prev, next := b[i].next)
  }

  // ----- agreement with the disk -----

  ghost predicate Cached(bs: seq<Buf>, b: nat)
    requires |bs| == NBUF + 1
  {
    exists i :: 0 <= i < NBUF && bs[i].Holds(b)
  }

  /**
   The cache with the processes that use it: `held` are the blocks whose sleep lock someone has, `waiting` those
   for which processes wait after bget, as often as there are such processes.
   */
  ghost predicate Agrees(bs: seq<Buf>, disk: Image, view: Image, dirty: set<nat>, held: set<nat>,
                         waiting: multiset<nat>) {
    && |bs| == NBUF + 1
    && |view| == |disk|
    && (forall i :: 0 <= i < NBUF ==> BufAgrees(bs[i], disk, view, dirty, held, waiting))
    && (forall i, j :: 0 <= i < j < NBUF && bs[i].dev == ROOTDEV && bs[j].dev == ROOTDEV ==>
          bs[i].blockno != bs[j].blockno)
    && (forall b :: b in InUse(dirty, held, waiting) ==> Cached(bs, b))
    && forall b :: 0 <= b < |view| && view[b] != disk[b] ==> b in dirty + held
  }

  /** The blocks whose buffers may not be recycled. */
  ghost function InUse(dirty: set<nat>, held: set<nat>, waiting: multiset<nat>): set<nat> {
    dirty + held + set b | b in waiting
  }

  ghost predicate BufAgrees(x: Buf, disk: Image, view: Image, dirty: set<nat>, held: set<nat>, waiting: multiset<nat>) {
    if x.dev == ROOTDEV then
      && x.blockno < |view| == |disk|
      && (if x.valid then x.data == view[x.blockno] else view[x.blockno] == disk[x.blockno])
      && (x.dirty <==> x.blockno in dirty)
      && (x.dirty ==> x.valid)
      && x.refcnt == (if x.blockno in held then 1 else 0) + waiting[x.blockno]
    else
      // static storage: device 0, nothing in use
      x.dev == 0 && !x.dirty && x.refcnt == 0
  }

  class BufferCache {
    const disk: Disk
    const bufs: array<Buf>

    ghost var order: seq<nat>
    ghost var rank: seq<nat>
    ghost var view: Image
    ghost var dirty: set<nat>
    ghost var held: set<nat>
    ghost var waiting: multiset<nat>

    ghost predicate Valid()
      reads this, bufs, disk
    {
      && bufs.Length == NBUF + 1 && |view| == |disk.blocks|
      && Ring(bufs[..], order, rank)
      && Agrees(bufs[..], disk.blocks, view, dirty, held, waiting)
    }

    /** No process holds a buffer or waits for one. */
    ghost predicate Unused()
      reads this
    {
      held == {} && waiting == multiset{}
    }

    /** Buffer i is held by the caller and contains block b. */
    ghost predicate Has(i: nat, b: nat)
      reads this, bufs
    {
      && i < NBUF < bufs.Length
      && bufs[i].Holds(b) && bufs[i].valid && b in held
    }

    /** binit: all buffers empty, linked in a ring. */
    constructor (disk: Disk)
      ensures Valid() && this.disk == disk
      ensures view == disk.blocks && dirty == {} && Unused()
      ensures fresh(bufs) && bufs.Length == NBUF + 1
      ensures forall i :: 0 <= i < NBUF ==>
        bufs[i].dev == 0 && !bufs[i].valid && !bufs[i].dirty && bufs[i].refcnt == 0
    {
      this.disk := disk;
      var a := new Buf[NBUF + 1](_ => EMPTY_BUF);
      this.bufs := a;
      this.view, this.dirty, this.held, this.waiting := disk.blocks, {}, {}, multiset{};
      this.order, this.rank := InitialOrder(), InitialOrder();
      new;
      var b := 0;
      while b < NBUF
        invariant 0 <= b <= NBUF
        invariant LinkedUpTo(a[..], b)
        modifies a
      {
        ghost var before := a[..];
        a[b] := a[b].(next := a[HEAD].next, prev := HEAD);
        var first := a[HEAD].next;
        a[first] := a[first].(prev := b);
        a[HEAD] := a[HEAD].(next := b);
        LinkOne(before, a[..], b);
        b := b + 1;
      }
      AllLinked(a[..], disk.blocks);
      AllEmpty(a[..]);
    }

    /**
     bget up to acquiresleep: the cached buffer of block b, or the least recently used free one recycled;
     the caller now waits for its lock. It panics ("bget: no buffers", ok == false) exactly when b is not
     cached and every buffer is referenced or pinned.
     */
    method Bget(b: nat) returns (ok: bool, i: nat)
      requires Valid() && b < |disk.blocks|
      modifies this, bufs
      ensures Valid()
      ensures view == old(view) && dirty == old(dirty) && held == old(held) && order == old(order) && rank == old(rank)
      ensures ok <==> Cached(old(bufs[..]), b) || AnyFree(old(bufs[..]))
      ensures !ok ==> bufs[..] == old(bufs[..]) && waiting == old(waiting)
      ensures ok ==> i < NBUF && bufs[i].Holds(b) && waiting == old(waiting) + multiset{b}
      ensures ok && !Cached(old(bufs[..]), b) ==> LeastRecentFree(old(bufs[..]), rank, i) && !bufs[i].valid
      ensures ok && !Cached(old(bufs[..]), b) ==>
        bufs[i].dev == ROOTDEV && bufs[i].blockno == b && !bufs[i].dirty && bufs[i].refcnt == 1
      ensures ok && Cached(old(bufs[..]), b) ==> old(bufs[i]).Holds(b)
      ensures ok && Cached(old(bufs[..]), b) ==> bufs[i] == old(bufs[i]).(refcnt := old(bufs[i]).refcnt + 1)
      ensures ok ==> bufs[..] == old(bufs[..])[i := bufs[i]]
    {
      hide Ring, Agrees;
      ghost var bs := bufs[..];
      var hit: bool;
      hit, i := Lookup(b);
      if hit {
        bufs[i] := bufs[i].(refcnt := bufs[i].refcnt + 1);
        assert bufs[..] == bs[i := bufs[i]];
        Referenced(bs, disk.blocks, view, dirty, held, waiting, i, b);
        LinksOnly(bs, bufs[..], order, rank);
        waiting := waiting + multiset{b};
        return true, i;
      }
      ok, i := Victim();
      if ok {
        Recycled(bs, disk.blocks, view, dirty, held, waiting, i, b);
        bufs[i] := bufs[i].(dev := ROOTDEV, blockno := b, valid := false, dirty := false, refcnt := 1);
        assert bufs[..] == bs[i := bufs[i]];
        LinksOnly(bs, bufs[..], order, rank);
        waiting := waiting + multiset{b};
      }
    }

    /** acquiresleep lets one of the waiting processes have the buffer. */
    ghost method Acquire(i: nat, b: nat)
      requires Valid() && i < NBUF && bufs[i].Holds(b) && b in waiting && b !in held
      modifies this
      ensures Valid() && held == old(held) + {b} && waiting == old(waiting) - multiset{b}
      ensures view == old(view) && dirty == old(dirty) && order == old(order) && rank == old(rank)
    {
      hide Ring;
      Granted(bufs[..], disk.blocks, view, dirty, held, waiting, i, b);
      held, waiting := held + {b}, waiting - multiset{b};
    }

    /** The end of bread: a buffer without data is read from the disk. */
    method Fill(i: nat, ghost b: nat)
      requires Valid() && i < NBUF && bufs[i].Holds(b) && b in held
      modifies bufs
      ensures Valid() && Has(i, b) && b < |view| && bufs[i].data == view[b]
      ensures bufs[..] == old(bufs[..])[i := bufs[i]]
      ensures old(bufs[i]).valid ==> bufs[i] == old(bufs[i])
    {
      hide Ring;
      ghost var bs := bufs[..];
      assert BufAgrees(bs[i], disk.blocks, view, dirty, held, waiting);
      if !bufs[i].valid {
        var data := disk.Read(bufs[i].blockno);
        bufs[i] := bufs[i].(data := data, valid := true);
        assert bufs[..] == bs[i := bufs[i]];
        Filled(bs, disk.blocks, view, dirty, held, waiting, i, b);
        LinksOnly(bs, bufs[..], order, rank);
      }
    }

    /** bget's first loop, from the most recently used buffer: is block b cached? */
    method Lookup(b: nat) returns (hit: bool, i: nat)
      requires bufs.Length == NBUF + 1 && Ring(bufs[..], order, rank)
      ensures hit <==> Cached(bufs[..], b)
      ensures hit ==> i < NBUF && bufs[i].Holds(b)
    {
      i := bufs[HEAD].next;
      ghost var bs, k := bufs[..], 0;
      while i != HEAD
        invariant 0 <= k <= NBUF && (if k == NBUF then i == HEAD else i < NBUF && rank[i] == k)
        invariant forall j :: 0 <= j < NBUF && rank[j] < k ==> !bs[j].Holds(b)
        decreases NBUF - k
      {
        assert bs[i] == bufs[i];
        if bufs[i].dev == ROOTDEV && bufs[i].blockno == b {
          return true, i;
        }
        Neighbours(bs, order, rank, i);
        i := bufs[i].next;
        k := k + 1;
      }
      hit := false;
    }

    /** bget's second loop, from the least recently used buffer: one that may be recycled. */
    method Victim() returns (ok: bool, i: nat)
      requires bufs.Length == NBUF + 1 && Ring(bufs[..], order, rank)
      ensures ok <==> AnyFree(bufs[..])
      ensures ok ==> i < NBUF && bufs[i].Free() && LeastRecentFree(bufs[..], rank, i)
    {
      i := bufs[HEAD].prev;
      ghost var bs, k := bufs[..], NBUF - 1;
      while i != HEAD
        invariant -1 <= k < NBUF && (if k == -1 then i == HEAD else i < NBUF && rank[i] == k)
        invariant forall j :: 0 <= j < NBUF && rank[j] > k ==> !bs[j].Free()
        decreases k + 1
      {
        assert bs[i] == bufs[i];
        if bufs[i].refcnt == 0 && !bufs[i].dirty {
          return true, i;
        }
        Neighbours(bs, order, rank, i);
        i := bufs[i].prev;
        k := k - 1;
      }
      ok := false;
    }

    /** bread that need not wait: a held buffer with the current contents of block b, cached or not. */
    method Bread(b: nat) returns (ok: bool, i: nat)
      requires Valid() && b < |disk.blocks| && b !in held
      modifies this, bufs
      ensures Valid()
      ensures view == old(view) && dirty == old(dirty) && waiting == old(waiting)
      ensures ok <==> Cached(old(bufs[..]), b) || AnyFree(old(bufs[..]))
      ensures ok ==> held == old(held) + {b} && Has(i, b) && b < |view| && bufs[i].data == view[b]
      ensures !ok ==> held == old(held)
      ensures forall j: nat, c: nat :: old(Has(j, c)) ==> Has(j, c) && bufs[j].data == old(bufs[j].data)
    {
      hide Ring, Agrees;
      ghost var bs := bufs[..];
      HeldNotFree();
      ok, i := Bget(b);
      if ok {
        ghost var mid := bufs[..];
        Acquire(i, b);
        Fill(i, b);
        forall j: nat, c: nat | old(Has(j, c)) ensures Has(j, c) && bufs[j].data == old(bufs[j].data) {
          assert bufs[..][j] == mid[j] || j == i;
          assert mid[j] == bs[j] || j == i;
        }
      }
    }

    lemma HeldNotFree()
      requires Valid()
      ensures forall j: nat, c: nat :: Has(j, c) ==> bufs[j].refcnt >= 1 && Cached(bufs[..], c)
      ensures forall j: nat, k: nat, c: nat :: Has(j, c) && k < NBUF && bufs[k].Holds(c) ==> k == j
    {
      hide Ring;
      forall j: nat, c: nat | Has(j, c) ensures bufs[j].refcnt >= 1 && Cached(bufs[..], c) {
        assert BufAgrees(bufs[..][j], disk.blocks, view, dirty, held, waiting);
        assert bufs[..][j].Holds(c);
      }
      forall j: nat, k: nat, c: nat | Has(j, c) && k < NBUF && bufs[k].Holds(c) ensures k == j {
        assert bufs[..][j].blockno == bufs[..][k].blockno;
      }
    }

    /** Where nothing is pinned or held, the cache shows what the disk holds. */
    lemma CleanView(b: nat)
      requires Valid() && b < |view| && b !in dirty && b !in held
      ensures b < |disk.blocks| && view[b] == disk.blocks[b]
    {
    }

    /** A caller's change of the data of a buffer it holds. */
    method Modify(i: nat, data: Block, ghost b: nat)
      requires Valid() && Has(i, b)
      modifies this, bufs
      ensures Valid() && Has(i, b) && bufs[i].data == data
      ensures b < |old(view)| && view == old(view)[b := data]
      ensures dirty == old(dirty) && held == old(held) && waiting == old(waiting)
      ensures forall j: nat, c: nat :: old(Has(j, c)) && j != i ==> Has(j, c) && bufs[j].data == old(bufs[j].data)
    {
      hide Ring, Agrees;
      ghost var bs := bufs[..];
      Modified(bs, disk.blocks, view, dirty, held, waiting, i, b, data);
      bufs[i] := bufs[i].(data := data);
      assert bufs[..] == bs[i := bufs[i]];
      LinksOnly(bs, bufs[..], order, rank);
      view := view[b := data];
    }

    /** log_write's last step: the buffer stays in the cache until its group commits. */
    method Pin(i: nat, ghost b: nat)
      requires Valid() && Has(i, b)
      modifies this, bufs
      ensures Valid() && Has(i, b)
      ensures view == old(view) && held == old(held) && waiting == old(waiting) && dirty == old(dirty) + {b}
      ensures forall j: nat, c: nat :: old(Has(j, c)) ==> Has(j, c) && bufs[j].data == old(bufs[j].data)
    {
      hide Ring, Agrees;
      ghost var bs := bufs[..];
      Pinned(bs, disk.blocks, view, dirty, held, waiting, i, b);
      bufs[i] := bufs[i].(dirty := true);
      assert bufs[..] == bs[i := bufs[i]];
      LinksOnly(bs, bufs[..], order, rank);
      dirty := dirty + {b};
    }

    /** bwrite: one atomic disk write; B_DIRTY ends up clear (iderw). */
    method Bwrite(i: nat, ghost b: nat)
      requires Valid() && Has(i, b)
      modifies this, bufs, disk
      ensures Valid() && Has(i, b)
      ensures view == old(view) && held == old(held) && waiting == old(waiting) && dirty == old(dirty) - {b}
      ensures b < |view| == |old(disk.blocks)| && disk.blocks == old(disk.blocks)[b := view[b]]
      ensures disk.trace == old(disk.trace) + [disk.blocks]
      ensures forall j: nat, c: nat :: old(Has(j, c)) ==> Has(j, c) && bufs[j].data == old(bufs[j].data)
    {
      hide Ring, Agrees;
      ghost var bs := bufs[..];
      WrittenBack(bs, disk.blocks, view, dirty, held, waiting, i, b);
      disk.Write(bufs[i].blockno, bufs[i].data);
      bufs[i] := bufs[i].(dirty := false);
      assert bufs[..] == bs[i := bufs[i]];
      LinksOnly(bs, bufs[..], order, rank);
      dirty := dirty - {b};
    }

    /**
     brelse: the caller must have logged (or written through) what it modified; unless another process
     waits for the buffer, it becomes the most recently used one.
     */
    method Brelse(i: nat, ghost b: nat)
      requires Valid() && Has(i, b)
      requires b < |view| ==> view[b] == disk.blocks[b] || b in dirty
      modifies this, bufs
      ensures Valid()
      ensures view == old(view) && dirty == old(dirty) && held == old(held) - {b} && waiting == old(waiting)
      ensures order == if b in waiting then old(order) else MoveToFront(old(order), old(rank)[i])
      ensures forall j: nat, c: nat :: old(Has(j, c)) && j != i ==> Has(j, c) && bufs[j].data == old(bufs[j].data)
      ensures old(bufs[i].refcnt) >= 1 && bufs[i].refcnt == old(bufs[i].refcnt) - 1 && bufs[i].data == old(bufs[i].data)
      ensures old(bufs[i].refcnt) == 1 ==> InFront(bufs[..], old(rank), rank, i)
      ensures old(bufs[i].refcnt) > 1 ==> rank == old(rank)
    {
      hide Ring;
      ghost var bs := bufs[..];
      forall j: nat, c: nat | Has(j, c) && j != i ensures c != b {
        assert bs[j].blockno == c && bs[i].blockno == b;
      }
      Unreference(i, b);
      forall j: nat, c: nat | old(Has(j, c)) && j != i ensures Has(j, c) && bufs[j].data == old(bufs[j].data) {
        var mid := bs[i := bs[i].(refcnt := bs[i].refcnt - 1)];
        assert bufs[..][j] == mid[j].(prev := bufs[j].prev, next := bufs[j].next);
      }
    }

    method Unreference(i: nat, ghost b: nat)
      requires Valid() && Has(i, b)
      requires b < |view| ==> view[b] == disk.blocks[b] || b in dirty
      modifies this, bufs
      ensures Valid()
      ensures view == old(view) && dirty == old(dirty) && held == old(held) - {b} && waiting == old(waiting)
      ensures order == if b in waiting then old(order) else MoveToFront(old(order), old(rank)[i])
      ensures old(bufs[i].refcnt) >= 1
      ensures old(bufs[i].refcnt) == 1 ==> InFront(bufs[..], old(rank), rank, i)
      ensures old(bufs[i].refcnt) > 1 ==> rank == old(rank)
      ensures SameButLinks(old(bufs[..])[i := old(bufs[i]).(refcnt := old(bufs[i]).refcnt - 1)], bufs[..])
    {
      hide Ring, Agrees, InFront, MoveToFront, RankAfterMove, Splice, Unlinked;
      ghost var bs := bufs[..];
      Released(bs, disk.blocks, view, dirty, held, waiting, i, b);
      bufs[i] := bufs[i].(refcnt := bufs[i].refcnt - 1);
      ghost var mid := bufs[..];
      assert mid == bs[i := bs[i].(refcnt := bs[i].refcnt - 1)];
      LinksOnly(bs, mid, order, rank);
      SpliceMovesToFront(mid, order, rank, i);
      if bufs[i].refcnt == 0 {
        MoveToHead(i);
        LinksDoNotMatter(mid, bufs[..], disk.blocks, view, dirty, held - {b}, waiting);
        MovedInFront(mid, order, rank, bufs[..], i);
        order, rank := MoveToFront(order, rank[i]), RankAfterMove(rank, rank[i]);
      }
      held := held - {b};
    }

    /** The pointer assignments of brelse. */
    method MoveToHead(i: nat)
      requires bufs.Length == NBUF + 1 && i < NBUF && bufs[i].prev <= NBUF && bufs[i].next <= NBUF
      requires Unlinked(bufs[..], i)[HEAD].next <= NBUF
      modifies bufs
      ensures bufs[..] == Splice(old(bufs[..]), i)
    {
      ghost var mid := bufs[..];
      var p, n := bufs[i].prev, bufs[i].next;
      bufs[n] := bufs[n].(prev := p);
      bufs[p] := bufs[p].(next := n);
      assert bufs[..] == Unlinked(mid, i);
      var first := bufs[HEAD].next;
      bufs[i] := bufs[i].(next := first, prev := HEAD);
      bufs[first] := bufs[first].(prev := i);
      bufs[HEAD] := bufs[HEAD].(next := i);
      assert bufs[..] == Splice(mid, i);
    }
  }

  // ----- how many blocks fit -----

  /** bget finds a buffer as long as fewer than NBUF blocks are pinned, held or waited for. */
  lemma RoomForOneMore(bs: seq<Buf>, disk: Image, view: Image, dirty: set<nat>, held: set<nat>, waiting: multiset<nat>)
    requires Agrees(bs, disk, view, dirty, held, waiting) && |InUse(dirty, held, waiting)| < NBUF
    ensures AnyFree(bs)
  {
    if !AnyFree(bs) {
      forall i | 0 <= i < NBUF ensures bs[i].dev == ROOTDEV && bs[i].blockno in InUse(dirty, held, waiting) {
        assert BufAgrees(bs[i], disk, view, dirty, held, waiting) && !bs[i].Free();
      }
      var s := BlocksInUse(bs, InUse(dirty, held, waiting), NBUF);
      Sets.SubsetSize(s, InUse(dirty, held, waiting));
    }
  }

  lemma {:induction false} BlocksInUse(bs: seq<Buf>, within: set<nat>, k: nat) returns (s: set<nat>)
    requires k <= NBUF < |bs|
    requires forall i :: 0 <= i < NBUF ==> bs[i].dev == ROOTDEV && bs[i].blockno in within
    requires forall i, j :: 0 <= i < j < NBUF ==> bs[i].blockno != bs[j].blockno
    ensures |s| == k && s <= within && forall b :: b in s ==> exists i :: 0 <= i < k && bs[i].blockno == b
  {
    s := {};
    if k > 0 {
      var t := BlocksInUse(bs, within, k - 1);
      s := t + {bs[k - 1].blockno};
    }
  }

  // ----- binit -----

  const EMPTY_BUF: Buf := Buf(false, false, 0, 0, 0, HEAD, HEAD, ZERO_BLOCK)

  /** binit pushes the buffers at the front one after the other, so the last one comes first. */
  ghost function InitialOrder(): seq<nat> {
    seq(NBUF, (k: int) => if 0 <= k < NBUF then NBUF - 1 - k else 0)
  }

  ghost predicate LinkedUpTo(bs: seq<Buf>, b: nat)
    requires b <= NBUF
  {
    && |bs| == NBUF + 1
    && SameButLinks(seq(NBUF + 1, _ => EMPTY_BUF), bs)
    && bs[HEAD].next == (if b == 0 then HEAD else b - 1)
    && bs[HEAD].prev == (if b == 0 then HEAD else 0)
    && (forall i :: 0 <= i < b ==> bs[i].next == if i == 0 then HEAD else i - 1)
    && forall i :: 0 <= i < b ==> bs[i].prev == if i == b - 1 then HEAD else i + 1
  }

  lemma LinkOne(before: seq<Buf>, after: seq<Buf>, b: nat)
    requires b < NBUF && LinkedUpTo(before, b) && |after| == |before|
    requires var first := before[HEAD].next;
      var x := before[b := before[b].(next := first, prev := HEAD)];
      var y := x[first := x[first].(prev := b)];
      after == y[HEAD := y[HEAD].(next := b)]
    ensures LinkedUpTo(after, b + 1)
  {
  }

  lemma AllLinked(bs: seq<Buf>, disk: Image)
    requires LinkedUpTo(bs, NBUF)
    ensures Ring(bs, InitialOrder(), InitialOrder())
    ensures Agrees(bs, disk, disk, {}, {}, multiset{})
  {
    NoneInUse(bs, disk);
    var order := InitialOrder();
    forall i {:trigger bs[i].next} | 0 <= i < NBUF ensures bs[i].next == At(order, order[i] + 1) {
    }
    forall i {:trigger bs[i].prev} | 0 <= i < NBUF ensures bs[i].prev == At(order, (order[i] as int) - 1) {
    }
  }

  lemma AllEmpty(bs: seq<Buf>)
    requires LinkedUpTo(bs, NBUF)
    ensures forall i :: 0 <= i < NBUF ==> bs[i].dev == 0 && !bs[i].valid && !bs[i].dirty && bs[i].refcnt == 0
  {
    forall i | 0 <= i < NBUF ensures bs[i] == EMPTY_BUF.(prev := bs[i].prev, next := bs[i].next) {
    }
  }

  lemma NoneInUse(bs: seq<Buf>, disk: Image)
    requires LinkedUpTo(bs, NBUF)
    ensures Agrees(bs, disk, disk, {}, {}, multiset{})
  {
    forall i | 0 <= i < NBUF ensures bs[i].dev == 0 && BufAgrees(bs[i], disk, disk, {}, {}, multiset{}) {
      assert bs[i] == EMPTY_BUF.(prev := bs[i].prev, next := bs[i].next);
    }
  }

  // ----- searching the ring -----

  ghost predicate AnyFree(bs: seq<Buf>)
    requires |bs| == NBUF + 1
  {
    exists j :: 0 <= j < NBUF && bs[j].Free()
  }

  /** Buffer i is free and every buffer used less recently than it is not. */
  ghost predicate LeastRecentFree(bs: seq<Buf>, rank: seq<nat>, i: nat)
    requires |bs| == NBUF + 1
  {
    && |rank| == NBUF && i < NBUF && bs[i].Free()
    && forall j :: 0 <= j < NBUF && rank[j] > rank[i] ==> !bs[j].Free()
  }

  // ----- effect of each update on the agreement with the disk -----

  lemma CachedKept(bs: seq<Buf>, after: seq<Buf>, blocks: set<nat>)
    requires |bs| == |after| == NBUF + 1
    requires forall b :: b in blocks ==> Cached(bs, b)
    requires forall i :: 0 <= i < NBUF && bs[i].dev == ROOTDEV && bs[i].blockno in blocks ==>
      after[i].dev == ROOTDEV && after[i].blockno == bs[i].blockno
    ensures forall b :: b in blocks ==> Cached(after, b)
  {
    forall b | b in blocks ensures Cached(after, b) {
      var i :| 0 <= i < NBUF && bs[i].Holds(b);
      assert after[i].Holds(b);
    }
  }

  /** What the agreement depends on is the same at every block but b. */
  ghost predicate SameBut(b: nat, disk: Image, view: Image, dirty: set<nat>, held: set<nat>, waiting: multiset<nat>,
                          disk': Image, view': Image, dirty': set<nat>, held': set<nat>, waiting': multiset<nat>) {
    && |disk| == |view| == |disk'| == |view'|
    && (forall c :: 0 <= c < |view| && c != b ==> view'[c] == view[c] && disk'[c] == disk[c])
    && dirty' - {b} == dirty - {b} && held' - {b} == held - {b} && waiting'[b := 0] == waiting[b := 0]
  }

  /** Changing the one buffer of block b, and the rest at block b only, leaves the other buffers in agreement. */
  lemma Updated(bs: seq<Buf>, disk: Image, view: Image, dirty: set<nat>, held: set<nat>, waiting: multiset<nat>,
                disk': Image, view': Image, dirty': set<nat>, held': set<nat>, waiting': multiset<nat>,
                i: nat, b: nat, x: Buf)
    requires Agrees(bs, disk, view, dirty, held, waiting) && i < NBUF && bs[i].Holds(b) && x.Holds(b)
    requires SameBut(b, disk, view, dirty, held, waiting, disk', view', dirty', held', waiting')
    requires BufAgrees(x, disk', view', dirty', held', waiting')
    requires b < |view'| && view'[b] != disk'[b] ==> b in dirty' + held'
    ensures Agrees(bs[i := x], disk', view', dirty', held', waiting')
  {
    var after := bs[i := x];
    forall j | 0 <= j < NBUF ensures BufAgrees(after[j], disk', view', dirty', held', waiting') {
      if j != i {
        assert bs[j].dev == ROOTDEV ==> bs[j].blockno != b;
        Elsewhere(b, disk, view, dirty, held, waiting, disk', view', dirty', held', waiting', bs[j]);
      }
    }
    hide BufAgrees;
    CachedKept(bs, after, InUse(dirty, held, waiting));
    assert after[i].Holds(b);
    forall c | c in InUse(dirty', held', waiting') ensures Cached(after, c) {
      if c != b {
        StillInUse(b, disk, view, dirty, held, waiting, disk', view', dirty', held', waiting', c);
      }
    }
    forall c | 0 <= c < |view'| && view'[c] != disk'[c] ensures c in dirty' + held' {
      if c != b {
        assert c in dirty + held;
        assert c in dirty - {b} || c in held - {b};
      }
    }
  }

  lemma StillInUse(b: nat, disk: Image, view: Image, dirty: set<nat>, held: set<nat>, waiting: multiset<nat>,
                   disk': Image, view': Image, dirty': set<nat>, held': set<nat>, waiting': multiset<nat>, c: nat)
    requires SameBut(b, disk, view, dirty, held, waiting, disk', view', dirty', held', waiting') && c != b
    requires c in InUse(dirty', held', waiting')
    ensures c in InUse(dirty, held, waiting)
  {
    assert waiting'[b := 0][c] == waiting'[c] && waiting[b := 0][c] == waiting[c];
    assert c in dirty' ==> c in dirty' - {b};
    assert c in held' ==> c in held' - {b};
  }

  lemma Elsewhere(b: nat, disk: Image, view: Image, dirty: set<nat>, held: set<nat>, waiting: multiset<nat>,
                  disk': Image, view': Image, dirty': set<nat>, held': set<nat>, waiting': multiset<nat>, x: Buf)
    requires SameBut(b, disk, view, dirty, held, waiting, disk', view', dirty', held', waiting')
    requires BufAgrees(x, disk, view, dirty, held, waiting) && (x.dev == ROOTDEV ==> x.blockno != b)
    ensures BufAgrees(x, disk', view', dirty', held', waiting')
  {
    var c := x.blockno;
    assert c != b ==> waiting'[b := 0][c] == waiting'[c] && waiting[b := 0][c] == waiting[c];
    assert c != b ==> (c in dirty <==> c in dirty - {b}) && (c in dirty' <==> c in dirty' - {b});
    assert c != b ==> (c in held <==> c in held - {b}) && (c in held' <==> c in held' - {b});
  }

  lemma Referenced(bs: seq<Buf>, disk: Image, view: Image, dirty: set<nat>, held: set<nat>, waiting: multiset<nat>,
                   i: nat, b: nat)
    requires Agrees(bs, disk, view, dirty, held, waiting) && i < NBUF && bs[i].Holds(b)
    ensures Agrees(bs[i := bs[i].(refcnt := bs[i].refcnt + 1)], disk, view, dirty, held, waiting + multiset{b})
  {
    hide InUse, Cached;
    assert BufAgrees(bs[i], disk, view, dirty, held, waiting);
    Updated(bs, disk, view, dirty, held, waiting, disk, view, dirty, held, waiting + multiset{b},
            i, b, bs[i].(refcnt := bs[i].refcnt + 1));
  }

  lemma Recycled(bs: seq<Buf>, disk: Image, view: Image, dirty: set<nat>, held: set<nat>, waiting: multiset<nat>,
                 i: nat, b: nat)
    requires Agrees(bs, disk, view, dirty, held, waiting) && i < NBUF && bs[i].Free() && b < |view|
    requires !Cached(bs, b)
    ensures Agrees(bs[i := bs[i].(dev := ROOTDEV, blockno := b, valid := false, dirty := false, refcnt := 1)],
                   disk, view, dirty, held, waiting + multiset{b})
  {
    var after := bs[i := bs[i].(dev := ROOTDEV, blockno := b, valid := false, dirty := false, refcnt := 1)];
    assert BufAgrees(bs[i], disk, view, dirty, held, waiting);
    CachedKept(bs, after, InUse(dirty, held, waiting));
    assert after[i].Holds(b);
    assert b !in InUse(dirty, held, waiting);
    assert forall j :: 0 <= j < NBUF ==> !bs[j].Holds(b);
  }

  lemma Granted(bs: seq<Buf>, disk: Image, view: Image, dirty: set<nat>, held: set<nat>, waiting: multiset<nat>,
                i: nat, b: nat)
    requires Agrees(bs, disk, view, dirty, held, waiting) && i < NBUF && bs[i].Holds(b) && b in waiting && b !in held
    ensures Agrees(bs, disk, view, dirty, held + {b}, waiting - multiset{b})
  {
    hide InUse, Cached;
    assert BufAgrees(bs[i], disk, view, dirty, held, waiting);
    Updated(bs, disk, view, dirty, held, waiting, disk, view, dirty, held + {b}, waiting - multiset{b}, i, b, bs[i]);
    assert bs[i := bs[i]] == bs;
  }

  lemma Filled(bs: seq<Buf>, disk: Image, view: Image, dirty: set<nat>, held: set<nat>, waiting: multiset<nat>,
               i: nat, b: nat)
    requires Agrees(bs, disk, view, dirty, held, waiting) && i < NBUF && bs[i].Holds(b) && !bs[i].valid
    ensures b < |view| == |disk| && view[b] == disk[b]
    ensures Agrees(bs[i := bs[i].(data := disk[b], valid := true)], disk, view, dirty, held, waiting)
  {
    hide InUse, Cached;
    assert BufAgrees(bs[i], disk, view, dirty, held, waiting);
    Updated(bs, disk, view, dirty, held, waiting, disk, view, dirty, held, waiting,
            i, b, bs[i].(data := disk[b], valid := true));
  }

  lemma Modified(bs: seq<Buf>, disk: Image, view: Image, dirty: set<nat>, held: set<nat>, waiting: multiset<nat>,
                 i: nat, b: nat, data: Block)
    requires Agrees(bs, disk, view, dirty, held, waiting) && i < NBUF && bs[i].Holds(b) && bs[i].valid && b in held
    ensures b < |view| && Agrees(bs[i := bs[i].(data := data)], disk, view[b := data], dirty, held, waiting)
  {
    hide InUse, Cached;
    assert BufAgrees(bs[i], disk, view, dirty, held, waiting);
    Updated(bs, disk, view, dirty, held, waiting, disk, view[b := data], dirty, held, waiting,
            i, b, bs[i].(data := data));
  }

  lemma Pinned(bs: seq<Buf>, disk: Image, view: Image, dirty: set<nat>, held: set<nat>, waiting: multiset<nat>,
               i: nat, b: nat)
    requires Agrees(bs, disk, view, dirty, held, waiting) && i < NBUF && bs[i].Holds(b) && bs[i].valid && b in held
    ensures Agrees(bs[i := bs[i].(dirty := true)], disk, view, dirty + {b}, held, waiting)
  {
    hide InUse, Cached;
    assert BufAgrees(bs[i], disk, view, dirty, held, waiting);
    Updated(bs, disk, view, dirty, held, waiting, disk, view, dirty + {b}, held, waiting, i, b, bs[i].(dirty := true));
  }

  lemma WrittenBack(bs: seq<Buf>, disk: Image, view: Image, dirty: set<nat>, held: set<nat>, waiting: multiset<nat>,
                    i: nat, b: nat)
    requires Agrees(bs, disk, view, dirty, held, waiting) && i < NBUF && bs[i].Holds(b) && bs[i].valid && b in held
    ensures b < |view| && bs[i].data == view[b]
    ensures Agrees(bs[i := bs[i].(dirty := false)], disk[b := view[b]], view, dirty - {b}, held, waiting)
  {
    hide InUse, Cached;
    assert BufAgrees(bs[i], disk, view, dirty, held, waiting);
    Updated(bs, disk, view, dirty, held, waiting, disk[b := view[b]], view, dirty - {b}, held, waiting,
            i, b, bs[i].(dirty := false));
  }

  lemma Released(bs: seq<Buf>, disk: Image, view: Image, dirty: set<nat>, held: set<nat>, waiting: multiset<nat>,
                 i: nat, b: nat)
    requires Agrees(bs, disk, view, dirty, held, waiting) && i < NBUF && bs[i].Holds(b) && b in held
    requires b < |view| == |disk| ==> view[b] == disk[b] || b in dirty
    ensures bs[i].refcnt == 1 + waiting[b]
    ensures Agrees(bs[i := bs[i].(refcnt := bs[i].refcnt - 1)], disk, view, dirty, held - {b}, waiting)
  {
    hide InUse, Cached;
    assert BufAgrees(bs[i], disk, view, dirty, held, waiting);
    Updated(bs, disk, view, dirty, held, waiting, disk, view, dirty, held - {b}, waiting,
            i, b, bs[i].(refcnt := bs[i].refcnt - 1));
  }

  lemma LinksDoNotMatter(a: seq<Buf>, b: seq<Buf>, disk: Image, view: Image,
                         dirty: set<nat>, held: set<nat>, waiting: multiset<nat>)
    requires SameButLinks(a, b) && Agrees(a, disk, view, dirty, held, waiting)
    ensures Agrees(b, disk, view, dirty, held, waiting)
  {
    CachedKept(a, b, InUse(dirty, held, waiting));
    forall i | 0 <= i < NBUF ensures BufAgrees(b[i], disk, view, dirty, held, waiting) {
      assert BufAgrees(a[i], disk, view, dirty, held, waiting);
    }
  }
}
