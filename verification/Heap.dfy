/** malloc and free of umalloc.c. Addresses count Header units; 0 is the null pointer. */
module Heaps {
  import opened HeapSpec

  const HEADERSIZE: nat := 8  // sizeof(Header): pointer and size

  /** nunits of malloc, in 32-bit unsigned arithmetic. */
  function NUnits(nbytes: nat): (n: nat)
    requires nbytes < 0x1_0000_0000
    ensures n >= 1
  {
    (nbytes + HEADERSIZE - 1) % 0x1_0000_0000 / HEADERSIZE + 1
  }

  /**
   The units after the header hold nbytes bytes, with less than a unit to spare, unless the rounding up wrapped
   around; then there is the header only.
   */
  lemma RoomExact(nbytes: nat)
    requires nbytes < 0x1_0000_0000
    ensures (NUnits(nbytes) - 1) * 8 >= nbytes <==> nbytes <= 0x1_0000_0000 - 8
    ensures (NUnits(nbytes) - 1) * 8 < nbytes + 8
    ensures nbytes > 0x1_0000_0000 - 8 ==> NUnits(nbytes) == 1
  {
  }

  /** The signed 32-bit argument with which morecore calls sbrk. */
  function SbrkArgument(nu: nat): int {
    var bytes := Heap.Request(nu) * HEADERSIZE % 0x1_0000_0000;
    if bytes < 0x8000_0000 then bytes else bytes - 0x1_0000_0000
  }

  /** morecore asks for the bytes of the block exactly below 2^31 bytes; a larger request makes sbrk shrink the heap. */
  lemma SbrkExact(nbytes: nat)
    requires nbytes < 0x1_0000_0000
    ensures SbrkArgument(NUnits(nbytes)) == Heap.Request(NUnits(nbytes)) * HEADERSIZE <==>
      NUnits(nbytes) * HEADERSIZE < 0x8000_0000
    ensures SbrkArgument(NUnits(nbytes)) <= 0 <==> NUnits(nbytes) * HEADERSIZE >= 0x8000_0000
  {
    assert NUnits(nbytes) * HEADERSIZE <= 0x1_0000_0000;
  }

  /** The comparisons of free's loop recognise exactly the node after which the block belongs. */
  lemma PlaceTest(list: seq<nat>, k: nat, a: nat)
    requires k < |list| && Increasing(list) && list[0] < a && a !in list
    ensures var p, q := list[k], Next(list, k);
      (a > p && a < q) || (p >= q && (a > p || a < q)) <==> Place(list, k, a)
  {
    assert list[0] <= list[k];
    if k + 1 < |list| {
      assert list[k] < list[k + 1];
    }
  }

  lemma {:induction false} PlaceExists(list: seq<nat>, a: nat, n: nat) returns (t: nat)
    requires 0 < n <= |list| && Increasing(list) && list[0] < a && a !in list
    requires n < |list| ==> a < list[n]
    ensures t < n && Place(list, t, a)
  {
    if list[n - 1] < a {
      t := n - 1;
    } else {
      assert list[n - 1] != a;
      t := PlaceExists(list, a, n - 1);
    }
  }

  /** Steps from node k to node t around a list of n nodes. */
  ghost function Ahead(k: nat, t: nat, n: nat): nat
    requires k < n && t < n
  {
    if k <= t then t - k else n - k + t
  }

  /** The index reached from node f after c + 1 steps. */
  ghost function Idx(f: nat, c: nat, n: nat): (i: nat)
    requires f < n && c < n
    ensures i < n
  {
    if f + 1 + c < n then f + 1 + c else f + 1 + c - n
  }

  ghost predicate Fits(mem: Memory, list: seq<nat>, i: nat, n: nat) {
    i < |list| && list[i] in mem && mem[list[i]].size >= n
  }

  /** A full lap without a fit has seen every node. */
  lemma LapCovers(mem: Memory, list: seq<nat>, f: nat, n: nat, i: nat)
    requires f < |list| && i < |list|
    requires forall d: nat :: d < |list| ==> !Fits(mem, list, Idx(f, d, |list|), n)
    ensures !Fits(mem, list, i, n)
  {
    var d := if i > f then i - f - 1 else i + |list| - f - 1;
    assert Idx(f, d, |list|) == i;
  }

  /** Node i is the first one that fits when the list is followed from the successor of the node at `from`. */
  ghost predicate FirstFit(mem: Memory, list: seq<nat>, from: nat, n: nat, i: nat) {
    exists f: nat, c: nat :: FirstFitBy(mem, list, from, n, i, f, c)
  }

  ghost predicate FirstFitBy(mem: Memory, list: seq<nat>, from: nat, n: nat, i: nat, f: nat, c: nat) {
    && f < |list| && list[f] == from && c < |list| && i == Idx(f, c, |list|) && 0 < i
    && Fits(mem, list, i, n) && forall d: nat :: d < c ==> !Fits(mem, list, Idx(f, d, |list|), n)
  }

  /** The end of the block at node i is what malloc hands out. */
  ghost predicate TakesEnd(mem: Memory, list: seq<nat>, i: nat, n: nat, r: nat, freep: nat) {
    && 0 < i < |list| && list[i] in mem && mem[list[i]].size >= n
    && r == list[i] + mem[list[i]].size - n + 1 && freep == list[i - 1]
  }

  /** No unit of a live block of b0 has been written, and its blocks are live still. */
  ghost predicate LiveKept(m0: Memory, b0: Blocks, m: Memory, b: Blocks) {
    forall x :: x in b0.live ==> Untouched(m0, b0, m, b, x)
  }

  /** All memory in use lies below brk. */
  ghost predicate Below(m: Memory, brk: nat) {
    forall u :: u in m ==> u < brk
  }

  lemma UntouchedTwice(m0: Memory, b0: Blocks, m1: Memory, b1: Blocks, m2: Memory, b2: Blocks, x: nat)
    requires Untouched(m0, b0, m1, b1, x) && Untouched(m1, b1, m2, b2, x)
    requires x in m0 && m0[x].size >= 1
    ensures Untouched(m0, b0, m2, b2, x)
  {
    assert Inside(m0, x, x);
    forall u | Inside(m0, x, u) ensures Inside(m1, x, u) {
    }
  }

  class Heap {
    const base: nat
    var mem: Memory
    var freep: nat
    ghost var b: Blocks

    constructor (base: nat)
      requires base > 0
      ensures Valid() && this.base == base && b.live == map[] && b.own == map[]
    {
      this.base := base;
      mem := map[base := Header(0, 0)];
      freep := 0;
      b := Blocks([base], map[], map[]);
    }

    /** Between calls: an uninitialised heap, or a well-formed coalesced free list that freep points into. */
    ghost predicate Valid()
      reads this
    {
      && base > 0 && base in mem && |b.list| >= 1 && b.list[0] == base
      && (forall u :: u in mem ==> u == base || u in b.own)
      && if freep == 0 then b.live == map[] && b.own == map[] && b.list == [base]
         else HeapOk(mem, b) && NoneTouch(mem, b.list) && freep in b.list
    }

    /** Some free block has room for n units. */
    ghost predicate HasFit(n: nat)
      reads this
    {
      freep != 0 && exists i :: Fits(mem, b.list, i, n)
    }

    /** free: the block goes to its place in the list and is merged with its neighbours. */
    method Free(ap: nat)
      requires Valid() && freep != 0 && ap >= 1 && ap - 1 in b.live
      modifies this`mem, this`freep, this`b
      ensures Valid() && freep != 0 && b.live == old(b.live) - {ap - 1} && b.own.Keys == old(b.own).Keys
      ensures ap - 1 in old(mem) && HasFit(old(mem)[ap - 1].size)
      ensures forall x :: x in b.live ==> Untouched(old(mem), old(b), mem, b, x)
      ensures mem.Keys == old(mem).Keys
      ensures freep in old(b).list && freep < ap - 1
      ensures forall i :: 0 <= i < |old(b).list| ==> old(b).list[i] <= freep || ap - 1 < old(b).list[i]
    {
      hide HeapOk, NoneTouch, Freed, HeapSpec.Untouched;
      var bp := ap - 1;
      ghost var m0, b0 := mem, b;
      var p, k := Search(bp);
      PlaceSeen(mem, b, k, bp);
      ghost var b1: Blocks, g: nat := FreeOk(mem, b, k, bp);
      forall x | x in b1.live ensures HeapSpec.Untouched(m0, b0, Freed(m0, p, bp), b1, x) {
        FreedLeavesOthers(m0, b0, k, bp, b1, x);
      }
      Relink(bp, p);
      freep := p;
      b := b1;
      assert Fits(mem, b.list, g, m0[bp].size);
    }

    lemma PlaceSeen(m: Memory, bs: Blocks, k: nat, a: nat)
      requires HeapOk(m, bs) && Place(bs.list, k, a)
      ensures bs.list[k] in bs.list && bs.list[k] < a
      ensures forall i :: 0 <= i < |bs.list| ==> bs.list[i] <= bs.list[k] || a < bs.list[i]
    {
      forall i | 0 <= i < |bs.list| ensures bs.list[i] <= bs.list[k] || a < bs.list[i] {
        assert i < k ==> bs.list[i] < bs.list[k];
        assert i > k + 1 ==> bs.list[k + 1] < bs.list[i];
      }
    }

    /** The loop of free: the node after which the block belongs. */
    method Search(bp: nat) returns (p: nat, ghost k: nat)
      requires Valid() && freep != 0 && bp in b.live
      ensures Place(b.list, k, bp) && p == b.list[k] && base <= p
    {
      hide NoneTouch;
      BlockAboveBase(mem, b, bp);
      hide HeapOk;
      p := freep;
      k :| 0 <= k < |b.list| && b.list[k] == p;
      ghost var t := PlaceExists(b.list, bp, |b.list|);
      while !(bp > p && bp < mem[p].ptr)
        invariant k < |b.list| && p == b.list[k] && LinkAt(mem, b.list, k)
        decreases Ahead(k, t, |b.list|)
      {
        PlaceTest(b.list, k, bp);
        if p >= mem[p].ptr && (bp > p || bp < mem[p].ptr) {
          break;
        }
        assert k != t;
        p := mem[p].ptr;
        k := if k + 1 < |b.list| then k + 1 else 0;
      }
      PlaceTest(b.list, k, bp);
      assert k > 0 ==> b.list[0] < b.list[k];
    }

    /** The assignments of free to the headers of the block and of its predecessor. */
    method Relink(bp: nat, p: nat)
      requires bp in mem && p in mem && mem[p].ptr in mem && bp != p
      modifies this`mem
      ensures mem == Freed(old(mem), p, bp) && mem.Keys == old(mem).Keys
    {
      if bp + mem[bp].size == mem[p].ptr {
        mem := mem[bp := Header(mem[mem[p].ptr].ptr, mem[bp].size + mem[mem[p].ptr].size)];
      } else {
        mem := mem[bp := mem[bp].(ptr := mem[p].ptr)];
      }
      if p + mem[p].size == bp {
        mem := mem[p := Header(mem[bp].ptr, mem[p].size + mem[bp].size)];
      } else {
        mem := mem[p := mem[p].(ptr := bp)];
      }
    }

    lemma BlockAboveBase(m: Memory, bs: Blocks, a: nat)
      requires HeapOk(m, bs) && a in bs.live
      ensures a in m && bs.list[0] < a && a !in bs.list && Increasing(bs.list) && m[a].size >= 1
      ensures forall i: nat :: i < |bs.list| ==> bs.list[i] in m && LinkAt(m, bs.list, i)
    {
      assert bs.IsBlock(a) && Inside(m, a, a);
    }

    /** Number of units that morecore asks for. */
    static function Request(nu: nat): nat {
      if nu < 4096 then 4096 else nu
    }

    /**
     morecore: get at least 4096 units from sbrk and free them into the list. `brk` is where the new
     memory would begin, `granted` whether sbrk succeeds.
     */
    method Morecore(nu: nat, brk: nat, granted: bool) returns (r: nat)
      requires Valid() && freep != 0 && Below(mem, brk)
      modifies this`mem, this`freep, this`b
      ensures Valid() && freep != 0
      ensures r == if granted then freep else 0
      ensures !granted ==> mem == old(mem) && b == old(b) && freep == old(freep)
      ensures granted ==> HasFit(nu) && b.live == old(b).live && b.own.Keys == old(b).own.Keys + Units(brk, Request(nu))
      ensures granted ==>
        forall u :: u in b.own <==> u in old(b).own || brk <= u < brk + if nu < 4096 then 4096 else nu
      ensures granted ==> LiveKept(old(mem), old(b), mem, b)
    {
      if !granted {
        return 0;
      }
      hide HeapOk, NoneTouch, HeapSpec.Untouched;
      ghost var m0, b0 := mem, b;
      var n := Request(nu);
      Sbrk(n, brk);
      ghost var m1, b1 := mem, b;
      AddRemove(b0.live, brk, n);
      FreeNew(brk, n);
      BothUntouched(b0.live.Keys, m0, b0, m1, b1, mem, b);
      r := freep;
      MoreFits(mem, b.list, n, nu);
    }

    /** morecore hands the new region to free. */
    method FreeNew(a: nat, ghost n: nat)
      requires Valid() && freep != 0 && a in b.live && a in mem && mem[a].size == n
      modifies this`mem, this`freep, this`b
      ensures Valid() && freep != 0 && b.live == old(b).live - {a} && b.own.Keys == old(b).own.Keys
      ensures exists i :: Fits(mem, b.list, i, n)
      ensures forall x :: x in b.live ==> HeapSpec.Untouched(old(mem), old(b), mem, b, x)
    {
      hide HeapOk, NoneTouch, HeapSpec.Untouched;
      Free(a + 1);
    }

    /** The process grows by n units at brk, and the new region gets a header. */
    method Sbrk(n: nat, brk: nat)
      requires Valid() && freep != 0 && n >= 1 && Below(mem, brk)
      modifies this`mem, this`b
      ensures Valid() && brk !in old(b).live && b.live == old(b).live[brk := n] && brk in mem && mem[brk].size == n
      ensures b.own.Keys == old(b).own.Keys + Units(brk, n)
      ensures LiveKept(old(mem), old(b), mem, b)
    {
      hide NoneTouch, HeapSpec.Untouched, HeapOk, Grown, Beyond, Place;
      NewMemoryBeyond(mem, b, brk);
      ghost var b1 := GrowOk(mem, b, brk, n);
      mem := Grown(mem, brk, n);
      b := b1;
    }

    lemma NewMemoryBeyond(m: Memory, bs: Blocks, brk: nat)
      requires HeapOk(m, bs) && Below(m, brk)
      ensures Beyond(bs, m, brk) && |bs.list| >= 1 && bs.list[0] in m
    {
    }

    /** Blocks that two steps in a row leave untouched. */
    lemma BothUntouched(s: set<nat>, m0: Memory, b0: Blocks, m1: Memory, b1: Blocks, m2: Memory, b2: Blocks)
      requires HeapOk(m0, b0) && forall x :: x in s ==> x in b0.live
      requires forall x :: x in s ==> HeapSpec.Untouched(m0, b0, m1, b1, x) && HeapSpec.Untouched(m1, b1, m2, b2, x)
      ensures forall x :: x in s ==> HeapSpec.Untouched(m0, b0, m2, b2, x)
    {
      forall x | x in s ensures HeapSpec.Untouched(m0, b0, m2, b2, x) {
        LiveSizes(m0, b0, x);
        UntouchedTwice(m0, b0, m1, b1, m2, b2, x);
      }
    }

    lemma AddRemove(live: map<nat, nat>, a: nat, n: nat)
      requires a !in live
      ensures live[a := n] - {a} == live && (live[a := n] - {a}).Keys == live.Keys
    {
    }

    lemma MoreFits(m: Memory, list: seq<nat>, n: nat, nu: nat)
      requires n >= nu && exists i :: Fits(m, list, i, n)
      ensures exists i :: Fits(m, list, i, nu)
    {
      var i :| Fits(m, list, i, n);
      assert Fits(m, list, i, nu);
    }

    lemma LiveSizes(m: Memory, bs: Blocks, x: nat)
      requires HeapOk(m, bs) && x in bs.live
      ensures x in m && m[x].size >= 1
    {
    }

    /**
     malloc: next fit after freep; when a full lap finds none, one call of morecore and then at most
     one more lap. The result is a block of NUnits(nbytes) units that was in no live block.
     */
    method Malloc(nbytes: nat, brk: nat, granted: bool) returns (r: nat)
      requires Valid() && Below(mem, brk)
      requires nbytes < 0x1_0000_0000 && (HasFit(NUnits(nbytes)) || SbrkArgument(NUnits(nbytes)) > 0)
      modifies this`mem, this`freep, this`b
      ensures Valid() && freep != 0
      ensures r != 0 <==> old(HasFit(NUnits(nbytes))) || granted
      ensures r == 0 ==> b == old(b) && (old(freep) != 0 ==> mem == old(mem))
      ensures r != 0 ==> r - 1 in mem && r - 1 !in old(b).live && b.live == old(b).live[r - 1 := NUnits(nbytes)]
      ensures r != 0 ==> LiveKept(old(mem), old(b), mem, b)
      ensures b.own.Keys == if old(HasFit(NUnits(nbytes))) || !granted then old(b).own.Keys
                            else old(b).own.Keys + Units(brk, Request(NUnits(nbytes)))
      ensures old(HasFit(NUnits(nbytes))) || !granted ==> b.own.Keys == old(b).own.Keys
      ensures !(old(HasFit(NUnits(nbytes))) || !granted) ==>
        var n := NUnits(nbytes);
        forall u :: u in b.own <==> u in old(b).own || brk <= u < brk + if n < 4096 then 4096 else n
      ensures old(HasFit(NUnits(nbytes))) ==>
        exists i :: FirstFit(old(mem), old(b).list, old(freep), NUnits(nbytes), i)
                 && TakesEnd(old(mem), old(b).list, i, NUnits(nbytes), r, freep)
    {
      hide FirstFit, TakesEnd;
      var nunits := NUnits(nbytes);
      Init();
      r := NextFit(nunits, brk, granted);
    }

    /** The loop of malloc on an initialised heap. */
    method NextFit(nunits: nat, brk: nat, granted: bool) returns (r: nat)
      requires Valid() && freep != 0 && HeapOk(mem, b) && nunits >= 1 && Below(mem, brk)
      modifies this`mem, this`freep, this`b
      ensures Valid() && freep != 0
      ensures r != 0 <==> old(HasFit(nunits)) || granted
      ensures r == 0 ==> b == old(b) && mem == old(mem)
      ensures r != 0 ==> r - 1 in mem && r - 1 !in old(b).live && b.live == old(b).live[r - 1 := nunits]
      ensures r != 0 ==> LiveKept(old(mem), old(b), mem, b)
      ensures b.own.Keys == if old(HasFit(nunits)) || !granted then old(b).own.Keys
                            else old(b).own.Keys + Units(brk, Request(nunits))
      ensures old(HasFit(nunits)) ==>
        exists i :: FirstFit(old(mem), old(b).list, old(freep), nunits, i)
                 && TakesEnd(old(mem), old(b).list, i, nunits, r, freep)
    {
      hide HeapOk, NoneTouch, LiveKept, Below, Units, Idx, Fits, NoFitBefore, HasFit, FirstFit, TakesEnd;
      ghost var m0, b0, freep0, fit := mem, b, freep, HasFit(nunits);
      AllUntouched(mem, b);
      var prevp := freep;
      ghost var f: nat :| f < |b.list| && b.list[f] == freep;
      ghost var c: nat, grown := 0, false;
      StepList(mem, b, f, 0);
      NothingSeen(f, nunits);
      var p := mem[prevp].ptr;
      while true
        invariant At(prevp, p, f, c) && Walking(m0, b0, freep0, fit, granted, nunits, brk, f, c, grown)
        decreases if grown then 0 else 1, |b.list| - c
      {
        StepList(mem, b, f, c);
        if mem[p].size >= nunits {
          FitHere(Idx(f, c, |b.list|), nunits);
          FirstFound(f, c, nunits);
          r := TakeHere(prevp, p, nunits, Idx(f, c, |b.list|), m0, b0);
          return;
        }
        prevp, f, c, grown := Onward(p, nunits, brk, granted, f, c, grown, fit, m0, b0, freep0);
        if prevp == 0 {
          return 0;
        }
        p := mem[prevp].ptr;
      }
    }

    /** What the loop of malloc knows after c steps from freep == b.list[f]; `grown` says that morecore was called. */
    ghost predicate Walking(m0: Memory, b0: Blocks, freep0: nat, fit: bool, granted: bool, n: nat, brk: nat, f: nat,
                            c: nat, grown: bool)
      reads this
    {
      && Valid() && freep != 0 && HeapOk(m0, b0) && HeapOk(mem, b) && NoFitBefore(f, c, n) && LiveKept(m0, b0, mem, b)
      && Below(m0, brk)
      && (!grown ==> mem == m0 && b == b0 && freep == freep0 && HasFit(n) == fit)
      && (grown ==> granted && !fit && HasFit(n) && b.live == b0.live
                    && b.own.Keys == b0.own.Keys + Units(brk, Request(n)))
    }

    /** The rest of one turn of malloc's loop at a node that is too small: to the next node, or through morecore. */
    method Onward(p: nat, nunits: nat, brk: nat, granted: bool, ghost f: nat, ghost c: nat, ghost grown: bool,
                  ghost fit: bool, ghost m0: Memory, ghost b0: Blocks, ghost freep0: nat)
      returns (q: nat, ghost f': nat, ghost c': nat, ghost grown': bool)
      requires Walking(m0, b0, freep0, fit, granted, nunits, brk, f, c, grown) && nunits >= 1
      requires f < |b.list| && b.list[f] == freep && c < |b.list| && p == b.list[Idx(f, c, |b.list|)]
      requires p in mem && mem[p].size < nunits
      modifies this`mem, this`freep, this`b
      ensures Valid() && freep != 0
      ensures q == 0 <==> p == old(freep) && !granted
      ensures q == 0 ==> !fit && mem == m0 && b == b0
      ensures q != 0 ==> Walking(m0, b0, freep0, fit, granted, nunits, brk, f', c', grown')
      ensures q != 0 ==> q in mem && At(q, mem[q].ptr, f', c')
      ensures q != 0 ==> if grown' == grown then c' == c + 1 && b == old(b) else grown'
    {
      hide HeapOk, NoneTouch, LiveKept, Below, Units, Idx, Fits, NoFitBefore, HasFit;
      StepList(mem, b, f, c);
      NoFitHere(f, c, nunits);
      q, f', c', grown' := p, f, c, grown;
      if p == freep {
        LapDone(f, nunits);
        q := Morecore(nunits, brk, granted);
        if q == 0 {
          return;
        }
        grown', c' := true, 0;
        f' :| f' < |b.list| && b.list[f'] == freep;
        NothingSeen(f', nunits);
      } else {
        c' := c + 1;
        NodeAboveZero(mem, b, Idx(f, c, |b.list|));
      }
      NextNode(mem, b, f', c');
    }

    lemma NextNode(m: Memory, bs: Blocks, f: nat, c: nat)
      requires HeapOk(m, bs) && f < |bs.list| && c < |bs.list|
      ensures var q := bs.list[if c == 0 then f else Idx(f, c - 1, |bs.list|)];
        q in m && m[q].ptr == bs.list[Idx(f, c, |bs.list|)]
    {
      StepList(m, bs, f, 0);
      if c > 0 {
        StepList(m, bs, f, c - 1);
      }
    }

    lemma NodeAboveZero(m: Memory, bs: Blocks, i: nat)
      requires HeapOk(m, bs) && i < |bs.list|
      ensures bs.list[i] > 0
    {
      assert i > 0 ==> bs.list[0] < bs.list[i];
    }

    /** First call: the list is base alone. */
    method Init()
      requires Valid()
      modifies this`mem, this`freep
      ensures Valid() && freep != 0 && HeapOk(mem, b) && mem.Keys == old(mem).Keys
      ensures old(freep) != 0 ==> mem == old(mem) && freep == old(freep)
      ensures forall n: nat :: n > 0 ==> (HasFit(n) <==> old(HasFit(n)))
    {
      if freep == 0 {
        mem := mem[base := Header(base, 0)];
        freep := base;
      }
    }

    /** The loop of malloc stands at node Idx(f, c) of the list, c + 1 steps after freep. */
    ghost predicate At(prevp: nat, p: nat, f: nat, c: nat)
      reads this
    {
      && f < |b.list| && b.list[f] == freep && c < |b.list|
      && p == b.list[Idx(f, c, |b.list|)]
      && prevp == b.list[if c == 0 then f else Idx(f, c - 1, |b.list|)]
    }

    ghost predicate NoFitBefore(f: nat, c: nat, n: nat)
      reads this
    {
      f < |b.list| && c <= |b.list| && forall d: nat :: d < c ==> !Fits(mem, b.list, Idx(f, d, |b.list|), n)
    }

    /** Facts about node Idx(f, c): its successor, whether it is freep, and its predecessor. */
    lemma StepList(m: Memory, bs: Blocks, f: nat, c: nat)
      requires HeapOk(m, bs) && f < |bs.list| && c < |bs.list|
      ensures forall i: nat :: i < |bs.list| ==> bs.list[i] in m
      ensures m[bs.list[f]].ptr == bs.list[Idx(f, 0, |bs.list|)]
      ensures c + 1 < |bs.list| ==> m[bs.list[Idx(f, c, |bs.list|)]].ptr == bs.list[Idx(f, c + 1, |bs.list|)]
      ensures bs.list[Idx(f, c, |bs.list|)] == bs.list[f] <==> c == |bs.list| - 1
      ensures m[bs.list[0]].size == 0
      ensures Idx(f, c, |bs.list|) > 0 ==> Idx(f, c, |bs.list|) - 1 == if c == 0 then f else Idx(f, c - 1, |bs.list|)
    {
      var i := Idx(f, c, |bs.list|);
      assert LinkAt(m, bs.list, f) && LinkAt(m, bs.list, i);
    }

    lemma FirstFound(f: nat, c: nat, n: nat)
      requires NoFitBefore(f, c, n) && f < |b.list| && c < |b.list| && b.list[f] == freep
      requires Fits(mem, b.list, Idx(f, c, |b.list|), n) && n >= 1 && HeapOk(mem, b)
      ensures FirstFit(mem, b.list, freep, n, Idx(f, c, |b.list|))
    {
      assert FirstFitBy(mem, b.list, freep, n, Idx(f, c, |b.list|), f, c);
    }

    lemma NothingSeen(f: nat, n: nat)
      requires f < |b.list|
      ensures NoFitBefore(f, 0, n)
    {
    }

    lemma FitHere(i: nat, n: nat)
      requires freep != 0 && i < |b.list| && b.list[i] in mem && mem[b.list[i]].size >= n
      ensures Fits(mem, b.list, i, n) && HasFit(n)
    {
      assert Fits(mem, b.list, i, n);
    }

    lemma NoFitHere(f: nat, c: nat, n: nat)
      requires NoFitBefore(f, c, n) && c < |b.list|
      requires b.list[Idx(f, c, |b.list|)] in mem && mem[b.list[Idx(f, c, |b.list|)]].size < n
      ensures NoFitBefore(f, c + 1, n)
    {
    }

    /** At freep again without a fit: no block of the list fits. */
    lemma LapDone(f: nat, n: nat)
      requires NoFitBefore(f, |b.list|, n)
      ensures !HasFit(n)
    {
      forall i: nat | i < |b.list| ensures !Fits(mem, b.list, i, n) {
        LapCovers(mem, b.list, f, n, i);
      }
    }

    lemma AllUntouched(m: Memory, bs: Blocks)
      requires HeapOk(m, bs)
      ensures LiveKept(m, bs, m, bs)
    {
    }

    method TakeHere(prevp: nat, p: nat, n: nat, ghost i: nat, ghost m0: Memory, ghost b0: Blocks) returns (r: nat)
      requires Valid() && freep != 0 && n >= 1 && HeapOk(m0, b0) && b.live == b0.live
      requires 0 < i < |b.list| && p == b.list[i] && prevp == b.list[i - 1] && Fits(mem, b.list, i, n) && prevp in mem
      requires LiveKept(m0, b0, mem, b)
      modifies this`mem, this`freep, this`b
      ensures Valid() && freep != 0 && r != 0
      ensures r - 1 in mem && r - 1 !in b0.live && b.live == b0.live[r - 1 := n]
      ensures b.own.Keys == old(b).own.Keys && TakesEnd(old(mem), old(b).list, i, n, r, freep)
      ensures LiveKept(m0, b0, mem, b)
    {
      hide HeapOk, NoneTouch, HeapSpec.Untouched, Fits;
      ghost var m1, b1 := mem, b;
      r := Take(prevp, p, n, i);
      BothUntouched(b0.live.Keys, m0, b0, m1, b1, mem, b);
    }

    /** Allocate n units of the block p == b.list[i], whole or its tail. */
    method Take(prevp: nat, p: nat, n: nat, ghost i: nat) returns (r: nat)
      requires Valid() && freep != 0 && n >= 1
      requires 0 < i < |b.list| && p == b.list[i] && prevp == b.list[i - 1] && Fits(mem, b.list, i, n) && prevp in mem
      modifies this`mem, this`freep, this`b
      ensures Valid() && freep != 0 && r != 0
      ensures r - 1 in mem && r - 1 !in old(b).live && b.live == old(b).live[r - 1 := n]
      ensures b.own.Keys == old(b).own.Keys && TakesEnd(old(mem), old(b).list, i, n, r, freep)
      ensures r == p + old(mem)[p].size - n + 1 && freep == prevp
      ensures LiveKept(old(mem), old(b), mem, b)
    {
      hide HeapOk, NoneTouch, HeapSpec.Untouched;
      PrevAboveBase(mem, b, i);
      if mem[p].size == n {
        r := TakeAll(prevp, p, n, i);
      } else {
        r := TakeEnd(p, n, i);
      }
      freep := prevp;
    }

    lemma PrevAboveBase(m: Memory, bs: Blocks, i: nat)
      requires HeapOk(m, bs) && 0 < i < |bs.list|
      ensures bs.list[0] <= bs.list[i - 1] && 0 < bs.list[i]
    {
      assert i > 1 ==> bs.list[0] < bs.list[i - 1];
    }

    method TakeAll(prevp: nat, p: nat, n: nat, ghost i: nat) returns (r: nat)
      requires Valid() && freep != 0 && 0 < i < |b.list| && p == b.list[i] && prevp == b.list[i - 1]
      requires p in mem && prevp in mem && mem[p].size == n
      modifies this`mem, this`b
      ensures HeapOk(mem, b) && NoneTouch(mem, b.list) && mem.Keys == old(mem).Keys && r == p + 1
      ensures prevp in b.list && |b.list| >= 1 && b.list[0] == base
      ensures p !in old(b).live && b.live == old(b).live[p := n] && b.own == old(b).own
      ensures LiveKept(old(mem), old(b), mem, b)
    {
      hide HeapOk, NoneTouch, HeapSpec.Untouched;
      ghost var b1 := TakeWhole(mem, b, i);
      forall x | x in b.live
        ensures HeapSpec.Untouched(mem, b, mem[prevp := mem[prevp].(ptr := mem[p].ptr)], b1, x)
      {
        TakeWholeLeavesOthers(mem, b, i, mem[prevp].(ptr := mem[p].ptr), b1, x);
      }
      mem := mem[prevp := mem[prevp].(ptr := mem[p].ptr)];
      b := b1;
      r := p + 1;
    }

    method TakeEnd(p: nat, n: nat, ghost i: nat) returns (r: nat)
      requires Valid() && freep != 0 && 0 < i < |b.list| && p == b.list[i] && p in mem && 1 <= n < mem[p].size
      modifies this`mem, this`b
      ensures HeapOk(mem, b) && NoneTouch(mem, b.list) && mem.Keys == old(mem).Keys && b.list == old(b).list
      ensures r == p + (old(mem)[p].size - n) + 1 && r - 1 in mem
      ensures r - 1 !in old(b).live && b.live == old(b).live[r - 1 := n] && b.own.Keys == old(b).own.Keys
      ensures LiveKept(old(mem), old(b), mem, b)
    {
      hide HeapOk, NoneTouch, HeapSpec.Untouched;
      ghost var m0, b0 := mem, b;
      ghost var b1 := TakeTail(mem, b, i, n);
      mem := mem[p := mem[p].(size := mem[p].size - n)];
      var np := p + mem[p].size;
      mem := mem[np := mem[np].(size := n)];
      forall x | x in b0.live ensures HeapSpec.Untouched(m0, b0, mem, b1, x) {
        TakeTailLeavesOthers(m0, b0, i, np, m0[p].(size := m0[p].size - n), m0[np].(size := n), b1, x);
      }
      b := b1;
      r := np + 1;
    }

    /** The program may store what it likes in the payload of its blocks: the heap does not depend on it. */
    method Store(u: nat, h: Header)
      requires Valid() && u in b.own && b.own[u] in b.live && u != b.own[u]
      modifies this`mem
      ensures Valid() && mem == old(mem)[u := h]
    {
      PayloadOnly(mem, b, u, h);
      mem := mem[u := h];
    }

    lemma PayloadOnly(m: Memory, bs: Blocks, u: nat, h: Header)
      requires HeapOk(m, bs) && NoneTouch(m, bs.list) && u in bs.own && bs.own[u] in bs.live && u != bs.own[u]
      ensures u in m && HeapOk(m[u := h], bs) && NoneTouch(m[u := h], bs.list)
    {
      var a := bs.own[u];
      forall x | bs.IsBlock(x) ensures x != u {
        assert x == u ==> Inside(m, x, u);
      }
      assert u != bs.list[0];
      forall i | 0 <= i < |bs.list| ensures bs.list[i] != u {
        assert i > 0 ==> bs.IsBlock(bs.list[i]);
      }
      RingSame(m, m[u := h], bs.list);
      assert forall x :: x in bs.live ==> bs.IsBlock(x);
      hide Ring, NoneTouch;
      var m' := m[u := h];
      forall x: nat, y: nat {:trigger Inside(m', x, y)} {:trigger Inside(m, x, y)} | bs.IsBlock(x)
        ensures Inside(m', x, y) <==> Inside(m, x, y)
      {
      }
      hide Inside, Blocks.IsBlock;
      assert Partition(m', bs);
    }

    /** Two different blocks share no unit, and no unit from sbrk is lost. */
    lemma UnitsPartitioned(x: nat, y: nat, u: nat)
      requires Valid() && freep != 0
      ensures b.IsBlock(x) && b.IsBlock(y) && Inside(mem, x, u) && Inside(mem, y, u) ==> x == y
      ensures u in b.own <==> exists a :: b.IsBlock(a) && Inside(mem, a, u)
    {
      if u in b.own {
        assert b.IsBlock(b.own[u]) && Inside(mem, b.own[u], u);
      }
    }
  }
}
